/** Concrete header values and the forwarded-for chains the handler reports
    for them. */
module ForwardedForExamples {
  import opened PyStr
  import opened DebugWebserver

  /** A header written by a client and two proxies, each proxy appending
      `,` and one hop, lists the three hops stripped, in that order. */
  lemma ThreeHops(first: string, second: string, third: string, e0: string, e1: string, e2: string)
    requires ',' !in first && ',' !in second && ',' !in third
    requires Strip(first) == e0 && Strip(second) == e1 && Strip(third) == e2
    ensures ParseForwardedFor(first + "," + second + "," + third) == [e0, e1, e2]
  {
    var header := first + "," + second + "," + third;
    var segments := [first, second, third];
    assert Join(segments[2..], ',') == third;
    assert Join(segments[1..], ',') == second + "," + third;
    assert Join(segments, ',') == header;
    EntriesAreStrippedSegments(header, segments);
  }

  lemma PaddedAddressStrips()
    ensures Strip("  198.51.100.2 ") == "198.51.100.2"
  {
    assert "  198.51.100.2 " == "  " + "198.51.100.2" + " ";
    StripOfPadded("  ", "198.51.100.2", " ");
  }

  /** A single address is a single entry. */
  lemma SingleAddress()
    ensures ParseForwardedFor("203.0.113.7") == ["203.0.113.7"]
  {
    ParseRecoversSegments(["203.0.113.7"]);
  }

  /** Three addresses with whitespace around the middle one: the whitespace
      is trimmed and the order is kept. The header is a parameter pinned to
      the concatenation of its three segments and two commas, because that
      form lets the proof reuse ThreeHops instead of unfolding Split over
      one 36-character literal character by character. */
  lemma AddressesWithWhitespace(header: string)
    requires header == "203.0.113.7" + "," + "  198.51.100.2 " + "," + "10.0.0.1"
    ensures ParseForwardedFor(header) == ["203.0.113.7", "198.51.100.2", "10.0.0.1"]
  {
    PaddedAddressStrips();
    assert Unpadded("203.0.113.7") && Unpadded("10.0.0.1");
    assert ',' !in "203.0.113.7" && ',' !in "  198.51.100.2 " && ',' !in "10.0.0.1";
    ThreeHops("203.0.113.7", "  198.51.100.2 ", "10.0.0.1", "203.0.113.7", "198.51.100.2", "10.0.0.1");
  }

  /** An empty segment between two addresses is kept as an empty entry. */
  lemma EmptySegmentKept()
    ensures ParseForwardedFor("203.0.113.7,,10.0.0.1") == ["203.0.113.7", "", "10.0.0.1"]
  {
    var segments := ["203.0.113.7", "", "10.0.0.1"];
    assert Join(segments[2..], ',') == "10.0.0.1";
    assert Join(segments[1..], ',') == ",10.0.0.1";
    assert Join(segments, ',') == "203.0.113.7,,10.0.0.1";
    ParseRecoversSegments(segments);
  }

  /** The same for single-letter segments. */
  lemma EmptySegmentBetweenLetters()
    ensures ParseForwardedFor("a,,b") == ["a", "", "b"]
  {
  }

  /** A lone comma is two empty entries. */
  lemma LoneComma()
    ensures ParseForwardedFor(",") == ["", ""]
  {
  }

  /** A header of whitespace only is one empty entry, unlike an empty header. */
  lemma WhitespaceOnlyHeader()
    ensures ParseForwardedFor(" ") == [""]
    ensures ParseForwardedFor("") == []
  {
  }

  /** The peer address is reported whatever the header says. */
  lemma ClientIpIgnoresHeader(hostname: string)
    ensures Index(hostname, "198.51.100.9", Some("203.0.113.7")).clientIp == "198.51.100.9"
    ensures Index(hostname, "198.51.100.9", Some("203.0.113.7")).forwardedFor == ["203.0.113.7"]
  {
    SingleAddress();
  }
}
