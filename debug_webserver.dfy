/** The diagnostic endpoint's request handler: the X-Forwarded-For parser
    and the report it assembles from the host name, the peer address and
    that header. */
module DebugWebserver {
  import opened PyStr

  datatype Option<+T> = None | Some(value: T)

  /** The report the handler serialises for one request. */
  datatype DiagnosticReport = DiagnosticReport(
    hostname: string,
    clientIp: string,
    forwardedFor: seq<string>)

  /** The header value the handler works on: an absent header reads as the
      empty string. */
  function HeaderOrEmpty(header: Option<string>): (value: string)
    ensures header.None? ==> value == ""
    ensures header.Some? ==> value == header.value
  {
    match header
    case None => ""
    case Some(v) => v
  }

  /** The forwarded-for chain: an empty header gives no entries, any other
      header gives one entry per comma plus one, none of them holding a comma
      or surrounding whitespace. */
  function ParseForwardedFor(header: string): (entries: seq<string>)
    ensures header == "" <==> entries == []
    ensures header != "" ==> |entries| == Count(header, ',') + 1
    ensures forall i :: 0 <= i < |entries| ==> ',' !in entries[i]
    ensures forall i :: 0 <= i < |entries| ==> Unpadded(entries[i])
  {
    if header == "" then
      []
    else
      StripEach(Split(header, ','))
  }

  /** The list comprehension that strips every piece, in order. */
  function StripEach(pieces: seq<string>): (stripped: seq<string>)
    ensures |stripped| == |pieces|
    ensures forall i :: 0 <= i < |pieces| ==> stripped[i] == Strip(pieces[i])
    decreases |pieces|
  {
    if pieces == [] then [] else [Strip(pieces[0])] + StripEach(pieces[1..])
  }

  /** Order is kept and nothing is dropped: if the header is the comma-join
      of some comma-free segments, entry i is segment i stripped, and it is
      empty exactly when segment i is all whitespace. */
  lemma {:induction false} EntriesAreStrippedSegments(header: string, segments: seq<string>)
    requires header != ""
    requires Join(segments, ',') == header
    requires forall i :: 0 <= i < |segments| ==> ',' !in segments[i]
    ensures |ParseForwardedFor(header)| == |segments|
    ensures forall i :: 0 <= i < |segments| ==>
      ParseForwardedFor(header)[i] == Strip(segments[i])
    ensures forall i :: 0 <= i < |segments| ==>
      (ParseForwardedFor(header)[i] == "" <==> AllWhitespace(segments[i]))
  {
    SplitJoin(segments, ',');
  }

  /** Every entry is already stripped: stripping it again changes nothing. */
  lemma EntriesAreStripFixpoints(header: string)
    ensures forall e :: e in ParseForwardedFor(header) ==> Strip(e) == e
  {
  }

  /** Comma-free, unpadded segments are recovered exactly by parsing their
      comma-join, unless that join is the empty header. */
  lemma {:induction false} ParseRecoversSegments(segments: seq<string>)
    requires |segments| >= 1
    requires Join(segments, ',') != ""
    requires forall i :: 0 <= i < |segments| ==> ',' !in segments[i] && Unpadded(segments[i])
    ensures ParseForwardedFor(Join(segments, ',')) == segments
  {
    EntriesAreStrippedSegments(Join(segments, ','), segments);
  }

  /** Round trip: a non-empty header whose comma-delimited segments carry no
      surrounding whitespace is the comma-join of its entries. */
  lemma {:induction false} JoinEntriesRoundTrip(header: string)
    requires header != ""
    requires forall i :: 0 <= i < |Split(header, ',')| ==> Unpadded(Split(header, ',')[i])
    ensures Join(ParseForwardedFor(header), ',') == header
  {
    JoinSplit(header, ',');
    EntriesAreStrippedSegments(header, Split(header, ','));
    assert ParseForwardedFor(header) == Split(header, ',');
  }

  /** In particular a non-empty header with no whitespace at all is the
      comma-join of its entries. */
  lemma {:induction false} WhitespaceFreeRoundTrip(header: string)
    requires header != ""
    requires forall k :: 0 <= k < |header| ==> !IsWhitespace(header[k])
    ensures Join(ParseForwardedFor(header), ',') == header
  {
    var pieces := Split(header, ',');
    JoinSplit(header, ',');
    forall i | 0 <= i < |pieces| ensures Unpadded(pieces[i]) {
      var piece := pieces[i];
      if piece != [] {
        PieceCharsFromSource(pieces, i, ',');
        forall c | c in piece ensures !IsWhitespace(c) {
          assert c in header;
          var k :| 0 <= k < |header| && header[k] == c;
        }
        assert piece[0] in piece && piece[|piece| - 1] in piece;
      }
    }
    JoinEntriesRoundTrip(header);
  }

  lemma {:induction false} PieceCharsFromSource(pieces: seq<string>, i: nat, sep: char)
    requires i < |pieces|
    ensures forall c :: c in pieces[i] ==> c in Join(pieces, sep)
    decreases |pieces|
  {
    if |pieces| > 1 {
      var rest := Join(pieces[1..], sep);
      assert Join(pieces, sep) == pieces[0] + [sep] + rest;
      if i > 0 {
        PieceCharsFromSource(pieces[1..], i - 1, sep);
      }
    }
  }

  /** Parsing is a normalisation: re-parsing the comma-join of the entries
      gives the same entries, except for a header of whitespace only, whose
      single empty entry joins to the empty header and so re-parses to none. */
  lemma {:induction false} ReparseJoinedEntries(header: string)
    ensures ParseForwardedFor(Join(ParseForwardedFor(header), ',')) ==
      if ParseForwardedFor(header) == [""] then [] else ParseForwardedFor(header)
  {
    var entries := ParseForwardedFor(header);
    if entries != [] && Join(entries, ',') != "" {
      ParseRecoversSegments(entries);
    }
  }

  /** The handler's report: the host name and the peer address are passed
      through, and the forwarded-for chain comes from the header alone, with
      an absent header treated as an empty one. */
  function Index(hostname: string, remoteAddr: string, forwardedHeader: Option<string>): (report: DiagnosticReport)
    ensures report.hostname == hostname
    ensures report.clientIp == remoteAddr
    ensures report.forwardedFor == ParseForwardedFor(HeaderOrEmpty(forwardedHeader))
    ensures report.forwardedFor == [] <==> forwardedHeader == None || forwardedHeader == Some("")
    ensures forwardedHeader.Some? && forwardedHeader.value != "" ==>
      |report.forwardedFor| == Count(forwardedHeader.value, ',') + 1
  {
    var forwardedFor := HeaderOrEmpty(forwardedHeader);
    DiagnosticReport(hostname, remoteAddr, ParseForwardedFor(forwardedFor))
  }

  /** The three fields are independent: each depends on its own input only,
      so changing one input leaves the other two fields as they were. */
  lemma FieldsAreIndependent(
    hostname1: string, remoteAddr1: string, header1: Option<string>,
    hostname2: string, remoteAddr2: string, header2: Option<string>)
    ensures Index(hostname1, remoteAddr1, header1).hostname == Index(hostname2, remoteAddr2, header2).hostname
      <==> hostname1 == hostname2
    ensures Index(hostname1, remoteAddr1, header1).clientIp == Index(hostname2, remoteAddr2, header2).clientIp
      <==> remoteAddr1 == remoteAddr2
    ensures HeaderOrEmpty(header1) == HeaderOrEmpty(header2) ==>
      Index(hostname1, remoteAddr1, header1).forwardedFor == Index(hostname2, remoteAddr2, header2).forwardedFor
  {
  }

  /** An absent header and an empty one give the same report, with no
      forwarded-for entries. */
  lemma AbsentHeaderIsEmptyHeader(hostname: string, remoteAddr: string)
    ensures Index(hostname, remoteAddr, None) == Index(hostname, remoteAddr, Some(""))
    ensures Index(hostname, remoteAddr, None).forwardedFor == []
  {
  }

  /** A proxy that appends one more hop to a non-empty header appends exactly
      one more entry, that hop stripped, and leaves the earlier entries alone. */
  lemma {:induction false} AppendedHopIsLastEntry(header: string, hop: string)
    requires header != ""
    requires ',' !in hop
    ensures ParseForwardedFor(header + "," + hop) == ParseForwardedFor(header) + [Strip(hop)]
  {
    SplitAppend(header, hop, ',');
  }
}
