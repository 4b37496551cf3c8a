# Diagnostic web endpoint: X-Forwarded-For parsing and the report

A model of the one request handler of a small diagnostic web service. On
`GET /` the handler reports three things: the server's host name, the
address of the connecting peer, and the `X-Forwarded-For` chain that proxies
recorded in the request. The chain is parsed from the header value as
follows. An absent or empty header gives no entries. Any other value is
split on `,`. Each piece is stripped of surrounding whitespace. Empty pieces
are kept.

The model has three modules:

- `PyStr` (`pystr.dfy`): the Python string builtins that the parser calls.
  `Strip` models `str.strip()` with no argument. It is written as CPython
  computes it: skip whitespace from the left, then from the right without
  passing the left end. `Split` models `str.split(sep)` with a
  one-character separator. `Join` models `sep.join(parts)`. The parser
  never calls `Join`; it is the inverse against which `Split` is proved
  (`JoinSplit`, `SplitJoin`).
- `DebugWebserver` (`debug_webserver.dfy`): `ParseForwardedFor`, the
  comprehension on line 13, and `Index`, the report that `index()` builds.
  The host name and the peer address are parameters. The header is an
  `Option<string>`, where `None` means the header is absent.
- `ForwardedForExamples` (`examples_forwarded.dfy`): `ThreeHops`, a lemma
  over every header made of three comma-free segments, and concrete header
  values with their chains: a single address, padded addresses, empty
  segments, a lone comma, a whitespace-only header, and a report whose peer
  address differs from the header's address.

Whitespace is `IsWhitespace`. It is the fixed set of code points that
CPython's `str.isspace()` accepts:

- U+0009 to U+000D;
- U+001C to U+0020;
- U+0085 and U+00A0;
- U+1680;
- U+2000 to U+200A;
- U+2028, U+2029, U+202F, U+205F and U+3000.

Two consequences of the code as written:

- `strip()` with no argument trims every character of the set above, not
  only ASCII whitespace.
- `socket.gethostname()` (debug-webserver.py:10) has no fallback. The host
  name is an input, so the lookup and its failure are outside the model.

## Model

| member | source | states |
|---|---|---|
| `PyStr.Strip` | debug-webserver.py:13 | The stripped piece has no leading or trailing whitespace. It is empty exactly when the piece is all whitespace. It holds no character the piece lacks. An already unpadded piece is returned unchanged. |
| `PyStr.StripOfPadded` | debug-webserver.py:13 | Reference definition of strip: an unpadded core surrounded by any whitespace strips to exactly that core. |
| `PyStr.StripIdempotent` | debug-webserver.py:13 | Stripping twice is the same as stripping once. |
| `PyStr.Split` | debug-webserver.py:13 | `split(',')` gives one more piece than there are commas. No piece holds a comma. |
| `PyStr.JoinSplit` | debug-webserver.py:13 | Joining the pieces of a split with the separator gives back the split string, so split loses and reorders nothing. |
| `PyStr.SplitJoin` | debug-webserver.py:13 | Splitting the join of one or more separator-free pieces gives back exactly those pieces. So split is the unique inverse of join. |
| `PyStr.SplitAppend` | debug-webserver.py:13 | Appending a separator and a separator-free piece to a string appends exactly that piece to its split. |
| `DebugWebserver.HeaderOrEmpty` | debug-webserver.py:12 | `headers.get('X-Forwarded-For', '')`: an absent header reads as the empty string, and a present one reads as its value. |
| `DebugWebserver.StripEach` | debug-webserver.py:13 | The comprehension `[x.strip() for x in ...]` keeps the number of pieces, and entry i is piece i stripped. |
| `DebugWebserver.ParseForwardedFor` | debug-webserver.py:12-13 | The chain is empty exactly when the header is empty. A non-empty header gives (number of commas + 1) entries. No entry holds a comma or surrounding whitespace. |
| `DebugWebserver.EntriesAreStrippedSegments` | debug-webserver.py:13 | Order is kept and nothing is filtered. For any comma-free segments whose comma-join is the header, entry i is segment i stripped. Entry i is empty exactly when segment i is all whitespace. |
| `DebugWebserver.EntriesAreStripFixpoints` | debug-webserver.py:13 | Stripping any entry again leaves it unchanged. |
| `DebugWebserver.ParseRecoversSegments` | debug-webserver.py:13 | Parsing the comma-join of comma-free, unpadded segments gives back exactly those segments, provided the join is not the empty header. |
| `DebugWebserver.JoinEntriesRoundTrip` | debug-webserver.py:13 | Round trip: if the header is non-empty and none of its comma-delimited segments has surrounding whitespace, joining the entries with `,` reproduces the header. |
| `DebugWebserver.WhitespaceFreeRoundTrip` | debug-webserver.py:13 | A non-empty header with no whitespace at all is exactly the comma-join of its entries. |
| `DebugWebserver.ReparseJoinedEntries` | debug-webserver.py:12-13 | Parsing normalises. Re-parsing the comma-join of the entries gives the same entries, except for a whitespace-only header: its single empty entry joins to the empty header, which parses to no entries. |
| `DebugWebserver.AppendedHopIsLastEntry` | debug-webserver.py:13 | When a proxy appends `,hop` to a non-empty header, the chain gains exactly one last entry, the hop stripped, and the earlier entries are unchanged. |
| `DebugWebserver.Index` | debug-webserver.py:9-18 | `hostname` is the host name passed through and `client_ip` is the peer address passed through. `forwarded_for` is the parse of the header value (an absent header read as `""`), so every fact proved about `ParseForwardedFor` holds of it. It is empty exactly when the header is absent or empty. Otherwise it has one entry per comma plus one. |
| `DebugWebserver.FieldsAreIndependent` | debug-webserver.py:10-17 | Two reports agree on `hostname` exactly when their host names agree. They agree on `client_ip` exactly when their peer addresses agree, whatever the headers say. They agree on `forwarded_for` whenever their header values agree, whatever the host names and peer addresses are. |
| `DebugWebserver.AbsentHeaderIsEmptyHeader` | debug-webserver.py:12-13 | An absent header and an empty header give the same report, with an empty chain rather than `[""]`. |
| `ForwardedForExamples.ThreeHops` | debug-webserver.py:13 | Any header made of three comma-free segments, including empty ones such as `",b,c"`, gives the three segments stripped, in order. |
| `ForwardedForExamples.SingleAddress` | debug-webserver.py:13 | `"203.0.113.7"` gives `["203.0.113.7"]`. |
| `ForwardedForExamples.AddressesWithWhitespace` | debug-webserver.py:13 | `"203.0.113.7,  198.51.100.2 ,10.0.0.1"` gives the three addresses trimmed, in order. |
| `ForwardedForExamples.EmptySegmentKept` | debug-webserver.py:13 | `"203.0.113.7,,10.0.0.1"` keeps the empty middle entry. |
| `ForwardedForExamples.EmptySegmentBetweenLetters` | debug-webserver.py:13 | `"a,,b"` gives `["a", "", "b"]`. |
| `ForwardedForExamples.LoneComma` | debug-webserver.py:13 | `","` gives `["", ""]`. |
| `ForwardedForExamples.WhitespaceOnlyHeader` | debug-webserver.py:12-13 | `" "` gives `[""]`, while `""` gives `[]`. |
| `ForwardedForExamples.ClientIpIgnoresHeader` | debug-webserver.py:10-13 | With peer `198.51.100.9` and header `203.0.113.7`, `client_ip` is the peer and the chain is the header's address. |

## Left out

- Flask application set-up, the `@app.route('/')` binding and
  `app.run(host='0.0.0.0', port=8080)` (debug-webserver.py:1, 6, 8, 20-21)
  are framework and network I/O.
- `socket.gethostname()` (debug-webserver.py:10) is an operating-system
  call. The host name is an input string.
- `request.remote_addr` (debug-webserver.py:11) is an input string. The
  framework can give `None` when the server supplies no peer address, and
  the model does not cover that case.
- Header lookup (debug-webserver.py:12) is reduced to an optional value. The
  framework's case-insensitive name match is not modelled. Neither is how a
  server merges repeated `X-Forwarded-For` headers into one value.
- `json.dumps(..., indent=2)` (debug-webserver.py:14-18) and the HTTP status
  and content type are library serialisation. The model stops at the
  `DiagnosticReport` record.
- Concurrent request dispatch is not modelled. Each call is independent and
  shares no state.
- The whitespace set follows current CPython. It does not vary
  with the Unicode database version a given Python build uses.
- Repeated identical requests give identical reports. This holds because
  `Index` is a function, so no lemma states it.
