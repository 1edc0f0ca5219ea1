# ziliwebka HTTP core in Dafny

A model of the request parser and response serialiser of the `ziliwebka` web
server (src/http.rs), and of the legacy single-threaded server binary (src/main.rs):
its own reason-phrase table, the response text it writes, the file lookup with its
retries, and the decision what to write back for the bytes read from a connection.

The project has three modules:

- `Text` (text.dfy): the string machinery the Rust code gets from its standard
  library, written out. It holds:
  - UTF-8 encoding (`str::as_bytes`);
  - lossy UTF-8 decoding with maximal-subpart replacement (`String::from_utf8_lossy`);
  - decimal formatting of a code (`format!("{}")`);
  - `str::split` on one character and on `"\r\n"`.

  Each comes with the property that ties it to its inverse: decoding an encoding
  gives the text back, the digits denote the number, and joining the pieces rebuilds
  the text.
- `Http` (http.dfy): `Method::new`, `Request::new`, `Response::new`,
  `Response::to_bytes` and `resolve_reason_phrase`.
  - `Request::new` is the method `NewRequest`. Its three loops are methods of their
    own, each proved against a specification function:
    - `FindBodyStart`, the CR LF scan with its `previous` byte;
    - `FindColon`, the search that breaks at the first `:`;
    - `ReadHeaders`, the loop that fills the header map.

    `NewRequest` is proved equal to the specification function `Parse`, and the
    parser's properties are lemmas about `Parse`.
  - `to_bytes` is a method that builds the text header by header. It is proved equal
    to `Serialize`. A lemma shows that the header block reads back, through the
    parser's own header splitting, as the stored map with a leading space on each
    value. This holds when no header name holds a `:` and no name or value holds a CR.
- `LegacyServer` (legacy.dfy): the functions of src/main.rs.
  - `get_file` is a method with the retry loop, proved equal to `FileLookup`.
  - `handle_connection` after the socket read is a method proved equal to `Respond`.

Behaviour kept exactly as the code has it:

- **The CR LF scan does not move `previous` on a match** (src/http.rs:55-61). LF
  bytes that directly follow a matched CR LF each move the split point one further
  (`Http.LfRunExtendsSplit`, `Http.LfAfterCrLfExample`).
- **The unit test at src/http.rs:230 disagrees with src/http.rs:151.** The test
  expects no blank line after the headers, but line 151 always appends one. The model
  follows the code: `Http.SerializeTestResponse` proves that the code's output is the
  test's expectation followed by one more CR LF.
- **The reason phrase for 505** keeps its "extension-code" suffix in both tables.
- **`generate_response` ends its lines with LF CR, not CR LF**, although the comment
  at src/main.rs:176-181 describes CR LF. `LegacyServer.GenerateResponseStatusLine`
  states where the status line ends.
- **Header values are written unescaped** (src/http.rs:148-150). A value holding CR
  LF followed by `name: value` reads back as a second header that was never stored
  (`Http.HeaderValueInjects`).
- **A `get_file` read that succeeds only on a retry is served with code 404.** The
  code is set to 200 only on the first read (src/main.rs:72-96). This is
  `LegacyServer.RetrySuccessKeeps404`.

How outside inputs are represented:

- **Bytes** are integers from 0 to 255.
- **Strings** are sequences of Unicode scalar values.
- **`HashMap` iteration order** in `to_bytes` is an explicit parameter `order`,
  required to list every key exactly once (`Http.EnumeratesKeys`). Every property is
  stated for every such order.
- **`fs::read`** in src/main.rs is a parameter of type
  `LegacyServer.FileSystem`. It gives the outcome of the n-th read that one lookup
  makes, for the path it reads, so a timed-out read may succeed when it is retried.

## Model

| member | source | states |
|---|---|---|
| Http.MethodFromToken | src/http.rs:21-35 | the method is `UNKNOWN` exactly when the token is not one of the nine upper-case method names, and then it carries the token unchanged |
| Http.MethodTokenRoundTrip | src/http.rs:8-35 | every token is recovered from the method made of it, and each method other than an `UNKNOWN` carrying a standard name is made again from its token |
| Http.FindBodyStart | src/http.rs:52-61 | the byte scan with `previous` ends at `BodyStart`, the end of the last CR LF match under the rule that a match does not update `previous` |
| Http.BodyStartZero | src/http.rs:52-64 | the split point is zero exactly when no CR byte is directly followed by an LF byte |
| Http.BodyStartIsLastMatch | src/http.rs:52-61 | the split point lies in the buffer, directly follows an LF that ends a match, and no match ends later |
| Http.LfRunExtendsSplit | src/http.rs:55-61 | a CR followed by a run of LF bytes puts the split point after the whole run |
| Http.LfAfterCrLfExample | src/http.rs:55-61 | for the bytes CR LF LF the split point is 3, not 2 |
| Http.BodyOf | src/http.rs:66-74 | the body is none exactly when every byte after the split point is zero, and otherwise those bytes unchanged |
| Http.FindColon | src/http.rs:98-105 | the loop finds no colon exactly when the line has none, and otherwise the index of the first one |
| Http.ColonIndex | src/http.rs:98-105 | the position found holds a colon and no colon comes before it; none exactly when the line has no colon |
| Http.ColonIndexIsFirst | src/http.rs:98-105 | any position holding a colon with none before it is the one found |
| Http.HeaderField | src/http.rs:107-112 | a line without a colon adds no header; otherwise the line is the key, a colon and the value, and the key holds no colon |
| Http.HeaderEntriesKeys | src/http.rs:96-113 | a key is in the header map exactly when some line carries it before its first colon |
| Http.HeaderEntriesLastWins | src/http.rs:96-113 | the last line that carries a key gives its value: a later duplicate overwrites an earlier one |
| Http.NewRequest | src/http.rs:47-121 | the parsing method returns exactly `Parse` of the buffer |
| Http.ReadHeaders | src/http.rs:96-113 | the header loop builds exactly the map of `HeaderEntries`, inserting line by line |
| Http.ParseEmpty | src/http.rs:48-50 | an empty buffer gives no request |
| Http.ParseNeedsCrLf | src/http.rs:52-64 | a buffer in which no CR is directly followed by LF gives no request |
| Http.ParseSucceeds | src/http.rs:47-93 | a request is made exactly when the buffer holds a CR LF pair and its request line holds a space |
| Http.ParseBody | src/http.rs:66-74 | the request's body is none exactly when the bytes after the split point are all zero, and otherwise exactly those bytes |
| Http.ParseRequestLine | src/http.rs:76-93 | the request line is the method token, a space and the URI, followed by nothing or by a space; neither the token nor the URI holds a space |
| Http.ParseHeaders | src/http.rs:96-113 | a header is present exactly when a line after the request line carries its key, and the last such line gives its value |
| Http.ParseZeroPadded | src/http.rs:47-74 | zero bytes appended to any buffer change neither the method, the URI nor the headers; they only extend a body that is present |
| Http.ParseRequestWithOneHeader | src/http.rs:47-121 | a request line and one header line, each ended by CR LF, parse to that method, URI and single header, with no body |
| Http.ParseTestRequest | src/http.rs:204-219 | the unit test's request parses to GET, "/index.html", the Host header with value " 0.0.0.0:7878", and no body |
| Http.NewResponse | src/http.rs:134-140 | the response holds the given code, headers and body |
| Http.ReasonPhrase | src/http.rs:158-202 | the phrase is non-empty exactly for the 40 listed codes (100-101, 200-206, 300-305, 307, 400-417, 500-505) |
| Http.ReasonPhraseHasNoCr | src/http.rs:158-202 | no reason phrase contains a CR, so none can end the status line early |
| Http.ToBytes | src/http.rs:141-156 | the serialising method with its header loop returns exactly `Serialize` |
| Http.SerializeFraming | src/http.rs:141-156 | the bytes are the status line, the header block, one unconditional CR LF and the body, in that order |
| Http.StatusTextHasNoCr | src/http.rs:142-147 | the status line's text, before its CR LF, holds no CR |
| Http.StatusTextCode | src/http.rs:142-147 | the digits after "HTTP/1.1 " in the status line denote the code |
| Http.StatusLineFirst | src/http.rs:142-147 | the first CR LF-separated line of the response is "HTTP/1.1", the code in decimal, and the phrase, and those digits denote the code |
| Http.HeaderTexts | src/http.rs:148-150 | one header text per key in the order, each `name: value` |
| Http.SplitHeaderBlock | src/http.rs:148-151 | when no header name or value holds a CR, the header block split at CR LF gives each header text once, in order, followed by an empty line |
| Http.HeaderBlockReadsBack | src/http.rs:148-150 | when no header name holds a `:` and no name or value holds a CR, the header block read back through the parser's header splitting gives exactly the stored map, each value gaining a leading space, and no other header |
| Http.HeaderValueInjects | src/http.rs:148-150 | a stored value holding CR LF and a further `name: value` line reads back as two headers, the second never stored |
| Http.SerializeOneHeader | src/http.rs:141-156 | with one header and no body, the bytes are the status line, the header line, and the blank line |
| Http.SerializeTestResponse | src/http.rs:221-232 | the unit test's response serialises to the test's expected bytes followed by one more CR LF, so it differs from them |
| Text.Encode | src/http.rs:153 | the UTF-8 encoding of a text has at least one byte per character; `Text.DecodeEncode` proves lossy decoding inverts it |
| Text.Decode | src/http.rs:76 | lossy UTF-8 decoding gives at most one character per byte; `Text.DecodeEncode` proves it inverts `Encode`, and the two lemmas below give its replacement rule |
| Text.DecodeInvalidByte | src/main.rs:31 | a byte that starts no well-formed UTF-8 sequence decodes on its own to one U+FFFD |
| Text.DecodeCutSequence | src/main.rs:50 | a lead byte followed by a byte that cannot continue its sequence decodes to one U+FFFD, and decoding resumes at that byte |
| Text.SplitCrLf | src/http.rs:77 | splitting at CR LF gives at least one line; `Text.SplitCrLfJoin` and `Text.SplitCrLfLines` prove the split exact |
| Text.SplitAt | src/main.rs:32 | splitting at a character gives at least one piece; `Text.SplitAtJoin` and `Text.SplitAtCount` prove the split exact |
| Text.Decimal | src/http.rs:142-146 | the `{}` formatting of a code is a non-empty string of digits with no leading zero unless the code is 0; `Text.DecimalRoundTrip` proves the digits denote the code |
| Text.DecodeEncode | src/http.rs:76-79 | lossy decoding of the UTF-8 encoding of any text gives that text back |
| Text.SplitCrLfJoin | src/http.rs:76-79 | joining the CR LF-separated lines with CR LF rebuilds the text |
| Text.SplitCrLfLines | src/http.rs:76-79 | no CR LF-separated line holds a CR LF pair |
| Text.SplitAtJoin | src/main.rs:31-34 | joining the space-separated pieces with spaces rebuilds the text, and no piece holds a space |
| Text.SplitAtCount | src/main.rs:31-36 | splitting at a character gives one more piece than the text has occurrences of it |
| Text.DecimalRoundTrip | src/http.rs:142-146 | the decimal digits written for a code denote that code |
| LegacyServer.ReasonPhrase | src/main.rs:115-159 | the table in src/main.rs gives the same phrase as the one in src/http.rs for every code, unknown codes included |
| LegacyServer.GenerateResponse | src/main.rs:160-168 | the response is the status text, LF CR, the header text, LF CR and the body, each at its own position in that order |
| LegacyServer.GenerateResponseStatusLine | src/main.rs:160-168 | the text before the first CR is the status line followed by LF, so the line ends with LF CR; its digits denote the code |
| LegacyServer.RealPath | src/main.rs:68-71 | the path is "root" followed by the target, with "index.html" appended exactly when the target ends in "/"; a non-empty target never gives a path ending in "/" |
| LegacyServer.NotFoundPage | src/main.rs:107-113 | `get_404`'s page is the bytes of root/404.html whenever that read succeeds |
| LegacyServer.NotFoundPageText | src/main.rs:107-113 | when root/404.html cannot be read, the page decodes to "Error 404 file not found!" |
| LegacyServer.RetryReadFirstSuccess | src/main.rs:84-96 | the retry loop, modelled by `LegacyServer.RetryRead`, finds nothing exactly when every read from the given one up to the fifth retry fails; otherwise it gives the bytes of the first of those reads that succeeds |
| LegacyServer.GetFile | src/main.rs:64-113 | the lookup method with its retry loop returns exactly `FileLookup`'s code and content, and an empty header string |
| LegacyServer.FileLookupCode | src/main.rs:72-102 | the code is 200 exactly when the first read of the path succeeds, and 404 otherwise |
| LegacyServer.RetrySuccessKeeps404 | src/main.rs:82-96 | a read that times out and then succeeds serves the file's bytes with code 404 |
| LegacyServer.FileLookupReadsOnlyItsPaths | src/main.rs:64-113 | the outcome depends only on reads of the target's path and of root/404.html |
| LegacyServer.Route | src/main.rs:36-56 | code 501 with an empty body exactly for a method other than GET or a target ending in "?"; otherwise code 200 exactly when the first read of the file succeeds, else 404, with the file's content decoded as the body |
| LegacyServer.HandleConnection | src/main.rs:31-58 | the routing method returns exactly `Respond` of the buffer |
| LegacyServer.RespondWritesIff | src/main.rs:31-36 | a response is written exactly when the buffer's text holds at least three spaces, so the split gives more than three pieces |
| LegacyServer.RespondNotImplemented | src/main.rs:40-56 | any method but GET, and a GET whose target ends in "?", gets the 501 status line with no headers or body, whatever the file system holds |
| LegacyServer.RespondServesFile | src/main.rs:41-51 | a GET of a file whose first read succeeds with UTF-8 text is answered with the 200 status line, two LF CR separators and that text |

## Left out

- src/lib.rs (`ThreadPool`, `Worker`) is not part of this model. It is channels, mutexes and threads.
- src/server.rs is not part of this model. It is an accept loop driven by a channel, and it calls a `Request::new` on a socket and a `SafeRequest` type that src/http.rs does not define.
- src/files.rs is not part of this model. Its path rule and retry loop duplicate `get_file` in src/main.rs, which is modelled.
- src/bin/main.rs and the socket parts of src/main.rs are not modelled: binding, accepting, reading into the 1024-byte buffer, writing and flushing. `LegacyServer.HandleConnection` takes the buffer as read, and returns the bytes it would write, or none. `Http.ParseZeroPadded` covers the zero padding of that buffer.
- Panics are not modelled. These are the `unwrap` calls on socket operations, and on `lines[0]`, which cannot fail because a split always yields one piece.
- `HashMap` hashing and iteration order are not modelled. `to_bytes` takes the key order as a parameter.
- Http.FindBodyStart: requires a non-empty buffer, which is exactly the source's `first().unwrap()`. `Http.NewRequest` returns none for an empty buffer before calling it, as src/http.rs:48-50 does.
- Http.NewResponse: the code is a `nat`, not a 64-bit `usize`. Decimal formatting does not depend on the width.
- LegacyServer.GetFile: a `u32` code (`LegacyServer.U32`) is kept, but it only ever yields 200 or 404 (`LegacyServer.FileLookupCode`); the 501 comes from `LegacyServer.Route`. The retry counter is a `nat` counting down from 5, as the source's `u32` does.

