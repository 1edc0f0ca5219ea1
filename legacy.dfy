/** The single-threaded server binary of src/main.rs: its own copy of the reason-phrase
    table, the response text it writes (with LF CR where HTTP has CR LF), the file
    lookup with its retries, and the decision what to write for the bytes read from a
    connection. The file system is a function from a path and the number of the read
    to its outcome. */
module LegacyServer {
  import opened Text
  import Http

  /** Rust's `u32`. */
  type U32 = x: int | 0 <= x < 0x1_0000_0000

  /** The copy of the reason-phrase table in src/main.rs. It agrees with the table of
      src/http.rs on every code. */
  function ReasonPhrase(code: U32): (phrase: string)
    ensures phrase == Http.ReasonPhrase(code)
  {
    match code
    case 100 => "Continue"
    case 101 => "Switching Protocols"
    case 200 => "OK"
    case 201 => "Created"
    case 202 => "Accepted"
    case 203 => "Non-Authoritative Information"
    case 204 => "No Content"
    case 205 => "Reset Content"
    case 206 => "Partial Content"
    case 300 => "Multiple Choices"
    case 301 => "Moved Permanently"
    case 302 => "Found"
    case 303 => "See Other"
    case 304 => "Not Modified"
    case 305 => "Use Proxy"
    case 307 => "Temporary Redirect"
    case 400 => "Bad Request"
    case 401 => "Unauthorized"
    case 402 => "Payment Required"
    case 403 => "Forbidden"
    case 404 => "Not Found"
    case 405 => "Method Not Allowed"
    case 406 => "Not Acceptable"
    case 407 => "Proxy Authentication Required"
    case 408 => "Request Time-out"
    case 409 => "Conflict"
    case 410 => "Gone"
    case 411 => "Length Required"
    case 412 => "Precondition Failed"
    case 413 => "Request Entity Too Large"
    case 414 => "Request-URI Too Large"
    case 415 => "Unsupported Media Type"
    case 416 => "Requested range not satisfiable"
    case 417 => "Expectation Failed"
    case 500 => "Internal Server Error"
    case 501 => "Not Implemented"
    case 502 => "Bad Gateway"
    case 503 => "Service Unavailable"
    case 504 => "Gateway Time-out"
    case 505 => "HTTP Version not supported extension-code"
    case _ => ""
  }

  /** The status line without its terminator. */
  function StatusText(code: U32): string {
    "HTTP/1.1 " + Decimal(code) + " " + ReasonPhrase(code)
  }

  /** `generate_response`: the status line, LF CR, the header text, LF CR, the body. */
  function GenerateResponse(code: U32, headers: string, body: string): (response: string)
    ensures var n, h := |StatusText(code)|, |headers|;
            && |response| == n + h + |body| + 4
            && response[..n] == StatusText(code)
            && response[n..n + 2] == "\n\r" && response[n + 2 + h..n + 4 + h] == "\n\r"
            && response[n + 2..n + 2 + h] == headers && response[n + 4 + h..] == body
  {
    StatusText(code) + "\n\r" + headers + "\n\r" + body
  }

  /** The status line ends at the first CR of the response, and what precedes that CR is
      an LF: the line is terminated by LF CR, not by CR LF. The code written in it
      denotes the code again. */
  lemma GenerateResponseStatusLine(code: U32, headers: string, body: string)
    ensures SplitAt(GenerateResponse(code, headers, body), '\r')[0] == StatusText(code) + "\n"
    ensures DecimalValue(StatusText(code)[9..9 + |Decimal(code)|]) == code
  {
    assert StatusText(code) == Http.StatusText(code);
    Http.StatusTextHasNoCr(code);
    Http.StatusTextCode(code);
    var line := StatusText(code) + "\n";
    assert GenerateResponse(code, headers, body) == line + ['\r'] + (headers + "\n\r" + body);
    SplitAtFirst(line, '\r', headers + "\n\r" + body);
  }

  // ---------------------------------------------------------------------------
  // File lookup
  // ---------------------------------------------------------------------------

  datatype ErrorKind = TimedOut | Interrupted | NotFound | OtherError

  datatype ReadResult = Contents(bytes: seq<Byte>) | Failed(kind: ErrorKind)

  /** `fs::read`: the outcome of the `n`-th read (counting from 0) one lookup makes,
      given the path it reads. */
  type FileSystem = (string, nat) -> ReadResult

  /** How often `get_file` reads again after a timed-out or interrupted read. */
  const NumberOfRetries: nat := 5

  const NotFoundPath: string := "root/404.html"

  /** The path `get_file` reads: "root" before the target, "index.html" after it when
      the target ends in "/". */
  function RealPath(target: string): (path: string)
    ensures |path| >= 4 && path[..4] == "root"
    ensures path[4..] == target || path[4..] == target + "index.html"
    ensures path[4..] == target + "index.html" <==> |target| > 0 && target[|target| - 1] == '/'
    ensures |target| > 0 ==> path[|path| - 1] != '/'
  {
    var path := "root" + target;
    assert |target| > 0 ==> path[|path| - 1] == target[|target| - 1];
    if |path| > 0 && path[|path| - 1] == '/' then path + "index.html" else path
  }

  /** `get_404`: the page read from root/404.html by the `n`-th read, or a fixed text
      when that read fails. */
  function NotFoundPage(fs: FileSystem, n: nat): (page: seq<Byte>)
    ensures fs(NotFoundPath, n).Contents? ==> page == fs(NotFoundPath, n).bytes
  {
    match fs(NotFoundPath, n)
    case Contents(page) => page
    case Failed(_) => Encode("Error 404 file not found!")
  }

  /** When root/404.html cannot be read, the page is the fixed text, encoded. */
  lemma NotFoundPageText(fs: FileSystem, n: nat)
    requires fs(NotFoundPath, n).Failed?
    ensures Decode(NotFoundPage(fs, n)) == "Error 404 file not found!"
  {
    DecodeEncode("Error 404 file not found!");
  }

  /** The bytes of the first successful read among reads `n` to `NumberOfRetries`. */
  function RetryRead(path: string, fs: FileSystem, n: nat): Option<seq<Byte>>
    decreases NumberOfRetries + 1 - n
  {
    if n > NumberOfRetries then None
    else match fs(path, n)
      case Contents(bytes) => Some(bytes)
      case Failed(_) => RetryRead(path, fs, n + 1)
  }

  /** The retries find nothing exactly when every read from the `n`-th to the last retry
      fails; otherwise they give the bytes of the first of those reads that succeeds. */
  lemma {:induction false} RetryReadFirstSuccess(path: string, fs: FileSystem, n: nat)
    ensures RetryRead(path, fs, n).None? <==> forall m :: n <= m <= NumberOfRetries ==> fs(path, m).Failed?
    ensures RetryRead(path, fs, n).Some? ==>
              exists m :: n <= m <= NumberOfRetries && fs(path, m) == Contents(RetryRead(path, fs, n).value)
                          && forall k :: n <= k < m ==> fs(path, k).Failed?
    decreases NumberOfRetries + 1 - n
  {
    if n <= NumberOfRetries && fs(path, n).Failed? {
      RetryReadFirstSuccess(path, fs, n + 1);
    }
  }

  /** What `get_file` finds: the code and the content. The code starts at 404 and is set
      to 200 only when the first read succeeds, so a read that succeeds on a retry still
      reports 404. */
  function FileLookup(target: string, fs: FileSystem): (U32, seq<Byte>) {
    var path := RealPath(target);
    match fs(path, 0)
    case Contents(text) => (200, text)
    case Failed(kind) =>
      if kind == TimedOut || kind == Interrupted then
        match RetryRead(path, fs, 1)
        case Some(text) => (404, text)
        case None => (404, NotFoundPage(fs, NumberOfRetries + 1))
      else (404, NotFoundPage(fs, 1))
  }

  /** `get_file`: builds the path, reads it, and on a timed-out or interrupted read tries
      again up to five times before falling back to the 404 page. */
  method GetFile(target: string, fs: FileSystem) returns (code: U32, content: seq<Byte>, headers: string)
    ensures (code, content) == FileLookup(target, fs)
    ensures headers == ""
  {
    var realPath := "root" + target;
    if |realPath| > 0 && realPath[|realPath| - 1] == '/' {
      realPath := realPath + "index.html";
    }
    code := 404;
    match fs(realPath, 0) {
      case Contents(text) =>
        code := 200;
        content := text;
      case Failed(kind) =>
      if kind == TimedOut || kind == Interrupted {
        var retries: nat := NumberOfRetries;
        content := [];
        while true
          invariant retries <= NumberOfRetries && code == 404
          invariant RetryRead(realPath, fs, 1) == RetryRead(realPath, fs, NumberOfRetries + 1 - retries)
          decreases retries
        {
          if retries == 0 {
            code := 404;
            content := NotFoundPage(fs, NumberOfRetries + 1);
            break;
          }
          retries := retries - 1;
          var attempt := fs(realPath, NumberOfRetries - retries);
          if attempt.Contents? {
            content := attempt.bytes;
            break;
          }
        }
      } else {
        content := NotFoundPage(fs, 1);
      }
    }
    headers := "";
  }

  /** The code is 200 exactly when the first read of the path succeeds, and 404
      otherwise. */
  lemma FileLookupCode(target: string, fs: FileSystem)
    ensures FileLookup(target, fs).0 == 200 <==> fs(RealPath(target), 0).Contents?
    ensures FileLookup(target, fs).0 == 200 || FileLookup(target, fs).0 == 404
  {
  }

  /** A read that times out and then succeeds serves the file with code 404. */
  lemma RetrySuccessKeeps404(target: string, fs: FileSystem)
    requires fs(RealPath(target), 0) == Failed(TimedOut) && fs(RealPath(target), 1).Contents?
    ensures FileLookup(target, fs) == (404, fs(RealPath(target), 1).bytes)
  {
  }

  /** The lookup reads nothing but the target's path and the 404 page. */
  lemma FileLookupReadsOnlyItsPaths(target: string, fs: FileSystem, fs': FileSystem)
    requires forall n :: fs(RealPath(target), n) == fs'(RealPath(target), n)
    requires forall n :: fs(NotFoundPath, n) == fs'(NotFoundPath, n)
    ensures FileLookup(target, fs) == FileLookup(target, fs')
  {
    RetryReadSame(RealPath(target), fs, fs', 1);
  }

  lemma {:induction false} RetryReadSame(path: string, fs: FileSystem, fs': FileSystem, n: nat)
    requires forall m :: fs(path, m) == fs'(path, m)
    ensures RetryRead(path, fs, n) == RetryRead(path, fs', n)
    decreases NumberOfRetries + 1 - n
  {
    if n <= NumberOfRetries {
      RetryReadSame(path, fs, fs', n + 1);
    }
  }

  // ---------------------------------------------------------------------------
  // Connection handling
  // ---------------------------------------------------------------------------

  predicate EndsWithQuestionMark(s: string) {
    |s| > 0 && s[|s| - 1] == '?'
  }

  /** The code and the body text `handle_connection` picks for the pieces of a request:
      501 and no body for any method but GET and for a GET whose target ends in "?",
      otherwise the lookup's code and its content as text. */
  function Route(request: seq<string>, fs: FileSystem): (routed: (U32, string))
    requires |request| > 3
    ensures routed.0 == 200 || routed.0 == 404 || routed.0 == 501
    ensures routed.0 == 501 <==> request[0] != "GET" || EndsWithQuestionMark(request[1])
    ensures routed.0 == 501 ==> routed.1 == ""
    ensures routed.0 != 501 ==> routed.1 == Decode(FileLookup(request[1], fs).1)
    ensures routed.0 == 200 <==> !(routed.0 == 501) && fs(RealPath(request[1]), 0).Contents?
  {
    FileLookupCode(request[1], fs);
    if request[0] != "GET" || EndsWithQuestionMark(request[1]) then (501, "")
    else
      var (code, content) := FileLookup(request[1], fs);
      (code, Decode(content))
  }

  /** What `handle_connection` writes for the bytes of its read buffer: nothing unless
      the text splits at spaces into more than three pieces, and otherwise the response
      with the routed code and body and no header text. */
  function Respond(buffer: seq<Byte>, fs: FileSystem): Option<seq<Byte>> {
    var request := SplitAt(Decode(buffer), ' ');
    if |request| <= 3 then None
    else
      var (code, body) := Route(request, fs);
      Some(Encode(GenerateResponse(code, "", body)))
  }

  /** `handle_connection` after the read: splits the buffer's text at spaces, picks the
      code, headers and body, and writes the response. */
  method HandleConnection(buffer: seq<Byte>, fs: FileSystem) returns (written: Option<seq<Byte>>)
    ensures written == Respond(buffer, fs)
  {
    var request := SplitAt(Decode(buffer), ' ');
    written := None;
    if |request| > 3 {
      var code: U32;
      var headers := "";
      var body := "";
      if request[0] == "GET" {
        if |request[1]| > 0 && request[1][|request[1]| - 1] == '?' {
          code := 501;
        } else {
          var fileCode, content, fileHeaders := GetFile(request[1], fs);
          code := fileCode;
          headers := headers + fileHeaders;
          body := body + Decode(content);
          assert headers == "" && body == Decode(content);
        }
      } else {
        code := 501;
      }
      written := Some(Encode(GenerateResponse(code, headers, body)));
    }
  }

  /** A response is written exactly when the buffer's text holds at least three
      spaces. */
  lemma RespondWritesIff(buffer: seq<Byte>, fs: FileSystem)
    ensures Respond(buffer, fs).Some? <==> multiset(Decode(buffer))[' '] >= 3
  {
    SplitAtCount(Decode(buffer), ' ');
  }

  /** The response to any method but GET, and to a GET whose target ends in "?", is the
      501 status line and nothing else, whatever the file system holds. */
  lemma RespondNotImplemented(buffer: seq<Byte>, fs: FileSystem)
    requires var request := SplitAt(Decode(buffer), ' ');
             |request| > 3 && (request[0] != "GET" || EndsWithQuestionMark(request[1]))
    ensures Respond(buffer, fs) == Some(Encode(StatusText(501) + "\n\r\n\r"))
    ensures StatusText(501) == "HTTP/1.1 " + "501" + " " + "Not Implemented"
  {
    var request := SplitAt(Decode(buffer), ' ');
    assert Route(request, fs) == (501, "");
    HeaderlessResponse(501, "");
    assert StatusText(501) + "\n\r\n\r" + "" == StatusText(501) + "\n\r\n\r";
    NotImplementedStatus();
  }

  lemma NotImplementedStatus()
    ensures StatusText(501) == "HTTP/1.1 " + "501" + " " + "Not Implemented"
  {
    assert Decimal(5) == "5";
    assert Decimal(50) == "50";
    assert Decimal(501) == "501";
  }

  /** A GET whose target does not end in "?" gets the lookup's code, no header text and
      the content as its body; a file that holds the UTF-8 text `s` is served as `s`
      with code 200 when the first read succeeds. */
  lemma RespondServesFile(buffer: seq<Byte>, fs: FileSystem, s: string)
    requires var request := SplitAt(Decode(buffer), ' ');
             |request| > 3 && request[0] == "GET" && !EndsWithQuestionMark(request[1])
             && fs(RealPath(request[1]), 0) == Contents(Encode(s))
    ensures Respond(buffer, fs) == Some(Encode(StatusText(200) + "\n\r\n\r" + s))
  {
    var request := SplitAt(Decode(buffer), ' ');
    assert FileLookup(request[1], fs) == (200, Encode(s));
    DecodeEncode(s);
    assert Route(request, fs) == (200, s);
    HeaderlessResponse(200, s);
  }

  /** With no header text, the response is the status line, the two separators and the
      body. */
  lemma HeaderlessResponse(code: U32, body: string)
    ensures GenerateResponse(code, "", body) == StatusText(code) + "\n\r\n\r" + body
  {
  }
}
