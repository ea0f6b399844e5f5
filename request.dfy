/** `ReadRequestAsync`: reads an HTTP/1.1 request from the connection. The
    header is read in chunks of at most 4096 bytes until the blank line that
    ends it; the request line and header fields are parsed; then as many more
    body bytes are read as `Content-Length` asks for. Failures are
    `HttpStatusException`s, modelled as `Rejected` results. */
module Requests {
  import opened Wrappers
  import opened Encoding
  import opened Text
  import opened Connections

  const MaxHeaderBytes := 32 * 1024
  const MaxBodyBytes := 8 * 1024 * 1024
  /** The length of the rented read buffer. */
  const BufferSize := 4096
  /** `\r\n\r\n`. */
  const HeaderTerminator: seq<byte> := [13, 10, 13, 10]
  const CrLf := "\r\n"
  const ContentLengthName := "Content-Length"
  /** The key `Content-Length` is looked up under: its case-folded name. */
  const ContentLengthKey := "CONTENT-LENGTH"

  /** `HttpStatusException`: a status line, a message, and whether an API client gets it as JSON. */
  datatype HttpStatusError = HttpStatusError(status: string, message: string, preferJson: bool)

  /** `HttpRequest`. The header dictionary compares names ignoring case; here it is keyed by
      the case-folded name. */
  datatype HttpRequest = HttpRequest(httpMethod: string, rawTarget: string, path: string, headers: map<string, string>, body: seq<byte>)

  /** No request (the client sent nothing), a request, or the error the reader threw. */
  datatype ReadResult = NoRequest | Received(request: HttpRequest) | Rejected(error: HttpStatusError)

  function BadRequest(message: string): HttpStatusError {
    HttpStatusError("400 Bad Request", message, false)
  }

  // ---------------------------------------------------------------------
  // Reading the header

  /** The bytes in all the chunks, whether or not an empty chunk comes before them. */
  function TotalLength(chunks: seq<seq<byte>>): nat
  {
    if chunks == [] then 0 else |chunks[0]| + TotalLength(chunks[1..])
  }

  /** A read that returns bytes leaves fewer bytes to come. */
  lemma ReadChunkShrinks(chunks: seq<seq<byte>>, max: nat)
    requires max > 0
    ensures var (data, rest) := ReadChunk(chunks, max);
            data != [] ==> TotalLength(rest) < TotalLength(chunks)
  {
    if chunks != [] && chunks[0] != [] && |chunks[0]| > max {
      var rest := [chunks[0][max..]] + chunks[1..];
      assert rest[1..] == chunks[1..];
    }
  }

  /** `FindHeaderTerminator`: the index of the first `\r\n\r\n` in the buffer, or -1. */
  function FindHeaderTerminator(buffer: seq<byte>): (r: int)
    ensures r == -1 <==> forall i :: 0 <= i <= |buffer| ==> !OccursAt(buffer, HeaderTerminator, i)
    ensures r != -1 ==> 0 <= r <= |buffer| - 4 && OccursAt(buffer, HeaderTerminator, r)
                        && forall i :: 0 <= i < r ==> !OccursAt(buffer, HeaderTerminator, i)
  {
    IndexOf(buffer, HeaderTerminator)
  }

  datatype HeaderOutcome =
    | EndOfStream(buffer: seq<byte>)
    | HeadersTooLarge
    | HeaderFound(buffer: seq<byte>, end: nat)

  /** The header loop, one read per step, starting from what is already buffered:
      the stream ends, the buffer outgrows the limit, or the terminator turns up. */
  function HeaderScan(chunks: seq<seq<byte>>, buffer: seq<byte>): (HeaderOutcome, seq<seq<byte>>)
    decreases TotalLength(chunks)
  {
    var (data, rest) := ReadChunk(chunks, BufferSize);
    if data == [] then (EndOfStream(buffer), rest)
    else
      var grown := buffer + data;
      if |grown| > MaxHeaderBytes then (HeadersTooLarge, rest)
      else
        var end := FindHeaderTerminator(grown);
        ReadChunkShrinks(chunks, BufferSize);
        if end == -1 then HeaderScan(rest, grown) else (HeaderFound(grown, end), rest)
  }

  /** What the header loop leaves behind: at the end of the stream, everything was read;
      when the terminator is found, the buffer is what was read, within the limit, and the
      terminator's first occurrence lies in it; when the header is too large, more than the limit was sent. */
  lemma {:induction false} HeaderScanConsumes(chunks: seq<seq<byte>>, buffer: seq<byte>)
    requires |buffer| <= MaxHeaderBytes && FindHeaderTerminator(buffer) == -1
    ensures var (outcome, rest) := HeaderScan(chunks, buffer);
            match outcome
            case EndOfStream(b) =>
              b == buffer + Available(chunks) && Available(rest) == [] && FindHeaderTerminator(b) == -1 && |b| <= MaxHeaderBytes
            case HeadersTooLarge => |buffer + Available(chunks)| > MaxHeaderBytes
            case HeaderFound(b, end) =>
              b + Available(rest) == buffer + Available(chunks) && |buffer| < |b| <= MaxHeaderBytes
              && end == FindHeaderTerminator(b) && end != -1
    decreases TotalLength(chunks)
  {
    var (data, rest) := ReadChunk(chunks, BufferSize);
    ReadChunkAvailable(chunks, BufferSize);
    if data == [] {
      ReadChunkAvailable(rest, BufferSize);
      assert Available(rest) == [] by {
        if chunks != [] && chunks[0] == [] {
          assert rest == chunks;
        }
      }
    } else {
      var grown := buffer + data;
      assert grown + Available(rest) == buffer + Available(chunks);
      if |grown| <= MaxHeaderBytes && FindHeaderTerminator(grown) == -1 {
        ReadChunkShrinks(chunks, BufferSize);
        HeaderScanConsumes(rest, grown);
      }
    }
  }

  /** The header loop: reads until the terminator turns up, the stream ends or the buffer is too large. */
  method ReadHeader(conn: Connection) returns (outcome: HeaderOutcome)
    modifies conn
    ensures (outcome, conn.incoming) == HeaderScan(old(conn.incoming), [])
    ensures conn.written == old(conn.written)
  {
    var buffer := [];
    while true
      invariant HeaderScan(conn.incoming, buffer) == HeaderScan(old(conn.incoming), [])
      invariant conn.written == old(conn.written)
      decreases TotalLength(conn.incoming)
    {
      ghost var before := conn.incoming;
      var data := conn.Read(BufferSize);
      ReadChunkShrinks(before, BufferSize);
      if data == [] {
        return EndOfStream(buffer);
      }
      buffer := buffer + data;
      if |buffer| > MaxHeaderBytes {
        return HeadersTooLarge;
      }
      var end := FindHeaderTerminator(buffer);
      if end != -1 {
        return HeaderFound(buffer, end);
      }
    }
  }

  // ---------------------------------------------------------------------
  // Parsing the header

  /** A parse result or the error thrown instead. */
  datatype Parsed<T> = Parsed(value: T) | Failed(error: HttpStatusError)

  /** The path of a request target: what precedes the first `?`, or `/` when that is empty. */
  function RequestPath(target: string): (path: string)
    ensures path != [] && '?' !in path
    ensures path == "/" || (StartsWith(target, path) && (|path| == |target| || target[|path|] == '?'))
  {
    var p := Split(target, '?')[0];
    if p == [] then "/" else p
  }

  /** The folded name and the value of a header line; none for an empty line or one
      without a `:` after its first character. */
  function HeaderField(line: string): Option<(string, string)>
  {
    if line == [] then None
    else
      var separatorIndex := IndexOfChar(line, ':');
      if separatorIndex <= 0 then None
      else Some((Fold(Trim(line[..separatorIndex])), Trim(line[separatorIndex + 1..])))
  }

  /** The header lines applied in order: each field replaces an earlier one of the same name. */
  function HeaderMap(lines: seq<string>, headers: map<string, string>): map<string, string>
  {
    if lines == [] then headers else HeaderMap(lines[1..], AddField(headers, lines[0]))
  }

  function AddField(headers: map<string, string>, line: string): map<string, string>
  {
    match HeaderField(line)
    case None => headers
    case Some((name, value)) => headers[name := value]
  }

  /** The value the last line naming `name` gives it, searching from the end; none when no line does. */
  function FieldValue(lines: seq<string>, name: string): Option<string>
  {
    if lines == [] then None
    else
      var field := HeaderField(lines[|lines| - 1]);
      if field.Some? && field.value.0 == name then Some(field.value.1)
      else FieldValue(lines[..|lines| - 1], name)
  }

  lemma {:induction false} HeaderMapSnoc(lines: seq<string>, line: string, headers: map<string, string>)
    ensures HeaderMap(lines + [line], headers) == AddField(HeaderMap(lines, headers), line)
  {
    if lines != [] {
      assert (lines + [line])[1..] == lines[1..] + [line];
      HeaderMapSnoc(lines[1..], line, AddField(headers, lines[0]));
    }
  }

  /** A header name maps to the value of the last line that sets it, or keeps its earlier value when no line does. */
  lemma {:induction false} HeaderMapLookup(lines: seq<string>, headers: map<string, string>, name: string)
    ensures name in HeaderMap(lines, headers) <==> FieldValue(lines, name).Some? || name in headers
    ensures name in HeaderMap(lines, headers) ==>
              HeaderMap(lines, headers)[name] == if FieldValue(lines, name).Some? then FieldValue(lines, name).value else headers[name]
    decreases |lines|
  {
    if lines != [] {
      var init, last := lines[..|lines| - 1], lines[|lines| - 1];
      assert lines == init + [last];
      HeaderMapLookup(init, headers, name);
      var m := HeaderMap(init, headers);
      HeaderMapSnoc(init, last, headers);
      assert HeaderMap(lines, headers) == AddField(m, last);
      AddFieldLookup(m, last, name);
    }
  }

  /** One line sets `name` when it is a field of that name, and leaves it alone otherwise. */
  lemma AddFieldLookup(headers: map<string, string>, line: string, name: string)
    ensures var field := HeaderField(line);
            var hit := field.Some? && field.value.0 == name;
            (name in AddField(headers, line) <==> hit || name in headers) &&
            (name in AddField(headers, line) ==> AddField(headers, line)[name] == if hit then field.value.1 else headers[name])
  {
  }

  /** Header names are stored case-folded, so a lookup under any spelling finds the same field. */
  lemma {:induction false} HeaderNamesFolded(lines: seq<string>, name: string)
    requires name in HeaderMap(lines, map[])
    ensures Fold(name) == name
    decreases |lines|
  {
    HeaderMapLookup(lines, map[], name);
    var last := lines[|lines| - 1];
    var field := HeaderField(last);
    if field.Some? && field.value.0 == name {
      var i := IndexOfChar(last, ':');
      FoldIdempotent(Trim(last[..i]));
    } else {
      HeaderMapLookup(lines[..|lines| - 1], map[], name);
      HeaderNamesFolded(lines[..|lines| - 1], name);
    }
  }

  datatype RequestHead = RequestHead(httpMethod: string, rawTarget: string, path: string, headers: map<string, string>)

  const MalformedRequestLine := BadRequest("Malformed request line.")

  /** The request line (at least three tokens between spaces) and the header fields. */
  function ParseHead(headerText: string): Parsed<RequestHead>
  {
    var lines := SplitOn(headerText, CrLf);
    if IsBlank(lines[0]) then Failed(MalformedRequestLine)
    else
      var parts := SplitNonEmpty(lines[0], ' ');
      if |parts| < 3 then Failed(MalformedRequestLine)
      else Parsed(RequestHead(parts[0], parts[1], RequestPath(parts[1]), HeaderMap(lines[1..], map[])))
  }

  const InvalidContentLength: Parsed<nat> := Failed(BadRequest("Invalid Content-Length header."))
  const PayloadTooLarge := HttpStatusError("413 Payload Too Large", "Request body exceeds configured limit.", false)

  /** The declared body length: zero when absent or empty, an error when it is not a
      non-negative 32-bit number or exceeds the limit. */
  function ContentLength(headers: map<string, string>): (r: Parsed<nat>)
    ensures r.Parsed? ==> r.value <= MaxBodyBytes
    ensures ContentLengthKey !in headers || headers[ContentLengthKey] == [] ==> r == Parsed(0)
    ensures ContentLengthKey in headers && headers[ContentLengthKey] != [] ==>
              var n := ParseInt32(headers[ContentLengthKey]);
              (r == InvalidContentLength <==> n.None? || n.value < 0)
              && (r == Failed(PayloadTooLarge) <==> n.Some? && n.value > MaxBodyBytes)
              && (r.Parsed? <==> n.Some? && 0 <= n.value <= MaxBodyBytes)
              && (r.Parsed? ==> r.value == n.value)
  {
    if ContentLengthKey !in headers || headers[ContentLengthKey] == [] then Parsed(0)
    else
      match ParseInt32(headers[ContentLengthKey])
      case None => InvalidContentLength
      case Some(n) =>
        if n < 0 then InvalidContentLength
        else if n > MaxBodyBytes then Failed(PayloadTooLarge)
        else Parsed(n)
  }

  /** A `Content-Length` value followed by NUL characters reads as the value alone:
      `Content-Length: 5` and a NUL declare a body of 5 bytes. */
  lemma ContentLengthIgnoresTrailingNuls(headers: map<string, string>, value: string, k: nat)
    requires value != []
    ensures ContentLength(headers[ContentLengthKey := value + Nuls(k)])
            == ContentLength(headers[ContentLengthKey := value])
  {
    ParseInt32IgnoresTrailingNuls(value, k);
  }

  /** A `Content-Length` written as a decimal number within the limit reads back as that number;
      one above the limit is refused with 413. */
  lemma ContentLengthOfDecimal(headers: map<string, string>, n: nat)
    requires n <= Int32Max
    ensures ContentLength(headers[ContentLengthKey := DecimalString(n)])
            == if n <= MaxBodyBytes then Parsed(n) else Failed(PayloadTooLarge)
  {
    DecimalRoundTrip(n);
  }

  /** The header loop of `ReadRequestAsync`. */
  method ParseHeaderFields(lines: seq<string>) returns (headers: map<string, string>)
    requires |lines| >= 1
    ensures headers == HeaderMap(lines[1..], map[])
  {
    headers := map[];
    var i := 1;
    while i < |lines|
      invariant 1 <= i <= |lines|
      invariant HeaderMap(lines[i..], headers) == HeaderMap(lines[1..], map[])
    {
      HeaderMapStep(lines, i, headers);
      headers := AddHeaderLine(headers, lines[i]);
      i := i + 1;
    }
  }

  /** The body of the header loop for one line: a line with a colon after its first
      character sets its folded, trimmed name to its trimmed value; any other line is skipped. */
  method AddHeaderLine(headers: map<string, string>, line: string) returns (next: map<string, string>)
    ensures next == AddField(headers, line)
  {
    next := headers;
    if line != [] {
      var separatorIndex := IndexOfChar(line, ':');
      if separatorIndex > 0 {
        var name := Trim(line[..separatorIndex]);
        var value := Trim(line[separatorIndex + 1..]);
        FieldOfLine(line, separatorIndex);
        AddSomeField(headers, line, Fold(name), value);
        next := headers[Fold(name) := value];
      } else {
        NoFieldOfLine(line);
        AddNoField(headers, line);
      }
    } else {
      NoFieldOfLine(line);
      AddNoField(headers, line);
    }
  }

  /** A line that carries a field sets it. */
  lemma AddSomeField(headers: map<string, string>, line: string, name: string, value: string)
    requires HeaderField(line) == Some((name, value))
    ensures AddField(headers, line) == headers[name := value]
  {
  }

  /** A line that carries no field changes nothing. */
  lemma AddNoField(headers: map<string, string>, line: string)
    requires HeaderField(line) == None
    ensures AddField(headers, line) == headers
  {
  }

  /** One step of `HeaderMap`. */
  lemma HeaderMapStep(lines: seq<string>, i: nat, headers: map<string, string>)
    requires i < |lines|
    ensures HeaderMap(lines[i..], headers) == HeaderMap(lines[i + 1..], AddField(headers, lines[i]))
  {
    assert lines[i..][1..] == lines[i + 1..];
  }

  /** The field of a line with a colon after its first character. */
  lemma FieldOfLine(line: string, separatorIndex: int)
    requires line != [] && separatorIndex == IndexOfChar(line, ':') && separatorIndex > 0
    ensures HeaderField(line) == Some((Fold(Trim(line[..separatorIndex])), Trim(line[separatorIndex + 1..])))
  {
  }

  /** An empty line, or one without a colon after its first character, is no field. */
  lemma NoFieldOfLine(line: string)
    requires line == [] || IndexOfChar(line, ':') <= 0
    ensures HeaderField(line) == None
  {
  }

  // ---------------------------------------------------------------------
  // Reading the body

  function Min(a: int, b: int): int {
    if a <= b then a else b
  }

  /** The body loop: reads of at most 4096 bytes, and never more than still missing,
      appended to what is already there, until nothing is missing; none when the stream ends first. */
  function BodyScan(chunks: seq<seq<byte>>, remaining: nat, body: seq<byte>): (Option<seq<byte>>, seq<seq<byte>>)
    decreases remaining
  {
    if remaining == 0 then (Some(body), chunks)
    else
      var (data, rest) := ReadChunk(chunks, Min(BufferSize, remaining));
      if data == [] then (None, rest)
      else BodyScan(rest, remaining - |data|, body + data)
  }

  /** Whatever the chunks, the body loop yields exactly the next `remaining` bytes of the stream, if there are that many. */
  lemma {:induction false} BodyScanReadsExactly(chunks: seq<seq<byte>>, remaining: nat, body: seq<byte>)
    ensures BodyScan(chunks, remaining, body).0
            == if |Available(chunks)| >= remaining then Some(body + Available(chunks)[..remaining]) else None
    decreases remaining
  {
    if remaining > 0 {
      var (data, rest) := ReadChunk(chunks, Min(BufferSize, remaining));
      ReadChunkAvailable(chunks, Min(BufferSize, remaining));
      var all := Available(chunks);
      if data == [] {
        assert all == [];
      } else {
        assert BodyScan(chunks, remaining, body) == BodyScan(rest, remaining - |data|, body + data);
        BodyScanReadsExactly(rest, remaining - |data|, body + data);
        assert all == data + Available(rest);
        if |all| >= remaining {
          assert all[..remaining] == data + Available(rest)[..remaining - |data|];
          assert body + all[..remaining] == (body + data) + Available(rest)[..remaining - |data|];
        }
      }
    } else {
      assert body + Available(chunks)[..0] == body;
    }
  }

  /** The body loop of `ReadRequestAsync`. */
  method ReadBody(conn: Connection, remaining0: nat, buffered: seq<byte>) returns (body: Option<seq<byte>>)
    modifies conn
    ensures (body, conn.incoming) == BodyScan(old(conn.incoming), remaining0, buffered)
    ensures conn.written == old(conn.written)
  {
    var bodyStream := buffered;
    var remaining: nat := remaining0;
    while remaining > 0
      invariant BodyScan(conn.incoming, remaining, bodyStream) == BodyScan(old(conn.incoming), remaining0, buffered)
      invariant conn.written == old(conn.written)
      decreases remaining
    {
      var read := conn.Read(Min(BufferSize, remaining));
      if read == [] {
        return None;
      }
      bodyStream := bodyStream + read;
      remaining := remaining - |read|;
    }
    return Some(bodyStream);
  }

  /** The request line and header part of `ReadRequestAsync`. */
  method ParseRequestHead(headerText: string) returns (head: Parsed<RequestHead>)
    ensures head == ParseHead(headerText)
  {
    var lines := SplitOn(headerText, CrLf);
    if IsBlank(lines[0]) {
      return Failed(MalformedRequestLine);
    }
    var requestLineParts := SplitNonEmpty(lines[0], ' ');
    if |requestLineParts| < 3 {
      return Failed(MalformedRequestLine);
    }
    var httpMethod := requestLineParts[0];
    var rawTarget := requestLineParts[1];
    var path := Split(rawTarget, '?')[0];
    if path == [] {
      path := "/";
    }
    var headers := ParseHeaderFields(lines);

    return Parsed(RequestHead(httpMethod, rawTarget, path, headers));
  }

  // ---------------------------------------------------------------------
  // The whole request

  const UnexpectedEndOfStream := BadRequest("Unexpected end of stream.")
  const HeaderTooLarge := HttpStatusError("431 Request Header Fields Too Large", "Headers exceed allowed size.", false)
  const UnexpectedEndOfBody := BadRequest("Unexpected end of request body.")

  /** The body once the header is parsed: the bytes read past the header, topped up from the
      stream when `Content-Length` asks for more; never cut back when it asks for less. */
  function ReadBodySpec(rest: seq<seq<byte>>, contentLength: nat, remainder: seq<byte>): (Option<seq<byte>>, seq<seq<byte>>)
  {
    if contentLength > |remainder| then BodyScan(rest, contentLength - |remainder|, remainder)
    else (Some(remainder), rest)
  }

  /** `ReadRequestAsync` on a connection whose remaining input is `chunks`: the result and what is left unread. */
  function ReadRequestSpec(chunks: seq<seq<byte>>): (ReadResult, seq<seq<byte>>)
  {
    HeaderScanConsumes(chunks, []);
    var (outcome, rest) := HeaderScan(chunks, []);
    match outcome
    case EndOfStream(b) => (if b == [] then NoRequest else Rejected(UnexpectedEndOfStream), rest)
    case HeadersTooLarge => (Rejected(HeaderTooLarge), rest)
    case HeaderFound(b, end) => RequestAfterHeader(b, end + |HeaderTerminator|, rest)
  }

  /** The request once its header, the first `headerLength` bytes of `buffer`, has been read;
      `rest` is what the stream still holds. */
  function RequestAfterHeader(buffer: seq<byte>, headerLength: nat, rest: seq<seq<byte>>): (ReadResult, seq<seq<byte>>)
    requires headerLength <= |buffer|
  {
    RequestFromHead(ParseHead(AsciiString(buffer[..headerLength])), buffer[headerLength..], rest)
  }

  /** The request once its head is parsed; `remainder` is what was buffered past the header. */
  function RequestFromHead(head: Parsed<RequestHead>, remainder: seq<byte>, rest: seq<seq<byte>>): (ReadResult, seq<seq<byte>>)
  {
    match head
    case Failed(e) => (Rejected(e), rest)
    case Parsed(h) => RequestWithLength(h, ContentLength(h.headers), remainder, rest)
  }

  /** The request once its declared body length is known. */
  function RequestWithLength(head: RequestHead, length: Parsed<nat>, remainder: seq<byte>, rest: seq<seq<byte>>): (ReadResult, seq<seq<byte>>)
  {
    match length
    case Failed(e) => (Rejected(e), rest)
    case Parsed(n) =>
      var body := ReadBodySpec(rest, n, remainder);
      match body.0
      case None => (Rejected(UnexpectedEndOfBody), body.1)
      case Some(bytes) => (Received(HttpRequest(head.httpMethod, head.rawTarget, head.path, head.headers, bytes)), body.1)
  }

  /** `ReadRequestAsync`. */
  method ReadRequest(conn: Connection) returns (result: ReadResult)
    modifies conn
    ensures (result, conn.incoming) == ReadRequestSpec(old(conn.incoming))
    ensures conn.written == old(conn.written)
  {
    HeaderScanConsumes(conn.incoming, []);
    var outcome := ReadHeader(conn);
    match outcome
    case EndOfStream(buffer) =>
      return if buffer == [] then NoRequest else Rejected(UnexpectedEndOfStream);
    case HeadersTooLarge =>
      return Rejected(HeaderTooLarge);
    case HeaderFound(headerBuffer, headerEndIndex) =>
      result := ReadAfterHeader(conn, headerBuffer, headerEndIndex + |HeaderTerminator|);
  }

  /** The part of `ReadRequestAsync` after the header loop. */
  method ReadAfterHeader(conn: Connection, headerBuffer: seq<byte>, headerLength: nat) returns (result: ReadResult)
    requires headerLength <= |headerBuffer|
    modifies conn
    ensures (result, conn.incoming) == RequestAfterHeader(headerBuffer, headerLength, old(conn.incoming))
    ensures conn.written == old(conn.written)
  {
    var headerText := AsciiString(headerBuffer[..headerLength]);
    var bodyStream := headerBuffer[headerLength..];
    var head := ParseRequestHead(headerText);
    if head.Failed? {
      return Rejected(head.error);
    }
    var contentLength := ContentLength(head.value.headers);
    if contentLength.Failed? {
      return Rejected(contentLength.error);
    }
    var body: Option<seq<byte>> := Some(bodyStream);
    if contentLength.value > |bodyStream| {
      body := ReadBody(conn, contentLength.value - |bodyStream|, bodyStream);
    }
    assert (body, conn.incoming) == ReadBodySpec(old(conn.incoming), contentLength.value, bodyStream);
    if body.None? {
      return Rejected(UnexpectedEndOfBody);
    }
    var h := head.value;
    return Received(HttpRequest(h.httpMethod, h.rawTarget, h.path, h.headers, body.value));
  }

  // ---------------------------------------------------------------------
  // What the reader promises

  /** The reader reports no request exactly when the client sends nothing at all. */
  lemma NoRequestIffSilent(chunks: seq<seq<byte>>)
    ensures ReadRequestSpec(chunks).0 == NoRequest <==> Available(chunks) == []
  {
    HeaderScanConsumes(chunks, []);
    var scan := HeaderScan(chunks, []);
    assert [] + Available(chunks) == Available(chunks);
    if scan.0.HeaderFound? {
      var b, end, rest := scan.0.buffer, scan.0.end, scan.1;
      assert ReadRequestSpec(chunks).0 == RequestAfterHeader(b, end + |HeaderTerminator|, rest).0;
      AfterHeaderIsRequestOrError(b, end + |HeaderTerminator|, rest);
      assert b + Available(rest) == Available(chunks) && b != [];
    }
  }

  /** Once a header has been read, the outcome is a request or an error, never silence. */
  lemma AfterHeaderIsRequestOrError(buffer: seq<byte>, headerLength: nat, rest: seq<seq<byte>>)
    requires headerLength <= |buffer|
    ensures RequestAfterHeader(buffer, headerLength, rest).0 != NoRequest
  {
    var head := ParseHead(AsciiString(buffer[..headerLength]));
    if head.Parsed? {
      var length := ContentLength(head.value.headers);
      if length.Parsed? {
        var body := ReadBodySpec(rest, length.value, buffer[headerLength..]);
        assert RequestWithLength(head.value, length, buffer[headerLength..], rest).0 != NoRequest by {
          if body.0.Some? {} else {}
        }
      }
    }
  }

  // ---------------------------------------------------------------------
  // The reader's refusals

  /** Where the header loop stops: at the end of the stream, having read all of it within
      the limit; past the limit, when more than it was sent; or at a terminator that occurs at that place in the whole stream and ends
      within the limit. */
  lemma HeaderScanInStream(chunks: seq<seq<byte>>)
    ensures var outcome := HeaderScan(chunks, []).0;
            (outcome.EndOfStream? ==> outcome.buffer == Available(chunks) && |Available(chunks)| <= MaxHeaderBytes)
            && (outcome.HeadersTooLarge? ==> |Available(chunks)| > MaxHeaderBytes)
            && (outcome.HeaderFound? ==>
                  OccursAt(Available(chunks), HeaderTerminator, outcome.end)
                  && outcome.end + |HeaderTerminator| <= MaxHeaderBytes)
  {
    HeaderScanConsumes(chunks, []);
    var (outcome, rest) := HeaderScan(chunks, []);
    var all := Available(chunks);
    assert [] + all == all;
    match outcome
    case EndOfStream(b) =>
    case HeadersTooLarge =>
    case HeaderFound(b, end) =>
      assert b + Available(rest) == all;
      OccursInLonger(b, Available(rest), HeaderTerminator, end);
  }

  /** A match stays a match, at the same place, when more bytes follow. */
  lemma OccursInLonger(s: seq<byte>, more: seq<byte>, t: seq<byte>, i: int)
    requires OccursAt(s, t, i)
    ensures OccursAt(s + more, t, i)
  {
    assert (s + more)[i..i + |t|] == s[i..i + |t|];
  }

  /** A stream that ends after some bytes, within the limit and before any blank line, is refused with 400. */
  lemma EndOfStreamInHeader(chunks: seq<seq<byte>>)
    requires Available(chunks) != [] && |Available(chunks)| <= MaxHeaderBytes
    requires FindHeaderTerminator(Available(chunks)) == -1
    ensures ReadRequestSpec(chunks).0 == Rejected(UnexpectedEndOfStream)
  {
    HeaderScanInStream(chunks);
    var outcome := HeaderScan(chunks, []).0;
    assert !outcome.HeaderFound? by {
      assert forall i :: 0 <= i <= |Available(chunks)| ==> !OccursAt(Available(chunks), HeaderTerminator, i);
    }
  }

  /** More than 32 KiB without a blank line inside the first 32 KiB is refused with 431. */
  lemma HeaderOverLimit(chunks: seq<seq<byte>>)
    requires |Available(chunks)| > MaxHeaderBytes
    requires forall i :: 0 <= i && i + |HeaderTerminator| <= MaxHeaderBytes ==> !OccursAt(Available(chunks), HeaderTerminator, i)
    ensures ReadRequestSpec(chunks).0 == Rejected(HeaderTooLarge)
  {
    HeaderScanInStream(chunks);
  }

  /** The limit is tested before the terminator is searched for: a blank line that ends just past
      32 KiB arrives in the read that goes over the limit, and the request is still refused with 431. */
  lemma {:induction false} TerminatorPastLimit(chunks: seq<seq<byte>>, filler: seq<byte>, more: seq<byte>)
    requires Available(chunks) == filler + HeaderTerminator + more
    requires |filler| == MaxHeaderBytes - 2 && forall k :: 0 <= k < |filler| ==> filler[k] != 13
    ensures ReadRequestSpec(chunks).0 == Rejected(HeaderTooLarge)
  {
    var all := Available(chunks);
    forall i | 0 <= i && i + |HeaderTerminator| <= MaxHeaderBytes
      ensures !OccursAt(all, HeaderTerminator, i)
    {
      assert all[i..i + 4][0] == filler[i];
    }
    HeaderOverLimit(chunks);
  }

  /** Once the header is in, the request line is refused with 400 exactly when it is blank
      or holds fewer than three tokens. */
  lemma MalformedRequestLineRefused(chunks: seq<seq<byte>>)
    ensures var outcome := HeaderScan(chunks, []).0;
            outcome.HeaderFound? && outcome.end + |HeaderTerminator| <= |outcome.buffer| ==>
              var line := SplitOn(AsciiString(outcome.buffer[..outcome.end + |HeaderTerminator|]), CrLf)[0];
              (IsBlank(line) || |SplitNonEmpty(line, ' ')| < 3 <==> ReadRequestSpec(chunks).0 == Rejected(MalformedRequestLine))
  {
    HeaderScanConsumes(chunks, []);
    var (outcome, rest) := HeaderScan(chunks, []);
    if outcome.HeaderFound? && outcome.end + |HeaderTerminator| <= |outcome.buffer| {
      var headerLength := outcome.end + |HeaderTerminator|;
      var head := ParseHead(AsciiString(outcome.buffer[..headerLength]));
      assert ReadRequestSpec(chunks) == RequestFromHead(head, outcome.buffer[headerLength..], rest);
      if head.Parsed? {
        LengthNeverMalformed(head.value, outcome.buffer[headerLength..], rest);
      }
    }
  }

  /** Once the request line parses, what follows is never refused as a malformed request line. */
  lemma LengthNeverMalformed(head: RequestHead, remainder: seq<byte>, rest: seq<seq<byte>>)
    ensures RequestWithLength(head, ContentLength(head.headers), remainder, rest).0 != Rejected(MalformedRequestLine)
  {
    var length := ContentLength(head.headers);
    if length.Failed? {
      assert length == InvalidContentLength || length == Failed(PayloadTooLarge);
      assert MalformedRequestLine.message[0] == 'M';
    }
  }

  /** A declared body longer than what the stream still holds is refused with 400; otherwise it is read. */
  lemma EndOfStreamInBody(head: RequestHead, n: nat, remainder: seq<byte>, rest: seq<seq<byte>>)
    ensures RequestWithLength(head, Parsed(n), remainder, rest).0 == Rejected(UnexpectedEndOfBody)
            <==> n > |remainder| + |Available(rest)|
  {
    if n > |remainder| {
      BodyScanReadsExactly(rest, n - |remainder|, remainder);
    }
  }

  /** `q` was read off the front of `stream`: a header of at most 32 KiB ending in its first
      blank line, which parses to the request's line and fields, followed by the body. The body
      holds at least the declared length; it holds more only when the extra bytes arrived with
      the header reads, since those are never cut back. */
  ghost predicate ReadFrom(stream: seq<byte>, header: seq<byte>, q: HttpRequest)
  {
    |header| <= MaxHeaderBytes && FindHeaderTerminator(header) == |header| - |HeaderTerminator|
    && ParseHead(AsciiString(header)) == Parsed(RequestHead(q.httpMethod, q.rawTarget, q.path, q.headers))
    && |header| + |q.body| <= |stream| && stream[..|header| + |q.body|] == header + q.body
    && ContentLength(q.headers).Parsed? && ContentLength(q.headers).value <= |q.body|
    && (ContentLength(q.headers).value < |q.body| ==> |header| + |q.body| <= MaxHeaderBytes)
  }

  /** The first terminator in a buffer is also the first in the prefix that ends with it. */
  lemma TerminatorOfPrefix(b: seq<byte>, end: nat)
    requires end == FindHeaderTerminator(b)
    ensures FindHeaderTerminator(b[..end + |HeaderTerminator|]) == end
  {
    var header := b[..end + |HeaderTerminator|];
    assert OccursAt(header, HeaderTerminator, end) by {
      assert header[end..end + 4] == b[end..end + 4];
    }
    forall i | 0 <= i < end
      ensures !OccursAt(header, HeaderTerminator, i)
    {
      if OccursAt(header, HeaderTerminator, i) {
        assert header[i..i + 4] == b[i..i + 4];
        assert OccursAt(b, HeaderTerminator, i);
      }
    }
  }

  /** The body is a prefix of what follows the header, at least as long as declared, and
      longer only when it is exactly the bytes buffered with the header. */
  lemma BodyFollowsHeader(rest: seq<seq<byte>>, n: nat, remainder: seq<byte>)
    ensures var body := ReadBodySpec(rest, n, remainder).0;
            var after := remainder + Available(rest);
            body.Some? ==>
              n <= |body.value| <= |after| && after[..|body.value|] == body.value
              && (|body.value| > n ==> body.value == remainder)
  {
    if n > |remainder| {
      BodyScanReadsExactly(rest, n - |remainder|, remainder);
    }
  }

  lemma ReceivedWithLength(head: RequestHead, length: Parsed<nat>, remainder: seq<byte>, rest: seq<seq<byte>>)
    ensures var r := RequestWithLength(head, length, remainder, rest).0;
            var after := remainder + Available(rest);
            r.Received? ==>
              length.Parsed? && r.request.headers == head.headers
              && RequestHead(r.request.httpMethod, r.request.rawTarget, r.request.path, r.request.headers) == head
              && length.value <= |r.request.body| <= |after| && after[..|r.request.body|] == r.request.body
              && (|r.request.body| > length.value ==> r.request.body == remainder)
  {
    if length.Parsed? {
      BodyFollowsHeader(rest, length.value, remainder);
    }
  }

  /** A prefix of what follows position `k` extends the first `k` elements to a prefix of the whole. */
  lemma PrefixAcross<T>(b: seq<T>, k: nat, tail: seq<T>, body: seq<T>)
    requires k <= |b| && |body| <= |b[k..] + tail| && (b[k..] + tail)[..|body|] == body
    ensures k + |body| <= |b + tail| && (b + tail)[..k + |body|] == b[..k] + body
  {
    assert b + tail == b[..k] + (b[k..] + tail);
  }

  lemma ReceivedAfterHeader(b: seq<byte>, headerLength: nat, rest: seq<seq<byte>>, stream: seq<byte>)
    requires headerLength <= |b| <= MaxHeaderBytes
    requires FindHeaderTerminator(b[..headerLength]) == headerLength - |HeaderTerminator|
    requires stream == b + Available(rest)
    ensures var r := RequestAfterHeader(b, headerLength, rest).0;
            r.Received? ==> ReadFrom(stream, b[..headerLength], r.request)
  {
    var header, remainder := b[..headerLength], b[headerLength..];
    var head := ParseHead(AsciiString(header));
    var r := RequestAfterHeader(b, headerLength, rest).0;
    if r.Received? {
      var q := r.request;
      assert head.Parsed?;
      var length := ContentLength(head.value.headers);
      ReceivedWithLength(head.value, length, remainder, rest);
      assert head == Parsed(RequestHead(q.httpMethod, q.rawTarget, q.path, q.headers));
      assert length.Parsed? && length.value <= |q.body|;
      PrefixAcross(b, headerLength, Available(rest), q.body);
    }
  }

  /** A request that is received was read off the front of the stream. */
  lemma ReceivedFromStream(chunks: seq<seq<byte>>)
    ensures var r := ReadRequestSpec(chunks).0;
            r.Received? ==> exists header :: ReadFrom(Available(chunks), header, r.request)
  {
    HeaderScanConsumes(chunks, []);
    var scan := HeaderScan(chunks, []);
    if scan.0.HeaderFound? {
      var b, end, rest := scan.0.buffer, scan.0.end, scan.1;
      assert ReadRequestSpec(chunks).0 == RequestAfterHeader(b, end + |HeaderTerminator|, rest).0;
      TerminatorOfPrefix(b, end);
      assert [] + Available(chunks) == Available(chunks);
      ReceivedAfterHeader(b, end + |HeaderTerminator|, rest, Available(chunks));
    }
  }

  // ---------------------------------------------------------------------
  // Round trip: what a client writes is what the reader returns

  /** A request-line token: ASCII characters, none of them white space. */
  predicate IsToken(s: string) {
    s != [] && forall i :: 0 <= i < |s| ==> (s[i] as int) < 128 && !IsWhiteSpace(s[i])
  }

  function ContentLengthField(length: nat): string {
    ContentLengthName + ": " + DecimalString(length)
  }

  /** The header a client writes for a request whose body is `length` bytes long: the
      request line, a `Content-Length` field and the blank line. */
  function RequestHeaderText(httpMethod: string, target: string, version: string, length: nat): string {
    Join([Join([httpMethod, target, version], " "), ContentLengthField(length), "", ""], CrLf)
  }

  lemma JoinThree<T>(a: seq<T>, b: seq<T>, c: seq<T>, sep: seq<T>)
    ensures Join([a, b, c], sep) == a + sep + b + sep + c
  {
    var parts := [a, b, c];
    assert parts[1..] == [b, c] && parts[1..][1..] == [c];
    assert Join([b, c], sep) == b + sep + c;
  }

  /** Three tokens joined by single spaces split back into those tokens. */
  lemma RequestLineSplits(httpMethod: string, target: string, version: string)
    requires IsToken(httpMethod) && IsToken(target) && IsToken(version)
    ensures var line := Join([httpMethod, target, version], " ");
            line == httpMethod + " " + target + " " + version
            && SplitNonEmpty(line, ' ') == [httpMethod, target, version] && !IsBlank(line)
  {
    var parts := [httpMethod, target, version];
    var line := Join(parts, " ");
    assert line == httpMethod + " " + target + " " + version by {
      JoinThree(httpMethod, target, version, " ");
    }
    assert !IsBlank(line) by {
      assert line[0] == httpMethod[0];
    }
    assert SplitNonEmpty(line, ' ') == parts by {
      TokenHasNoSpace(httpMethod);
      TokenHasNoSpace(target);
      TokenHasNoSpace(version);
      assert " " == [' '];
      SplitJoin(parts, ' ');
      NonEmptyKeepsAll(parts);
    }
  }

  lemma TokenHasNoSpace(s: string)
    requires IsToken(s)
    ensures ' ' !in s
  {
    assert IsWhiteSpace(' ');
  }

  lemma TrimLeadingSpace(s: string)
    requires s != [] && IsTrimmed(s)
    ensures Trim(" " + s) == s
  {
    assert (" " + s)[1..] == s;
    assert TrimStart(" " + s) == TrimStart(s) == s;
  }

  lemma ContentLengthNameTrimmed()
    ensures ContentLengthName != [] && ':' !in ContentLengthName && IsTrimmed(ContentLengthName)
  {
    assert ContentLengthName[0] == 'C' && ContentLengthName[13] == 'h';
  }

  lemma FoldsTo(s: string, t: string)
    requires |s| == |t| && forall i :: 0 <= i < |s| ==> Upper(s[i]) == t[i]
    ensures Fold(s) == t
  {
  }

  lemma ContentLengthKeyFolds()
    ensures Fold(ContentLengthName) == ContentLengthKey
  {
    var s, t := ContentLengthName, ContentLengthKey;
    forall i | 0 <= i < |s|
      ensures Upper(s[i]) == t[i]
    {
      assert i in {0, 1, 2, 3, 4, 5, 6, 7, 8, 9, 10, 11, 12, 13};
    }
    FoldsTo(s, t);
  }

  /** A line `name: value` with a trimmed name and value parses to the folded name and the value. */
  lemma FieldParses(name: string, value: string)
    requires name != [] && ':' !in name && IsTrimmed(name)
    requires value != [] && IsTrimmed(value)
    ensures HeaderField(name + ": " + value) == Some((Fold(name), value))
  {
    var line := name + ": " + value;
    assert line[|name|] == ':' && line[..|name|] == name;
    assert IndexOfChar(line, ':') == |name|;
    assert line[|name| + 1..] == " " + value;
    TrimmedIsFixpoint(name);
    TrimLeadingSpace(value);
  }

  /** The `Content-Length` line parses to the folded name and the value. */
  lemma ContentLengthFieldParses(value: string)
    requires value != [] && IsTrimmed(value)
    ensures HeaderField(ContentLengthName + ": " + value) == Some((ContentLengthKey, value))
  {
    ContentLengthNameTrimmed();
    ContentLengthKeyFolds();
    FieldParses(ContentLengthName, value);
  }

  /** The header text splits into the request line, the field line and the two empty lines of the terminator. */
  lemma RequestHeaderTextLines(httpMethod: string, target: string, version: string, length: nat)
    requires IsToken(httpMethod) && IsToken(target) && IsToken(version)
    ensures SplitOn(RequestHeaderText(httpMethod, target, version, length), CrLf)
            == [Join([httpMethod, target, version], " "), ContentLengthField(length), "", ""]
  {
    var line := Join([httpMethod, target, version], " ");
    RequestLineSplits(httpMethod, target, version);
    var field := ContentLengthField(length);
    assert '\r' !in field by {
      var digits := DecimalString(length);
      assert '\r' !in ContentLengthName + ": ";
      assert '\r' !in digits;
    }
    assert '\r' !in line;
    var lines := [line, field, "", ""];
    assert forall k :: 0 <= k < |lines| ==> CrLf[0] !in lines[k];
    SplitOnJoin(lines, CrLf);
  }

  lemma ParseHeadOfLines(text: string, line: string, fields: seq<string>, httpMethod: string, target: string, version: string)
    requires SplitOn(text, CrLf) == [line] + fields
    requires !IsBlank(line) && SplitNonEmpty(line, ' ') == [httpMethod, target, version]
    ensures ParseHead(text) == Parsed(RequestHead(httpMethod, target, RequestPath(target), HeaderMap(fields, map[])))
  {
    assert ([line] + fields)[1..] == fields;
  }

  lemma HeaderMapOneField(field: string, name: string, value: string)
    requires HeaderField(field) == Some((name, value))
    ensures HeaderMap([field, "", ""], map[]) == map[name := value]
  {
    var one := map[name := value];
    assert AddField(map[], field) == one;
    assert HeaderField("") == None;
    assert AddField(one, "") == one;
    var lines := [field, "", ""];
    assert lines[1..] == ["", ""] && lines[1..][1..] == [""] && lines[1..][1..][1..] == [];
    assert HeaderMap([""], one) == HeaderMap([], one) == one;
    assert HeaderMap(["", ""], one) == HeaderMap([""], one);
  }

  /** The header text parses to its request line and its one field. */
  lemma ParseRequestHeaderText(httpMethod: string, target: string, version: string, length: nat)
    requires IsToken(httpMethod) && IsToken(target) && IsToken(version)
    ensures ParseHead(RequestHeaderText(httpMethod, target, version, length))
            == Parsed(RequestHead(httpMethod, target, RequestPath(target), map[ContentLengthKey := DecimalString(length)]))
  {
    var line := Join([httpMethod, target, version], " ");
    var field := ContentLengthField(length);
    RequestHeaderTextLines(httpMethod, target, version, length);
    RequestLineSplits(httpMethod, target, version);
    var digits := DecimalString(length);
    assert IsTrimmed(digits);
    ContentLengthFieldParses(digits);
    HeaderMapOneField(field, ContentLengthKey, digits);
    assert [line, field, "", ""] == [line] + [field, "", ""];
    ParseHeadOfLines(RequestHeaderText(httpMethod, target, version, length), line, [field, "", ""], httpMethod, target, version);
  }

  lemma JoinLines(line: string, field: string)
    ensures Join([line, field, "", ""], CrLf) == line + CrLf + field + CrLf + CrLf
  {
    var parts := [line, field, "", ""];
    assert parts[1..] == [field, "", ""] && parts[1..][1..] == ["", ""] && parts[1..][1..][1..] == [""];
    assert Join(["", ""], CrLf) == CrLf;
  }

  /** Only a carriage return encodes to the byte 13. */
  lemma AsciiCarriageReturn(text: string, i: nat)
    requires i < |text|
    ensures AsciiBytes(text)[i] == 13 <==> text[i] == '\r'
  {
  }

  /** In `line CRLF field CRLF CRLF`, with no carriage return in the line or the field
      and a non-empty field, the first `\r\n\r\n` is the final one, whatever follows. */
  lemma TerminatorAfterLines(line: string, field: string, rest: seq<byte>)
    requires '\r' !in line && '\r' !in field && field != []
    ensures var text := line + CrLf + field + CrLf + CrLf;
            FindHeaderTerminator(AsciiBytes(text) + rest) == |text| - |HeaderTerminator|
  {
    var text := line + CrLf + field + CrLf + CrLf;
    var bytes := AsciiBytes(text) + rest;
    var n := |text|;
    assert OccursAt(bytes, HeaderTerminator, n - 4) by {
      assert text[n - 4..] == "\r\n\r\n";
      assert bytes[n - 4..n] == AsciiBytes(text)[n - 4..n];
    }
    forall i | 0 <= i < n - 4
      ensures !OccursAt(bytes, HeaderTerminator, i)
    {
      if OccursAt(bytes, HeaderTerminator, i) {
        assert bytes[i..i + 4][0] == 13 && bytes[i..i + 4][2] == 13;
        AsciiCarriageReturn(text, i);
        AsciiCarriageReturn(text, i + 2);
        CarriageReturnsOfLines(line, field, i);
      }
    }
  }

  /** Before the terminator, the only carriage return is the one ending the first line, and
      two places after it comes the field. */
  lemma CarriageReturnsOfLines(line: string, field: string, i: nat)
    requires '\r' !in line && '\r' !in field && field != []
    requires i < |line| + 2 + |field|
    ensures var text := line + CrLf + field + CrLf + CrLf;
            !(text[i] == '\r' && text[i + 2] == '\r')
  {
    var text := line + CrLf + field + CrLf + CrLf;
    if i < |line| {
      assert text[i] == line[i];
    } else if i == |line| {
      assert text[i + 2] == field[0];
    } else if i == |line| + 1 {
      assert text[i] == '\n';
    } else {
      assert text[i] == field[i - |line| - 2];
    }
  }

  /** The header a client writes ends at its first `\r\n\r\n`, whatever body follows. */
  lemma RequestHeaderTerminator(httpMethod: string, target: string, version: string, length: nat, rest: seq<byte>)
    requires IsToken(httpMethod) && IsToken(target) && IsToken(version)
    ensures var text := RequestHeaderText(httpMethod, target, version, length);
            FindHeaderTerminator(AsciiBytes(text) + rest) == |text| - |HeaderTerminator|
  {
    var line := Join([httpMethod, target, version], " ");
    var field := ContentLengthField(length);
    RequestLineSplits(httpMethod, target, version);
    JoinLines(line, field);
    assert '\r' !in field && field != [] by {
      var digits := DecimalString(length);
      assert '\r' !in ContentLengthName + ": ";
      assert '\r' !in digits;
    }
    TerminatorAfterLines(line, field, rest);
  }

  /** When a buffer read off the front of a stream holds a terminator, its first one is the stream's first. */
  lemma TerminatorInPrefix(b: seq<byte>, stream: seq<byte>)
    requires |b| <= |stream| && stream[..|b|] == b && FindHeaderTerminator(b) != -1
    ensures FindHeaderTerminator(stream) == FindHeaderTerminator(b)
  {
    var e := FindHeaderTerminator(b);
    assert |HeaderTerminator| == 4;
    assert 0 <= e && e + 4 <= |b|;
    SamePrefixSlice(b, stream, e, e + 4);
    assert OccursAt(stream, HeaderTerminator, e);
    var f := FindHeaderTerminator(stream);
    assert 0 <= f <= e;
    SamePrefixSlice(b, stream, f, f + 4);
    assert OccursAt(b, HeaderTerminator, f);
  }

  /** A slice inside a prefix of a stream is the same slice of the stream. */
  lemma SamePrefixSlice<T>(b: seq<T>, stream: seq<T>, i: nat, j: nat)
    requires |b| <= |stream| && stream[..|b|] == b && i <= j <= |b|
    ensures stream[i..j] == b[i..j]
  {
    assert forall k :: i <= k < j ==> stream[k] == stream[..|b|][k];
  }

  lemma AsciiAppend(a: string, b: string)
    requires IsAscii(a) && IsAscii(b)
    ensures IsAscii(a + b)
  {
    assert forall i :: 0 <= i < |a + b| ==> (a + b)[i] == if i < |a| then a[i] else b[i - |a|];
  }

  lemma LinesAscii(line: string, field: string)
    requires IsAscii(line) && IsAscii(field)
    ensures IsAscii(line + CrLf + field + CrLf + CrLf)
  {
    assert IsAscii(CrLf);
    AsciiAppend(line, CrLf);
    AsciiAppend(line + CrLf, field);
    AsciiAppend(line + CrLf + field, CrLf);
    AsciiAppend(line + CrLf + field + CrLf, CrLf);
  }

  lemma TokensAscii(httpMethod: string, target: string, version: string)
    requires IsToken(httpMethod) && IsToken(target) && IsToken(version)
    ensures IsAscii(httpMethod + " " + target + " " + version)
  {
    assert IsAscii(" ");
    AsciiAppend(httpMethod, " ");
    AsciiAppend(httpMethod + " ", target);
    AsciiAppend(httpMethod + " " + target, " ");
    AsciiAppend(httpMethod + " " + target + " ", version);
  }

  lemma RequestHeaderTextIsAscii(httpMethod: string, target: string, version: string, length: nat)
    requires IsToken(httpMethod) && IsToken(target) && IsToken(version)
    ensures IsAscii(RequestHeaderText(httpMethod, target, version, length))
  {
    var line := Join([httpMethod, target, version], " ");
    var field := ContentLengthField(length);
    JoinThree(httpMethod, target, version, " ");
    TokensAscii(httpMethod, target, version);
    assert IsAscii(ContentLengthName + ": ");
    AsciiAppend(ContentLengthName + ": ", DecimalString(length));
    JoinLines(line, field);
    LinesAscii(line, field);
  }

  /** The body loop with exactly the declared bytes left in the stream yields them all. */
  lemma BodyOfExactStream(rest: seq<seq<byte>>, n: nat, remainder: seq<byte>)
    requires |remainder + Available(rest)| == n
    ensures ReadBodySpec(rest, n, remainder).0 == Some(remainder + Available(rest))
  {
    if n > |remainder| {
      BodyScanReadsExactly(rest, n - |remainder|, remainder);
      assert Available(rest)[..n - |remainder|] == Available(rest);
    } else {
      assert Available(rest) == [];
      assert remainder + Available(rest) == remainder;
    }
  }

  /** Two ways of cutting the same sequence, the first cut no later than the second. */
  lemma SplitAt<T>(b: seq<T>, tail: seq<T>, x: seq<T>, y: seq<T>)
    requires |x| <= |b| && b + tail == x + y
    ensures b[..|x|] == x && b[|x|..] + tail == y
  {
    assert (b + tail)[..|x|] == b[..|x|];
    assert b == b[..|x|] + b[|x|..];
  }

  /** Once a header that parses cleanly has been read, a body of exactly the declared length is read back unchanged. */
  lemma RoundTripAfterHeader(b: seq<byte>, rest: seq<seq<byte>>, text: string, head: RequestHead, body: seq<byte>)
    requires |text| <= |b| && b + Available(rest) == AsciiBytes(text) + body
    requires IsAscii(text) && ParseHead(text) == Parsed(head) && ContentLength(head.headers) == Parsed(|body|)
    ensures RequestAfterHeader(b, |text|, rest).0
            == Received(HttpRequest(head.httpMethod, head.rawTarget, head.path, head.headers, body))
  {
    var n := |text|;
    SplitAt(b, Available(rest), AsciiBytes(text), body);
    AsciiRoundTrip(text);
    var remainder := b[n..];
    BodyOfExactStream(rest, |body|, remainder);
    assert RequestAfterHeader(b, n, rest).0 == RequestWithLength(head, Parsed(|body|), remainder, rest).0;
  }

  /** A request written as its request line, a `Content-Length` field and the body, delivered in
      any chunks, is read back as exactly that request, as long as it fits in the header limit. */
  lemma ReadRequestRoundTrip(chunks: seq<seq<byte>>, httpMethod: string, target: string, version: string, body: seq<byte>)
    requires IsToken(httpMethod) && IsToken(target) && IsToken(version)
    requires Available(chunks) == AsciiBytes(RequestHeaderText(httpMethod, target, version, |body|)) + body
    requires |Available(chunks)| <= MaxHeaderBytes
    ensures ReadRequestSpec(chunks).0
            == Received(HttpRequest(httpMethod, target, RequestPath(target), map[ContentLengthKey := DecimalString(|body|)], body))
  {
    var text := RequestHeaderText(httpMethod, target, version, |body|);
    var stream := Available(chunks);
    RequestHeaderTerminator(httpMethod, target, version, |body|, body);
    HeaderScanConsumes(chunks, []);
    assert [] + stream == stream;
    var scan := HeaderScan(chunks, []);
    match scan.0
    case EndOfStream(b) =>
      assert false;
    case HeadersTooLarge =>
      assert false;
    case HeaderFound(b, end) =>
      var rest := scan.1;
      assert stream[..|b|] == b;
      TerminatorInPrefix(b, stream);
      assert end == |text| - |HeaderTerminator|;
      var headers := map[ContentLengthKey := DecimalString(|body|)];
      var head := RequestHead(httpMethod, target, RequestPath(target), headers);
      RequestHeaderTextIsAscii(httpMethod, target, version, |body|);
      ParseRequestHeaderText(httpMethod, target, version, |body|);
      ContentLengthOfDecimal(map[], |body|);
      assert map[][ContentLengthKey := DecimalString(|body|)] == headers;
      RoundTripAfterHeader(b, rest, text, head, body);
      assert ReadRequestSpec(chunks).0 == RequestAfterHeader(b, |text|, rest).0;
  }
}
