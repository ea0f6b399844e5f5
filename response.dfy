/** `HttpResponseWriter`: frames a response as a status line and header
    fields in a fixed order, each ended by the platform line terminator, then
    a blank line, then the body unless the request was HEAD. The date and the
    terminator (`Environment.NewLine`) are parameters. */
module Response {
  import opened Wrappers
  import opened Encoding
  import opened Text
  import opened Connections

  const ServerName := "uWebHost/0.1"
  const HtmlType := "text/html; charset=utf-8"
  const CrLf := "\r\n"

  predicate HasLocation(location: Option<string>) {
    location.Some? && location.value != []
  }

  /** The header lines in the order they are written, without the blank line that ends them. */
  function HeaderFields(status: string, date: string, contentType: string, contentLength: nat, location: Option<string>): (lines: seq<string>)
    ensures |lines| == if HasLocation(location) then 7 else 6
  {
    ["HTTP/1.1 " + status,
     "Date: " + date,
     "Server: " + ServerName,
     "Content-Length: " + DecimalString(contentLength),
     "Content-Type: " + contentType,
     "Connection: close"]
    + (if HasLocation(location) then ["Location: " + location.value] else [])
  }

  lemma HeaderFieldsAre(status: string, date: string, contentType: string, contentLength: nat, location: Option<string>)
    ensures HeaderFields(status, date, contentType, contentLength, location) + [""]
         == [] + ["HTTP/1.1 " + status] + ["Date: " + date] + ["Server: " + ServerName]
            + ["Content-Length: " + DecimalString(contentLength)] + ["Content-Type: " + contentType]
            + ["Connection: close"] + (if HasLocation(location) then ["Location: " + location.value] else []) + [""]
  {
  }

  /** Every line followed by the terminator. */
  function Lines(lines: seq<string>, newline: string): string
  {
    if lines == [] then [] else lines[0] + newline + Lines(lines[1..], newline)
  }

  /** The text of the header: its fields, then the blank line. */
  function HeaderText(status: string, date: string, contentType: string, contentLength: nat, location: Option<string>, newline: string): string
  {
    Lines(HeaderFields(status, date, contentType, contentLength, location) + [""], newline)
  }

  /** `BuildHeader`: appends the lines one by one (each `Append` of a field name followed
      by the `AppendLine` of its value adds one line) and encodes the text as ASCII. */
  method BuildHeader(status: string, date: string, contentType: string, contentLength: nat, location: Option<string>, newline: string)
    returns (header: seq<byte>)
    ensures header == AsciiBytes(HeaderText(status, date, contentType, contentLength, location, newline))
  {
    var builder := "";
    ghost var lines: seq<string> := [];
    builder, lines := AppendLine(builder, lines, "HTTP/1.1 " + status, newline);
    builder, lines := AppendLine(builder, lines, "Date: " + date, newline);
    builder, lines := AppendLine(builder, lines, "Server: " + ServerName, newline);
    builder, lines := AppendLine(builder, lines, "Content-Length: " + DecimalString(contentLength), newline);
    builder, lines := AppendLine(builder, lines, "Content-Type: " + contentType, newline);
    builder, lines := AppendLine(builder, lines, "Connection: close", newline);
    if HasLocation(location) {
      builder, lines := AppendLine(builder, lines, "Location: " + location.value, newline);
    }
    builder, lines := AppendLine(builder, lines, "", newline);
    assert lines == HeaderFields(status, date, contentType, contentLength, location) + [""] by {
      HeaderFieldsAre(status, date, contentType, contentLength, location);
    }
    assert builder == HeaderText(status, date, contentType, contentLength, location, newline);
    header := AsciiBytes(builder);
  }

  /** `Append` of a line and its terminator, with the lines written so far. */
  method AppendLine(builder: string, ghost lines: seq<string>, line: string, newline: string)
    returns (built: string, ghost written: seq<string>)
    requires builder == Lines(lines, newline)
    ensures built == builder + line + newline && written == lines + [line]
    ensures built == Lines(written, newline)
  {
    built := builder + line + newline;
    written := lines + [line];
    LinesAppend(lines, [line], newline);
    assert Lines([line], newline) == line + newline;
  }

  /** Writing one more line of `lines`. */
  lemma NextLine(lines: seq<string>, k: nat, newline: string)
    requires k < |lines|
    ensures Lines(lines[..k + 1], newline) == Lines(lines[..k], newline) + lines[k] + newline
  {
    assert lines[..k + 1] == lines[..k] + [lines[k]];
    LinesAppend(lines[..k], [lines[k]], newline);
    assert Lines([lines[k]], newline) == lines[k] + newline;
  }

  lemma {:induction false} LinesAppend(a: seq<string>, b: seq<string>, newline: string)
    ensures Lines(a + b, newline) == Lines(a, newline) + Lines(b, newline)
  {
    if a != [] {
      assert (a + b)[1..] == a[1..] + b;
      LinesAppend(a[1..], b, newline);
    } else {
      assert a + b == b;
    }
  }

  /** The lines are the pieces of their text joined by the terminator, with an empty last piece. */
  lemma {:induction false} LinesAsJoin(lines: seq<string>, newline: string)
    ensures Lines(lines, newline) == Join(lines + [""], newline)
  {
    if lines != [] {
      LinesAsJoin(lines[1..], newline);
      assert (lines + [""])[1..] == lines[1..] + [""];
    }
  }

  /** No line holds a carriage return. */
  predicate NoCarriageReturns(lines: seq<string>) {
    forall k :: 0 <= k < |lines| ==> '\r' !in lines[k]
  }

  lemma FieldsHaveNoCarriageReturn(status: string, date: string, contentType: string, contentLength: nat, location: Option<string>)
    requires '\r' !in status && '\r' !in date && '\r' !in contentType
    requires location.Some? ==> '\r' !in location.value
    ensures NoCarriageReturns(HeaderFields(status, date, contentType, contentLength, location))
  {
    var f := HeaderFields(status, date, contentType, contentLength, location);
    forall k | 0 <= k < |f| ensures '\r' !in f[k] {
      if k == 3 {
        assert f[k] == "Content-Length: " + DecimalString(contentLength);
      } else if k == 6 {
        assert f[k] == "Location: " + location.value;
      }
    }
  }

  /** Read back with CRLF as the terminator, a header splits into exactly its fields,
      followed by the two empty pieces of the closing blank line. */
  lemma HeaderSplitsIntoFields(status: string, date: string, contentType: string, contentLength: nat, location: Option<string>)
    requires '\r' !in status && '\r' !in date && '\r' !in contentType
    requires location.Some? ==> '\r' !in location.value
    ensures SplitOn(HeaderText(status, date, contentType, contentLength, location, CrLf), CrLf)
         == HeaderFields(status, date, contentType, contentLength, location) + ["", ""]
  {
    var f := HeaderFields(status, date, contentType, contentLength, location);
    FieldsHaveNoCarriageReturn(status, date, contentType, contentLength, location);
    LinesAsJoin(f + [""], CrLf);
    var parts := f + ["", ""];
    assert f + [""] + [""] == parts;
    assert NoCarriageReturns(parts);
    SplitOnJoin(parts, CrLf);
  }

  /** With a bare line feed as terminator (`Environment.NewLine` on Unix), the header
      holds no CRLF at all, so its lines are not ended as section 2.1 of RFC 9112 requires. */
  lemma LineFeedHeaderHasNoCrLf(status: string, date: string, contentType: string, contentLength: nat, location: Option<string>)
    requires '\r' !in status && '\r' !in date && '\r' !in contentType
    requires location.Some? ==> '\r' !in location.value
    ensures !Contains(HeaderText(status, date, contentType, contentLength, location, "\n"), CrLf)
  {
    var f := HeaderFields(status, date, contentType, contentLength, location);
    FieldsHaveNoCarriageReturn(status, date, contentType, contentLength, location);
    assert NoCarriageReturns(f + [""]);
    NoCarriageReturn(f + [""], "\n");
    NoOccurrence(HeaderText(status, date, contentType, contentLength, location, "\n"), CrLf);
  }

  lemma {:induction false} NoCarriageReturn(lines: seq<string>, newline: string)
    requires '\r' !in newline
    requires NoCarriageReturns(lines)
    ensures '\r' !in Lines(lines, newline)
  {
    if lines != [] {
      NoCarriageReturn(lines[1..], newline);
    }
  }

  /** Whatever the fields, the header ends with the terminator twice: the last field's and the blank line's. */
  lemma HeaderEndsWithBlankLine(status: string, date: string, contentType: string, contentLength: nat, location: Option<string>, newline: string)
    ensures var h := HeaderText(status, date, contentType, contentLength, location, newline);
            |h| >= 2 * |newline| && h[|h| - 2 * |newline|..] == newline + newline
  {
    LinesEndWithBlankLine(HeaderFields(status, date, contentType, contentLength, location), newline);
  }

  /** Lines followed by an empty one end with the terminator twice. */
  lemma LinesEndWithBlankLine(f: seq<string>, newline: string)
    requires f != []
    ensures var h := Lines(f + [""], newline);
            |h| >= 2 * |newline| && h[|h| - 2 * |newline|..] == newline + newline
  {
    var k := |f| - 1;
    NextLine(f, k, newline);
    assert f[..k + 1] == f;
    var x := Lines(f[..k], newline) + f[k];
    assert Lines(f, newline) == x + newline;
    LinesAppend(f, [""], newline);
    assert Lines([""], newline) == newline;
    assert Lines(f + [""], newline) == x + (newline + newline);
    SuffixOfAppend(x, newline + newline);
  }

  lemma SuffixOfAppend<T>(x: seq<T>, y: seq<T>)
    ensures (x + y)[|x + y| - |y|..] == y
  {
  }

  // ---------------------------------------------------------------------
  // Writing

  /** `WriteAsync`: the header with the body's length, then the body unless the request is HEAD. */
  method WriteResponse(conn: Connection, status: string, contentType: string, body: seq<byte>, head: bool,
                       location: Option<string>, date: string, newline: string)
    modifies conn
    ensures conn.written == old(conn.written) + AsciiBytes(HeaderText(status, date, contentType, |body|, location, newline))
                            + (if head then [] else body)
    ensures conn.incoming == old(conn.incoming)
  {
    var header := BuildHeader(status, date, contentType, |body|, location, newline);
    conn.Write(header);
    if !head && |body| > 0 {
      conn.Write(body);
    }
  }

  /** `WriteHtmlAsync`: an HTML page encoded as UTF-8. */
  method WriteHtml(conn: Connection, status: string, body: string, head: bool, date: string, newline: string)
    modifies conn
    ensures conn.written == old(conn.written) + AsciiBytes(HeaderText(status, date, HtmlType, |Utf8(body)|, None, newline))
                            + (if head then [] else Utf8(body))
    ensures conn.incoming == old(conn.incoming)
  {
    WriteResponse(conn, status, HtmlType, Utf8(body), head, None, date, newline);
  }

  /** `WriteRedirectAsync`: an HTML page with a `Location` field. */
  method WriteRedirect(conn: Connection, status: string, location: string, body: string, head: bool, date: string, newline: string)
    modifies conn
    ensures conn.written == old(conn.written) + AsciiBytes(HeaderText(status, date, HtmlType, |Utf8(body)|, Some(location), newline))
                            + (if head then [] else Utf8(body))
    ensures conn.incoming == old(conn.incoming)
  {
    WriteResponse(conn, status, HtmlType, Utf8(body), head, Some(location), date, newline);
  }

  /** `WriteStatusAsync`: a status page, written like any HTML page. */
  method WriteStatus(conn: Connection, status: string, body: string, head: bool, date: string, newline: string)
    modifies conn
    ensures conn.written == old(conn.written) + AsciiBytes(HeaderText(status, date, HtmlType, |Utf8(body)|, None, newline))
                            + (if head then [] else Utf8(body))
    ensures conn.incoming == old(conn.incoming)
  {
    WriteHtml(conn, status, body, head, date, newline);
  }

  /** `WriteBytesAsync`: a body of the caller's type. */
  method WriteBytes(conn: Connection, status: string, contentType: string, body: seq<byte>, head: bool, date: string, newline: string)
    modifies conn
    ensures conn.written == old(conn.written) + AsciiBytes(HeaderText(status, date, contentType, |body|, None, newline))
                            + (if head then [] else body)
    ensures conn.incoming == old(conn.incoming)
  {
    WriteResponse(conn, status, contentType, body, head, None, date, newline);
  }

  /** `WriteFileAsync`: `200 OK` with the file's length, then its bytes unless the request is HEAD. */
  method WriteFile(conn: Connection, content: seq<byte>, contentType: string, head: bool, date: string, newline: string)
    modifies conn
    ensures conn.written == old(conn.written) + AsciiBytes(HeaderText("200 OK", date, contentType, |content|, None, newline))
                            + (if head then [] else content)
    ensures conn.incoming == old(conn.incoming)
  {
    var header := BuildHeader("200 OK", date, contentType, |content|, None, newline);
    conn.Write(header);
    if head {
      return;
    }
    conn.Write(content);
  }
}
