/**
 * The response writers (`write_status`, `write_header`, `write_text` and
 * `write_file`, src/main.rs:169-205).
 *
 * `StatusResponse`, `HeaderBlock`, `TextResponse` and `FileResponse` are the
 * bytes each writer produces; the methods append to a `Buffer` as the
 * source appends to its `String` or `Vec<u8>`, and are proved to produce
 * exactly those bytes. `ReadResponse` is the other side of the connection:
 * a client that reads the status line and the header fields and takes as
 * many body bytes as `Content-Length` announces. The framing lemmas prove
 * that a client reads back what the writers meant to send.
 */
module Response {
  import opened Text

  newtype u32 = x: int | 0 <= x < 0x1_0000_0000

  const CONTENT_TYPE_TEXT: string := "text/plain"
  const CONTENT_TYPE_FILE: string := "application/octet-stream"

  /** The status line of every response, without its CRLF. */
  function StatusLine(code: u32, message: string): string
  {
    "HTTP/1.1 " + Decimal(code as nat) + " " + message
  }

  /** `write_status`: a status line, then the empty line that ends the header. */
  function StatusResponse(code: u32, message: string): string
  {
    StatusLine(code, message) + CRLF + CRLF
  }

  /** The status line of a successful response. */
  const OK_LINE: string := "HTTP/1.1 200 OK"

  /** `write_header`: the status line of 200, `Content-Type`, `Content-Length` and the empty line. */
  function HeaderBlock(contentType: string, contentLength: nat): string
  {
    OK_LINE + CRLF
    + FieldLine("Content-Type", contentType)
    + FieldLine("Content-Length", Decimal(contentLength))
    + CRLF
  }

  /** `write_text`: the header of a `text/plain` response, the text and a trailing CRLF. */
  function TextResponse(content: string): string
  {
    HeaderBlock(CONTENT_TYPE_TEXT, |content|) + content + CRLF
  }

  /** `write_file`: the header of an `application/octet-stream` response and the data. */
  function FileResponse(content: string): string
  {
    HeaderBlock(CONTENT_TYPE_FILE, |content|) + content
  }

  /** The growable `String` or `Vec<u8>` a writer appends to. */
  class Buffer {
    var bytes: string

    constructor ()
      ensures bytes == []
    {
      bytes := [];
    }

    /** `write!` or `append`: the new bytes go at the end. */
    method Write(s: string)
      modifies this
      ensures bytes == old(bytes) + s
    {
      bytes := bytes + s;
    }
  }

  /** `write_status`: a fresh buffer holding the status-only response. */
  method WriteStatus(code: u32, message: string) returns (response: string)
    ensures response == StatusResponse(code, message)
  {
    var buffer := new Buffer();
    buffer.Write("HTTP/1.1 " + Decimal(code as nat) + " " + message + "\r\n\r\n");
    response := buffer.bytes;
  }

  /** The exact bytes of a status-only reply with each code the server sends. */
  lemma {:induction false} StatusBytes(message: string)
    ensures StatusResponse(200, message) == "HTTP/1.1 200 " + message + "\r\n\r\n"
    ensures StatusResponse(201, message) == "HTTP/1.1 201 " + message + "\r\n\r\n"
    ensures StatusResponse(404, message) == "HTTP/1.1 404 " + message + "\r\n\r\n"
    ensures StatusResponse(500, message) == "HTTP/1.1 500 " + message + "\r\n\r\n"
    ensures StatusResponse(503, message) == "HTTP/1.1 503 " + message + "\r\n\r\n"
  {
    assert Decimal(200) == "200" && Decimal(201) == "201" && Decimal(404) == "404";
    assert Decimal(500) == "500" && Decimal(503) == "503";
  }

  /** `write_header`: four writes appending the header of a 200 response. */
  method WriteHeader(lines: Buffer, contentType: string, contentLength: nat)
    modifies lines
    ensures lines.bytes == old(lines.bytes) + HeaderBlock(contentType, contentLength)
  {
    ghost var before := lines.bytes;
    var typed := FieldLine("Content-Type", contentType);
    var sized := FieldLine("Content-Length", Decimal(contentLength));
    lines.Write(OK_LINE + CRLF);
    lines.Write(typed);
    assert lines.bytes == before + (OK_LINE + CRLF + typed);
    lines.Write(sized);
    lines.Write(CRLF);
    assert lines.bytes == before + (OK_LINE + CRLF + typed + sized + CRLF);
  }

  /** `write_text`: the header with the byte length of `content`, then `content` and CRLF. */
  method WriteText(lines: Buffer, content: string)
    modifies lines
    ensures lines.bytes == old(lines.bytes) + TextResponse(content)
  {
    WriteHeader(lines, CONTENT_TYPE_TEXT, |content|);
    lines.Write(content + "\r\n");
  }

  /** `write_file`: the header is written into its own string, then both are appended. */
  method WriteFile(buffer: Buffer, content: string)
    modifies buffer
    ensures buffer.bytes == old(buffer.bytes) + FileResponse(content)
  {
    var lines := new Buffer();
    WriteHeader(lines, CONTENT_TYPE_FILE, |content|);
    ghost var header := HeaderBlock(CONTENT_TYPE_FILE, |content|);
    assert lines.bytes == header;
    buffer.Write(lines.bytes);
    buffer.Write(content);
    assert buffer.bytes == old(buffer.bytes) + (header + content);
  }

  /** What a client reads from one response: status line, header fields, body and the bytes after it. */
  datatype Framed = Framed(statusLine: string, fields: map<string, string>, body: string, leftover: string)

  /**
   * A client reading header field lines up to the empty line: each line is
   * split at its first ": " into name and value. The result holds the fields
   * and the bytes after the empty line, or None when the header never ends.
   */
  function ReadFields(s: string, fields: map<string, string>): Option<(map<string, string>, string)>
    decreases |s|
  {
    match IndexOf(s, CRLF)
    case None => None
    case Some(i) =>
      if i == 0 then Some((fields, s[2..]))
      else
        var next := match SplitOnce(s[..i], ": ")
                    case Some((name, value)) => fields[name := value]
                    case None => fields;
        ReadFields(s[i + 2..], next)
  }

  /**
   * A client reading one response: the status line, the header fields, and
   * exactly `Content-Length` bytes of body (none without the field).
   */
  function ReadResponse(r: string): Option<Framed>
  {
    match IndexOf(r, CRLF)
    case None => None
    case Some(i) =>
      match ReadFields(r[i + 2..], map[])
      case None => None
      case Some((fields, rest)) =>
        if "Content-Length" !in fields then Some(Framed(r[..i], fields, [], rest))
        else
          match ParseU64(fields["Content-Length"])
          case None => None
          case Some(n) =>
            if n <= |rest| then Some(Framed(r[..i], fields, rest[..n], rest[n..])) else None
  }

  /** A decimal numeral holds no carriage return. */
  lemma NoCarriageReturnInDecimal(n: nat)
    ensures '\r' !in Decimal(n)
  {
  }

  /** A client reads the line `line` off the front of `line + CRLF + more`. */
  lemma LineFirst(line: string, more: string)
    requires '\r' !in line
    ensures IndexOf(line + CRLF + more, CRLF) == Some(|line|)
    ensures (line + CRLF + more)[..|line|] == line
    ensures (line + CRLF + more)[|line| + 2..] == more
  {
    IndexOfAfter(line, CRLF, more);
  }

  /** One field line `name: value` is read and stored under `name`. */
  lemma {:induction false} ReadFieldLine(name: string, value: string, more: string, fields: map<string, string>)
    requires ':' !in name && '\r' !in name && '\r' !in value
    ensures ReadFields(FieldLine(name, value) + more, fields) == ReadFields(more, fields[name := value])
  {
    var line := name + ": " + value;
    assert FieldLine(name, value) + more == line + CRLF + more;
    assert '\r' !in line by {
      assert forall k :: 0 <= k < |line| ==> line[k] == (if k < |name| then name[k] else if k < |name| + 2 then ": "[k - |name|] else value[k - |name| - 2]);
    }
    LineFirst(line, more);
    SplitOnceAfter(name, ": ", value);
  }

  /** The empty line ends the header; what follows it is left unread. */
  lemma ReadFieldsEnd(more: string, fields: map<string, string>)
    ensures ReadFields(CRLF + more, fields) == Some((fields, more))
  {
  }

  /**
   * A status-only response reads back as its status line, with no header
   * field, no body and nothing after it.
   */
  lemma {:induction false} StatusFraming(code: u32, message: string)
    requires '\r' !in message
    ensures ReadResponse(StatusResponse(code, message)) == Some(Framed(StatusLine(code, message), map[], [], []))
  {
    var line := StatusLine(code, message);
    NoCarriageReturnInDecimal(code as nat);
    assert '\r' !in line by {
      var d := Decimal(code as nat);
      assert forall k :: 0 <= k < |line| ==> line[k] == (if k < 9 then "HTTP/1.1 "[k] else if k < 9 + |d| then d[k - 9] else if k == 9 + |d| then ' ' else message[k - 10 - |d|]);
    }
    LineFirst(line, CRLF);
    assert StatusResponse(code, message) == line + CRLF + CRLF;
    ReadFieldsEnd([], map[]);
    assert CRLF + [] == CRLF;
  }

  /** The header fields and the empty line of `HeaderBlock`, followed by `rest`, read as the two fields. */
  lemma {:induction false} ReadHeaderFields(contentType: string, d: string, rest: string)
    requires '\r' !in contentType && '\r' !in d
    ensures ReadFields(FieldLine("Content-Type", contentType) + (FieldLine("Content-Length", d) + (CRLF + rest)), map[])
         == Some((map["Content-Type" := contentType, "Content-Length" := d], rest))
  {
    var typed := map["Content-Type" := contentType];
    ReadFieldLine("Content-Type", contentType, FieldLine("Content-Length", d) + (CRLF + rest), map[]);
    assert map[]["Content-Type" := contentType] == typed;
    ReadFieldLine("Content-Length", d, CRLF + rest, typed);
    ReadFieldsEnd(rest, typed["Content-Length" := d]);
  }

  /**
   * The header written for a payload, the payload and then any bytes
   * `after`: a client reads the two fields, takes exactly the payload as
   * the body (its `Content-Length` is its length) and leaves `after` unread.
   */
  lemma {:induction false} HeaderFraming(contentType: string, payload: string, after: string)
    requires '\r' !in contentType && |payload| < U64_LIMIT
    ensures ReadResponse(HeaderBlock(contentType, |payload|) + payload + after)
         == Some(Framed(OK_LINE,
                        map["Content-Type" := contentType, "Content-Length" := Decimal(|payload|)],
                        payload, after))
  {
    var d := Decimal(|payload|);
    var rest := payload + after;
    var fields := FieldLine("Content-Type", contentType) + (FieldLine("Content-Length", d) + (CRLF + rest));
    assert HeaderBlock(contentType, |payload|) + payload + after == OK_LINE + CRLF + fields;
    LineFirst(OK_LINE, fields);
    NoCarriageReturnInDecimal(|payload|);
    ReadHeaderFields(contentType, d, rest);
    DecimalParses(|payload|);
    assert rest[..|payload|] == payload && rest[|payload|..] == after;
  }

  /** `HeaderFraming` with nothing after the payload. */
  lemma HeaderFramingAtEnd(contentType: string, payload: string)
    requires '\r' !in contentType && |payload| < U64_LIMIT
    ensures ReadResponse(HeaderBlock(contentType, |payload|) + payload)
         == Some(Framed(OK_LINE,
                        map["Content-Type" := contentType, "Content-Length" := Decimal(|payload|)],
                        payload, []))
  {
    var r := HeaderBlock(contentType, |payload|) + payload;
    HeaderFraming(contentType, payload, []);
    assert ReadResponse(r + []) == ReadResponse(r) by {
      assert r + [] == r;
    }
  }

  /** Neither content type holds a carriage return. */
  lemma ContentTypesOnOneLine()
    ensures '\r' !in CONTENT_TYPE_TEXT && '\r' !in CONTENT_TYPE_FILE
  {
  }

  /**
   * A text response announces the byte length of the text and carries the
   * text; the trailing CRLF is outside the announced length and is left
   * over after the body.
   */
  lemma TextFraming(content: string)
    requires |content| < U64_LIMIT
    ensures ReadResponse(TextResponse(content))
         == Some(Framed(OK_LINE,
                        map["Content-Type" := CONTENT_TYPE_TEXT, "Content-Length" := Decimal(|content|)],
                        content, CRLF))
  {
    ContentTypesOnOneLine();
    HeaderFraming(CONTENT_TYPE_TEXT, content, CRLF);
  }

  /** A file response announces the length of the data and carries exactly the data. */
  lemma FileFraming(content: string)
    requires |content| < U64_LIMIT
    ensures ReadResponse(FileResponse(content))
         == Some(Framed(OK_LINE,
                        map["Content-Type" := CONTENT_TYPE_FILE, "Content-Length" := Decimal(|content|)],
                        content, []))
  {
    ContentTypesOnOneLine();
    HeaderFramingAtEnd(CONTENT_TYPE_FILE, content);
  }
}
