/**
 * The request parser (`parse_request`, src/main.rs:42-72).
 *
 * The parser reads the request line, then reads header lines into one
 * reused line buffer until it meets a line that is exactly CRLF. When a
 * `Content-Length` header is present at that point, the request gets a
 * reader that yields at most that many further bytes of the connection.
 *
 * `Parse` is the specification: a recursive definition over the input.
 * `ParseRequest` is the source's loop over a `LineReader`, proved to
 * compute `Parse`. The lemmas state what the parser does with request
 * lines, header lines and the body.
 */
module Request {
  import opened Text

  const CONTENT_LENGTH: string := "Content-Length"

  /**
   * A parsed request. The source keeps a boxed reader for the body; the
   * model keeps the bytes that reader yields when it is read to the end.
   */
  datatype HttpRequest = HttpRequest(
    httpMethod: string,
    uri: string,
    headers: map<string, string>,
    body: Option<string>)

  /**
   * The ways `parse_request` fails to return: a request line with fewer
   * than two tokens and an unparsable `Content-Length` panic; input that
   * ends before the blank line makes the header loop spin for ever.
   */
  datatype ParseError = MalformedRequestLine | InvalidContentLength | HeadersUnterminated

  datatype Result<T> = Ok(value: T) | Err(error: ParseError)

  /**
   * One `read_line` on the remaining input `s`: the text up to and
   * including the first line feed, or all of `s` when it has none.
   */
  function NextLine(s: string): (r: (string, string))
    ensures r.0 + r.1 == s
    ensures s != [] ==> r.0 != []
    ensures r.1 != [] ==> r.0[|r.0| - 1] == '\n'
    ensures forall k :: 0 <= k < |r.0| - 1 ==> r.0[k] != '\n'
  {
    match IndexOf(s, "\n")
    case None =>
      ContainsChar(s, '\n');
      (s, [])
    case Some(i) =>
      assert s[i..i + 1] == "\n";
      forall k | 0 <= k < i
        ensures s[k] != '\n'
      {
        assert !OccursAt(s, "\n", k);
        assert s[k..k + 1] == [s[k]];
      }
      (s[..i + 1], s[i + 1..])
  }

  /** What a reader made by `take(limit)` yields from the remaining input. */
  function Bounded(rest: string, limit: nat): (body: string)
    ensures StartsWith(rest, body)
    ensures |body| == (if limit <= |rest| then limit else |rest|)
  {
    if limit <= |rest| then rest[..limit] else rest
  }

  /** Where the header loop ends: at a blank line, or never. */
  datatype Scan = Blank(headers: map<string, string>, rest: string) | Unterminated

  /**
   * The header loop of `parse_request` from the remaining input `rest`,
   * the current content of the reused `line` buffer and the headers so far.
   * Each step appends one `read_line` to `line`. A line that contains ": "
   * but whose trimmed text does not is kept (the `continue` skips
   * `line.clear()`), so the next line is appended to it. When the input is
   * exhausted `read_line` returns Ok(0) without changing `line`, and the
   * loop repeats the same step for ever.
   */
  function ScanHeaders(rest: string, line: string, headers: map<string, string>): (r: Scan)
    ensures r.Blank? ==> |r.rest| < |rest| && EndsWith(rest, r.rest)
    decreases |rest|
  {
    if rest == [] then Unterminated
    else
      var (chunk, after) := NextLine(rest);
      var current := line + chunk;
      if current == CRLF then
        EndsWithAppend(chunk, after, after);
        Blank(headers, after)
      else
        var r :=
          if Contains(current, ": ") then
            match SplitOnce(Trim(current), ": ")
            case Some((name, value)) => ScanHeaders(after, [], headers[name := value])
            case None => ScanHeaders(after, current, headers)
          else ScanHeaders(after, [], headers);
        if r.Blank? then
          EndsWithAppend(chunk, after, r.rest);
          r
        else r
  }

  /** What `parse_request` does once the request line has given `verb` and `uri`. */
  function Finish(verb: string, uri: string, scan: Scan): (r: Result<HttpRequest>)
    ensures r == Err(HeadersUnterminated) <==> scan.Unterminated?
    ensures r == Err(InvalidContentLength) <==>
              scan.Blank? && CONTENT_LENGTH in scan.headers && ParseU64(scan.headers[CONTENT_LENGTH]).None?
    ensures r != Err(MalformedRequestLine)
    ensures r.Ok? ==> scan.Blank? && r.value.httpMethod == verb && r.value.uri == uri && r.value.headers == scan.headers
    ensures r.Ok? ==> (r.value.body.Some? <==> CONTENT_LENGTH in scan.headers)
    ensures r.Ok? && r.value.body.Some? ==>
              scan.Blank? && CONTENT_LENGTH in scan.headers &&
              var n := ParseU64(scan.headers[CONTENT_LENGTH]);
              n.Some? && r.value.body.value == Bounded(scan.rest, n.value)
  {
    match scan
    case Unterminated => Err(HeadersUnterminated)
    case Blank(headers, after) =>
      if CONTENT_LENGTH in headers then
        match ParseU64(headers[CONTENT_LENGTH])
        case None => Err(InvalidContentLength)
        case Some(n) => Ok(HttpRequest(verb, uri, headers, Some(Bounded(after, n))))
      else Ok(HttpRequest(verb, uri, headers, None))
  }

  /** The whole of `parse_request`, as a function of the bytes of the connection. */
  function Parse(input: string): (r: Result<HttpRequest>)
    ensures r == Err(MalformedRequestLine) <==> !Contains(NextLine(input).0, " ")
    ensures r.Ok? ==> !Contains(r.value.httpMethod, " ") && !Contains(r.value.uri, " ")
  {
    var (first, rest) := NextLine(input);
    var parts := Split(first, " ");
    if |parts| < 2 then Err(MalformedRequestLine)
    else Finish(parts[0], parts[1], ScanHeaders(rest, [], map[]))
  }

  /** The `BufReader` over the connection: the input and how much of it has been consumed. */
  class LineReader {
    const input: string
    var pos: nat

    ghost predicate Valid()
      reads this
    {
      pos <= |input|
    }

    /** The bytes not yet consumed. */
    function Remaining(): string
      reads this
      requires Valid()
    {
      input[pos..]
    }

    constructor (input: string)
      ensures Valid() && this.input == input && Remaining() == input
    {
      this.input := input;
      pos := 0;
    }

    /** `read_line`: consume and return the next line (empty at the end of the input). */
    method ReadLine() returns (chunk: string)
      requires Valid()
      modifies this
      ensures Valid()
      ensures (chunk, Remaining()) == NextLine(old(Remaining()))
    {
      var next := NextLine(input[pos..]);
      chunk := next.0;
      assert input[pos..] == chunk + next.1;
      assert input[pos + |chunk|..] == next.1;
      pos := pos + |chunk|;
    }
  }

  /** `parse_request`: the source's loop over a reused line buffer. */
  method ParseRequest(input: string) returns (r: Result<HttpRequest>)
    ensures r == Parse(input)
  {
    var reader := new LineReader(input);
    var line := reader.ReadLine();
    var parts := Split(line, " ");
    if |parts| < 2 {
      return Err(MalformedRequestLine);
    }
    var verb, uri := parts[0], parts[1];
    var headers: map<string, string> := map[];
    ghost var start := reader.Remaining();
    line := [];
    while reader.Remaining() != []
      invariant reader.Valid()
      invariant ScanHeaders(reader.Remaining(), line, headers) == ScanHeaders(start, [], map[])
      decreases |reader.Remaining()|
    {
      var chunk := reader.ReadLine();
      line := line + chunk;
      if line == CRLF {
        var body: Option<string> := None;
        if CONTENT_LENGTH in headers {
          var length := ParseU64(headers[CONTENT_LENGTH]);
          if length.None? {
            return Err(InvalidContentLength);
          }
          body := Some(Bounded(reader.Remaining(), length.value));
        }
        return Ok(HttpRequest(verb, uri, headers, body));
      }
      if Contains(line, ": ") {
        var split := SplitOnce(Trim(line), ": ");
        if split.None? {
          continue;
        }
        headers := headers[split.value.0 := split.value.1];
      }
      line := [];
    }
    // read_line now returns Ok(0) without changing `line`: the source loops for ever
    return Err(HeadersUnterminated);
  }
}
