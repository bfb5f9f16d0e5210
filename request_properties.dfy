/**
 * What `parse_request` (src/main.rs:42-72) does with the request line, the
 * header lines and the body, stated about `Request.Parse` and
 * `Request.ScanHeaders`.
 */
module RequestProperties {
  import opened Text
  import opened Request

  /** A line without an inner line feed is read whole by one `read_line`. */
  lemma {:induction false} LineRead(text: string, rest: string)
    requires '\n' !in text
    ensures NextLine(text + "\n" + rest) == (text + "\n", rest)
  {
    IndexOfAfter(text, "\n", rest);
    var s := text + "\n" + rest;
    assert s[..|text| + 1] == text + "\n";
    assert s[|text| + 1..] == rest;
  }

  /**
   * For a request line "M P V" + LF, the method is exactly M and the target
   * exactly P (tokens 0 and 1 of the split on a single space), and the
   * rest of the input goes to the header loop.
   */
  lemma {:induction false} RequestLineTokens(verb: string, target: string, version: string, rest: string)
    requires ' ' !in verb && ' ' !in target
    requires '\n' !in verb && '\n' !in target && '\n' !in version
    ensures Parse(verb + " " + target + " " + version + "\n" + rest)
         == Finish(verb, target, ScanHeaders(rest, [], map[]))
    ensures var r := Parse(verb + " " + target + " " + version + "\n" + rest);
            r != Err(MalformedRequestLine) &&
            (r.Ok? ==> r.value.httpMethod == verb && r.value.uri == target)
  {
    var line := verb + " " + target + " " + version;
    assert '\n' !in line by {
      assert line == verb + (" " + target + " " + version);
    }
    LineRead(line, rest);
    RequestLineSplit(verb, target, version);
  }

  /** The split of a request line on " ": its first two pieces are the method and the target. */
  lemma {:induction false} RequestLineSplit(verb: string, target: string, version: string)
    requires ' ' !in verb && ' ' !in target
    ensures var parts := Split(verb + " " + target + " " + version + "\n", " ");
            |parts| >= 2 && parts[0] == verb && parts[1] == target
  {
    var tail := version + "\n";
    SplitAfter(target, " ", tail);
    assert verb + " " + target + " " + version + "\n" == verb + " " + (target + " " + tail);
    SplitAfter(verb, " ", target + " " + tail);
  }

  /**
   * Only a request line without any space is refused: with one space or
   * more there are at least two tokens, whatever they are.
   */
  lemma {:induction false} MalformedRequestLineIff(input: string)
    ensures Parse(input) == Err(MalformedRequestLine) <==> ' ' !in NextLine(input).0
  {
    ContainsChar(NextLine(input).0, ' ');
  }

  /**
   * A header line whose name and value survive `trim` and whose name has no
   * colon: the line is split at ": " and the map gets name -> value.
   */
  predicate WellFormedField(name: string, value: string)
  {
    ':' !in name && '\n' !in name && '\n' !in value &&
    (name == [] || !IsWhitespace(name[0])) &&
    value != [] && !IsWhitespace(value[|value| - 1])
  }

  /** A well-formed header line is read whole by one `read_line`. */
  lemma {:induction false} FieldLineRead(name: string, value: string, more: string)
    requires WellFormedField(name, value)
    ensures NextLine(FieldLine(name, value) + more) == (FieldLine(name, value), more)
  {
    var stored := name + ": " + value;
    assert FieldLine(name, value) == (stored + "\r") + "\n";
    assert '\n' !in stored + "\r" by {
      assert stored + "\r" == name + (": " + value + "\r");
    }
    LineRead(stored + "\r", more);
  }

  /** A well-formed header line, trimmed, splits at its first ": " into its name and value. */
  lemma {:induction false} FieldLineSplits(name: string, value: string)
    requires WellFormedField(name, value)
    ensures var line := FieldLine(name, value);
            line != CRLF && Contains(line, ": ") && SplitOnce(Trim(line), ": ") == Some((name, value))
  {
    var stored := name + ": " + value;
    var line := FieldLine(name, value);
    assert |line| > 2;
    IndexOfAfter(name, ": ", value + CRLF);
    assert line == name + ": " + (value + CRLF);
    assert line == stored + CRLF;
    assert stored == name + (": " + value);
    TrimTrailing(stored, CRLF);
    SplitOnceAfter(name, ": ", value);
  }

  /** A well-formed header line is stored as name -> value, without its CRLF; an earlier value for the name is replaced. */
  lemma {:induction false} HeaderLineStored(name: string, value: string, more: string, headers: map<string, string>)
    requires WellFormedField(name, value)
    ensures ScanHeaders(FieldLine(name, value) + more, [], headers)
         == ScanHeaders(more, [], headers[name := value])
  {
    var line := FieldLine(name, value);
    FieldLineRead(name, value, more);
    FieldLineSplits(name, value);
    assert [] + line == line;
    StepStore(line + more, [], headers, name, value);
  }

  /** A line without ": " adds nothing to the map and is discarded. */
  lemma {:induction false} OtherLineIgnored(text: string, more: string, headers: map<string, string>)
    requires '\n' !in text && text != "\r" && !Contains(text + "\n", ": ")
    ensures ScanHeaders(text + "\n" + more, [], headers) == ScanHeaders(more, [], headers)
  {
    LineRead(text, more);
    assert [] + (text + "\n") == text + "\n";
    assert text + "\n" != CRLF;
  }

  /** The blank line is read whole by one `read_line`. */
  lemma {:induction false} BlankLineRead(more: string)
    ensures NextLine(CRLF + more) == (CRLF, more)
  {
    LineRead("\r", more);
    assert "\r" + "\n" == CRLF;
    assert CRLF + more == "\r" + "\n" + more;
  }

  /** The blank line ends the header loop, leaving the rest of the input unread. */
  lemma {:induction false} BlankLineEnds(more: string, headers: map<string, string>)
    ensures ScanHeaders(CRLF + more, [], headers) == Blank(headers, more)
  {
    BlankLineRead(more);
    assert [] + CRLF == CRLF;
  }

  /** One turn of the header loop on a line that is split and stored. */
  lemma {:induction false} StepStore(rest: string, line: string, headers: map<string, string>, name: string, value: string)
    requires rest != []
    requires line + NextLine(rest).0 != CRLF && Contains(line + NextLine(rest).0, ": ")
    requires SplitOnce(Trim(line + NextLine(rest).0), ": ") == Some((name, value))
    ensures ScanHeaders(rest, line, headers) == ScanHeaders(NextLine(rest).1, [], headers[name := value])
  {
  }

  /** One turn of the header loop on a line that holds ": " but cannot be split after trimming: it stays in the buffer. */
  lemma {:induction false} StepKeep(rest: string, line: string, headers: map<string, string>)
    requires rest != []
    requires line + NextLine(rest).0 != CRLF && Contains(line + NextLine(rest).0, ": ")
    requires SplitOnce(Trim(line + NextLine(rest).0), ": ") == None
    ensures ScanHeaders(rest, line, headers) == ScanHeaders(NextLine(rest).1, line + NextLine(rest).0, headers)
  {
  }

  /** "name:" (an empty value after trimming) holds no ": ". */
  lemma {:induction false} NoSeparatorAfterName(name: string)
    requires ':' !in name
    ensures !Contains(name + ":", ": ")
  {
    var s := name + ":";
    forall j | 0 <= j
      ensures !OccursAt(s, ": ", j)
    {
      if j < |name| && j + 2 <= |s| {
        assert s[j..j + 2][0] == name[j];
      }
    }
  }

  /** "name: " + CRLF is read whole by one `read_line`. */
  lemma {:induction false} EmptyValueLineRead(name: string, rest: string)
    requires '\n' !in name
    ensures NextLine(name + ": " + CRLF + rest) == (name + ": " + CRLF, rest)
  {
    var first := name + ": " + CRLF;
    assert '\n' !in name + ": \r" by {
      assert forall k :: 0 <= k < |name| ==> (name + ": \r")[k] == name[k];
    }
    LineRead(name + ": \r", rest);
    assert first == name + ": \r" + "\n";
    assert first + rest == name + ": \r" + "\n" + rest;
  }

  /**
   * "name: " + CRLF holds ": " but trims to "name:" (less any leading white
   * space), which `split_once(": ")` cannot split.
   */
  lemma {:induction false} EmptyValueLineUnsplit(name: string)
    requires ':' !in name
    ensures var first := name + ": " + CRLF;
            first != CRLF && Contains(first, ": ") && SplitOnce(Trim(first), ": ") == None
  {
    var first := name + ": " + CRLF;
    assert |first| > 2;
    IndexOfAfter(name, ": ", CRLF);
    assert first == name + ":" + " \r\n";
    TrimAround(name, ":", " \r\n");
    TrimStartKeepsOut(name, ':');
    NoSeparatorAfterName(TrimStart(name));
  }

  /**
   * A header with an empty value, "name: " + CRLF, trims to "name:", which
   * `split_once(": ")` cannot split; the `continue` then skips
   * `line.clear()`, so the line stays in the buffer.
   */
  lemma {:induction false} EmptyValueKept(name: string, rest: string, headers: map<string, string>)
    requires ':' !in name && '\n' !in name
    ensures ScanHeaders(name + ": " + CRLF + rest, [], headers)
         == ScanHeaders(rest, name + ": " + CRLF, headers)
  {
    var first := name + ": " + CRLF;
    EmptyValueLineRead(name, rest);
    EmptyValueLineUnsplit(name);
    assert [] + first == first;
    StepKeep(first + rest, [], headers);
  }

  /**
   * The kept "name: " + CRLF buffer with a further line appended splits
   * into the name, less any leading white space, and CRLF + that line.
   */
  lemma {:induction false} JoinedLineSplits(name: string, next: string)
    requires ':' !in name
    requires next != [] && !IsWhitespace(next[|next| - 1])
    ensures var current := name + ": " + CRLF + (next + CRLF);
            current != CRLF && Contains(current, ": ") &&
            SplitOnce(Trim(current), ": ") == Some((TrimStart(name), CRLF + next))
  {
    var current := name + ": " + CRLF + (next + CRLF);
    var piece := ": " + (CRLF + next);
    assert |current| > 2;
    assert current == name + ": " + (CRLF + next + CRLF);
    IndexOfAfter(name, ": ", CRLF + next + CRLF);
    assert current == name + piece + CRLF;
    TrimAround(name, piece, CRLF);
    TrimStartKeepsOut(name, ':');
    SplitOnceLead(TrimStart(name), ": ", CRLF + next);
  }

  /**
   * The line kept by `EmptyValueKept` gets the next line appended; the pair
   * is then stored under the name, less any leading white space, with
   * CRLF + the next line as its value.
   */
  lemma {:induction false} KeptLineJoinsNext(name: string, next: string, more: string, headers: map<string, string>)
    requires ':' !in name && '\n' !in name
    requires '\n' !in next && next != [] && !IsWhitespace(next[|next| - 1])
    ensures ScanHeaders(next + CRLF + more, name + ": " + CRLF, headers)
         == ScanHeaders(more, [], headers[TrimStart(name) := CRLF + next])
  {
    var rest := next + CRLF + more;
    assert rest == next + "\r" + "\n" + more;
    LineRead(next + "\r", more);
    assert NextLine(rest).0 == next + CRLF;
    JoinedLineSplits(name, next);
    StepStore(rest, name + ": " + CRLF, headers, TrimStart(name), CRLF + next);
  }

  /**
   * So a header with an empty value swallows the next header line: the
   * pair is stored under the first name (less any leading white space),
   * with CRLF and the whole next line as its value.
   */
  lemma {:induction false} EmptyValueJoinsNextLine(name: string, next: string, more: string, headers: map<string, string>)
    requires ':' !in name && '\n' !in name
    requires '\n' !in next && next != [] && !IsWhitespace(next[|next| - 1])
    ensures ScanHeaders(name + ": " + CRLF + next + CRLF + more, [], headers)
         == ScanHeaders(more, [], headers[TrimStart(name) := CRLF + next])
  {
    Regroup(name + ": " + CRLF, next, CRLF, more);
    EmptyValueKept(name, next + CRLF + more, headers);
    KeptLineJoinsNext(name, next, more, headers);
  }

  /** Four strings in a row, regrouped after the first. */
  lemma Regroup(a: string, b: string, c: string, d: string)
    ensures a + b + c + d == a + (b + c + d)
  {
  }

  /**
   * With an empty value right before the blank line, the blank line is
   * appended to the kept buffer and is not seen as the end of the headers:
   * the loop goes on into whatever follows.
   */
  lemma {:induction false} EmptyValueHidesBlankLine(name: string, more: string, headers: map<string, string>)
    requires ':' !in name && '\n' !in name
    ensures ScanHeaders(name + ": " + CRLF + CRLF + more, [], headers)
         == ScanHeaders(more, name + ": " + CRLF + CRLF, headers)
  {
    var first := name + ": " + CRLF;
    assert first + CRLF + more == first + (CRLF + more);
    EmptyValueKept(name, CRLF + more, headers);
    BlankLineRead(more);
    KeptLineWithBlank(name);
    StepKeep(CRLF + more, first, headers);
  }

  /** The kept "name: " + CRLF buffer with the blank line appended still trims to "name:". */
  lemma {:induction false} KeptLineWithBlank(name: string)
    requires ':' !in name
    ensures var current := name + ": " + CRLF + CRLF;
            current != CRLF && Contains(current, ": ") &&
            SplitOnce(Trim(current), ": ") == None
  {
    var current := name + ": " + CRLF + CRLF;
    assert |current| > 2;
    assert current == name + ": " + (CRLF + CRLF);
    IndexOfAfter(name, ": ", CRLF + CRLF);
    assert current == name + ":" + " \r\n\r\n";
    TrimAround(name, ":", " \r\n\r\n");
    TrimStartKeepsOut(name, ':');
    NoSeparatorAfterName(TrimStart(name));
  }

  /** Header fields sent one after the other. */
  function FieldsText(fields: seq<(string, string)>): string
  {
    if fields == [] then [] else FieldLine(fields[0].0, fields[0].1) + FieldsText(fields[1..])
  }

  /** The map after inserting the fields in order: a later value for a name replaces an earlier one. */
  function FieldsMap(fields: seq<(string, string)>, headers: map<string, string>): map<string, string>
  {
    if fields == [] then headers else FieldsMap(fields[1..], headers[fields[0].0 := fields[0].1])
  }

  /** The last value sent for a name is the one kept. */
  lemma {:induction false} LastValueWins(fields: seq<(string, string)>, headers: map<string, string>, i: nat)
    requires i < |fields|
    requires forall j :: i < j < |fields| ==> fields[j].0 != fields[i].0
    ensures fields[i].0 in FieldsMap(fields, headers)
    ensures FieldsMap(fields, headers)[fields[i].0] == fields[i].1
  {
    if i == 0 {
      FieldsMapKeeps(fields[1..], headers[fields[0].0 := fields[0].1], fields[0].0);
    } else {
      LastValueWins(fields[1..], headers[fields[0].0 := fields[0].1], i - 1);
    }
  }

  /** A name that is not sent again keeps its value. */
  lemma {:induction false} FieldsMapKeeps(fields: seq<(string, string)>, headers: map<string, string>, name: string)
    requires name in headers
    requires forall j :: 0 <= j < |fields| ==> fields[j].0 != name
    ensures name in FieldsMap(fields, headers) && FieldsMap(fields, headers)[name] == headers[name]
  {
    if fields != [] {
      FieldsMapKeeps(fields[1..], headers[fields[0].0 := fields[0].1], name);
    }
  }

  /** Well-formed header lines followed by the blank line fill the map in order and stop right after the blank line. */
  lemma {:induction false} ScanFields(fields: seq<(string, string)>, tail: string, headers: map<string, string>)
    requires forall i :: 0 <= i < |fields| ==> WellFormedField(fields[i].0, fields[i].1)
    ensures ScanHeaders(FieldsText(fields) + CRLF + tail, [], headers) == Blank(FieldsMap(fields, headers), tail)
  {
    if fields == [] {
      assert FieldsText(fields) + CRLF + tail == CRLF + tail;
      BlankLineEnds(tail, headers);
    } else {
      var (name, value) := fields[0];
      var more := FieldsText(fields[1..]) + CRLF + tail;
      assert FieldsText(fields) + CRLF + tail == FieldLine(name, value) + more;
      HeaderLineStored(name, value, more, headers);
      ScanFields(fields[1..], tail, headers[name := value]);
    }
  }

  /** The request a client sends: a request line, header fields, the blank line and the bytes after it. */
  function RequestText(verb: string, target: string, fields: seq<(string, string)>, tail: string): string
  {
    verb + " " + target + " HTTP/1.1" + CRLF + FieldsText(fields) + CRLF + tail
  }

  /** Where the request line of `RequestText` ends. */
  lemma {:induction false} RequestTextSplits(verb: string, target: string, fields: seq<(string, string)>, tail: string)
    ensures RequestText(verb, target, fields, tail)
         == verb + " " + target + " " + "HTTP/1.1\r" + "\n" + (FieldsText(fields) + CRLF + tail)
  {
  }

  /**
   * Parsing a well-formed request gives back its method, target and the
   * header map built in order; the bytes after the blank line are left for
   * the body.
   */
  lemma {:induction false} ParseRequestText(verb: string, target: string, fields: seq<(string, string)>, tail: string)
    requires ' ' !in verb && ' ' !in target && '\n' !in verb && '\n' !in target
    requires forall i :: 0 <= i < |fields| ==> WellFormedField(fields[i].0, fields[i].1)
    ensures Parse(RequestText(verb, target, fields, tail))
         == Finish(verb, target, Blank(FieldsMap(fields, map[]), tail))
  {
    var rest := FieldsText(fields) + CRLF + tail;
    RequestTextSplits(verb, target, fields, tail);
    RequestLineTokens(verb, target, "HTTP/1.1\r", rest);
    ScanFields(fields, tail, map[]);
  }

  /**
   * The two other ways parsing fails once the request line has its two
   * tokens, each in both directions: an unparsable `Content-Length` at the
   * blank line, and input that ends before the blank line.
   */
  lemma {:induction false} ParseFailsIff(input: string)
    ensures var scan := ScanHeaders(NextLine(input).1, [], map[]);
            Parse(input) == Err(InvalidContentLength) <==>
              && ' ' in NextLine(input).0
              && scan.Blank? && CONTENT_LENGTH in scan.headers
              && ParseU64(scan.headers[CONTENT_LENGTH]).None?
    ensures Parse(input) == Err(HeadersUnterminated) <==>
              ' ' in NextLine(input).0 && ScanHeaders(NextLine(input).1, [], map[]).Unterminated?
  {
    MalformedRequestLineIff(input);
  }

  /**
   * A body exists exactly when `Content-Length` was present at the blank
   * line. It is then the bytes of the input right after the blank line: as
   * many as the declared length, or all that is left when fewer remain.
   */
  lemma {:induction false} BodyBounded(input: string)
    requires Parse(input).Ok?
    ensures var req := Parse(input).value;
            req.body.Some? <==> CONTENT_LENGTH in req.headers
    ensures var req := Parse(input).value;
            var scan := ScanHeaders(NextLine(input).1, [], map[]);
            && scan.Blank?
            && var k := |input| - |scan.rest|;
            && 0 < k <= |input| && input[k..] == scan.rest
            && (req.body.Some? ==>
                  && CONTENT_LENGTH in req.headers
                  && var n := ParseU64(req.headers[CONTENT_LENGTH]);
                  var b := req.body.value;
                  && n.Some?
                  && StartsWith(scan.rest, b)
                  && |b| == (if n.value <= |scan.rest| then n.value else |scan.rest|))
  {
    var (first, rest) := NextLine(input);
    var scan := ScanHeaders(rest, [], map[]);
    var parts := Split(first, " ");
    assert Parse(input) == Finish(parts[0], parts[1], scan);
    assert input[|first|..] == rest;
    assert input[|input| - |scan.rest|..] == rest[|rest| - |scan.rest|..];
  }
}
