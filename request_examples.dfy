/**
 * The requests of the source's own tests (`can_parse_get` and
 * `can_parse_post`, src/main.rs:245-274) and a body longer than its
 * `Content-Length`, each proved from the general lemmas of
 * `RequestProperties`. `RequestText(m, p, fields, tail)` is the text
 * m + " " + p + " HTTP/1.1\r\n", one "name: value\r\n" line per field,
 * "\r\n" and then `tail`.
 */
module RequestExamples {
  import opened Text
  import opened Request
  import opened RequestProperties

  /** A request with a single header field is parsed with that field as its only header. */
  lemma {:induction false} OneFieldRequest(verb: string, target: string, fields: seq<(string, string)>, tail: string)
    requires ' ' !in verb && ' ' !in target && '\n' !in verb && '\n' !in target
    requires |fields| == 1 && WellFormedField(fields[0].0, fields[0].1)
    ensures Parse(RequestText(verb, target, fields, tail))
         == Finish(verb, target, Blank(map[fields[0].0 := fields[0].1], tail))
  {
    ParseRequestText(verb, target, fields, tail);
    assert fields[1..] == [];
    assert FieldsMap(fields, map[]) == FieldsMap(fields[1..], map[fields[0].0 := fields[0].1]);
  }

  /** `can_parse_get`: method, target and the `User-Agent` header, and no body. */
  lemma {:induction false} CanParseGet(fields: seq<(string, string)>)
    requires fields == [("User-Agent", "curl/7.86.0")]
    ensures Parse(RequestText("GET", "/index.html", fields, ""))
         == Ok(HttpRequest("GET", "/index.html", map["User-Agent" := "curl/7.86.0"], None))
  {
    OneFieldRequest("GET", "/index.html", fields, "");
  }

  /** The header map of `can_parse_post`. */
  lemma {:induction false} PostHeaders(fields: seq<(string, string)>)
    requires fields == [("User-Agent", "curl/7.86.0"), ("Content-Length", "5")]
    ensures FieldsMap(fields, map[]) == map["User-Agent" := "curl/7.86.0", "Content-Length" := "5"]
  {
    assert fields[1..][1..] == [];
    var agent := map["User-Agent" := "curl/7.86.0"];
    assert FieldsMap(fields, map[]) == FieldsMap(fields[1..], agent);
    assert FieldsMap(fields[1..], agent) == FieldsMap(fields[1..][1..], agent["Content-Length" := "5"]);
  }

  /** A `Content-Length` of "5" bounds the body to the first five bytes after the blank line. */
  lemma {:induction false} LengthFive(verb: string, target: string, headers: map<string, string>, tail: string)
    requires CONTENT_LENGTH in headers && headers[CONTENT_LENGTH] == "5" && |tail| >= 5
    ensures Finish(verb, target, Blank(headers, tail)) == Ok(HttpRequest(verb, target, headers, Some(tail[..5])))
  {
    assert DigitsValue("5") == 5;
    assert ParseU64("5") == Some(5);
  }

  /** The header of `can_parse_post` is read to its blank line, leaving "hello" for the body. */
  lemma {:induction false} PostHeaderRead(fields: seq<(string, string)>, headers: map<string, string>)
    requires fields == [("User-Agent", "curl/7.86.0"), ("Content-Length", "5")]
    requires headers == map["User-Agent" := "curl/7.86.0", "Content-Length" := "5"]
    ensures Parse(RequestText("POST", "/files/index.html", fields, "hello"))
         == Finish("POST", "/files/index.html", Blank(headers, "hello"))
  {
    PostHeaders(fields);
    ParseRequestText("POST", "/files/index.html", fields, "hello");
  }

  /** `can_parse_post`: method, target, both headers, and a body reader that yields "hello". */
  lemma {:induction false} CanParsePost(fields: seq<(string, string)>)
    requires fields == [("User-Agent", "curl/7.86.0"), ("Content-Length", "5")]
    ensures Parse(RequestText("POST", "/files/index.html", fields, "hello"))
         == Ok(HttpRequest("POST", "/files/index.html",
                           map["User-Agent" := "curl/7.86.0", "Content-Length" := "5"], Some("hello")))
  {
    var headers := map["User-Agent" := "curl/7.86.0", "Content-Length" := "5"];
    PostHeaderRead(fields, headers);
    assert "hello"[..5] == "hello";
    LengthFive("POST", "/files/index.html", headers, "hello");
  }

  /** With `Content-Length: 5`, however many bytes follow the blank line, the body is the first five only. */
  lemma {:induction false} BodyStopsAtLength(fields: seq<(string, string)>, tail: string)
    requires fields == [("Content-Length", "5")] && |tail| >= 5
    ensures Parse(RequestText("POST", "/files/x", fields, tail))
         == Ok(HttpRequest("POST", "/files/x", map["Content-Length" := "5"], Some(tail[..5])))
  {
    OneFieldRequest("POST", "/files/x", fields, tail);
    LengthFive("POST", "/files/x", map["Content-Length" := "5"], tail);
  }

  /** A negative `Content-Length` is not a `u64`: the request is refused. */
  lemma {:induction false} NegativeLengthRefused(fields: seq<(string, string)>)
    requires fields == [("Content-Length", "-5")]
    ensures Parse(RequestText("POST", "/files/x", fields, "hello")) == Err(InvalidContentLength)
  {
    OneFieldRequest("POST", "/files/x", fields, "hello");
    NonDigitRejected("-5", 0);
  }
}
