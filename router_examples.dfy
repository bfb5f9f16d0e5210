/**
 * Whole connections: the bytes a client sends and the outcome of
 * `handle_connection`, proved from the general lemmas.
 */
module RouterExamples {
  import opened Text
  import opened Request
  import opened Response
  import opened Router
  import opened RequestProperties
  import opened RouterProperties

  /** GET /user-agent answers with the client's `User-Agent` as text. */
  lemma {:induction false} UserAgentConnection(fields: seq<(string, string)>, directory: Option<string>, fs: FileSystem)
    requires fields == [("User-Agent", "curl/7.86.0")]
    ensures HandleConnection(RequestText("GET", "/user-agent", fields, ""), directory, fs)
         == Reply(TextResponse("curl/7.86.0"))
  {
    ParseRequestText("GET", "/user-agent", fields, "");
    assert fields[1..] == [];
    assert FieldsMap(fields, map[]) == FieldsMap(fields[1..], map["User-Agent" := "curl/7.86.0"]);
  }

  /** GET /echo/abc/echo/def echoes only "abc". */
  lemma {:induction false} EchoStopsAtNextPrefix(uri: string, head: string, tail: string)
    requires head == "abc" && tail == "def" && uri == ECHO_PREFIX + head + ECHO_PREFIX + tail
    ensures Segment(uri, ECHO_PREFIX) == "abc"
  {
    SplitLeadingSep(uri, ECHO_PREFIX);
    assert uri[|ECHO_PREFIX|..] == head + ECHO_PREFIX + tail;
    SplitAfter(head, ECHO_PREFIX, tail);
  }

  /**
   * "/echo/echo/" holds "/echo/" twice, overlapping at a "/". The echo stops
   * at the first of them: /echo/x/echo/echo/y echoes "x", not "x/echo".
   */
  lemma {:induction false} EchoStopsAtLeftmostPrefix(uri: string, head: string, rest: string)
    requires head == "x" && rest == "echo/y" && uri == ECHO_PREFIX + head + ECHO_PREFIX + rest
    ensures Segment(uri, ECHO_PREFIX) == "x"
  {
    SplitLeadingSep(uri, ECHO_PREFIX);
    assert uri[|ECHO_PREFIX|..] == head + ECHO_PREFIX + rest;
    SplitAfter(head, ECHO_PREFIX, rest);
  }

  /** A request in any other method than GET or POST is answered with 503. */
  lemma {:induction false} DeleteConnection(fields: seq<(string, string)>, directory: Option<string>, fs: FileSystem)
    requires fields == []
    ensures HandleConnection(RequestText("DELETE", "/", fields, ""), directory, fs)
         == Reply(StatusResponse(503, "Server Internal Error"))
  {
    ParseRequestText("DELETE", "/", fields, "");
  }

  /** GET /files/../secret with the directory /srv reads /srv/../secret, outside /srv. */
  lemma {:induction false} TraversalExample(name: string, directory: string)
    requires name == "../secret" && directory == "/srv"
    ensures FilesPath(FILES_PREFIX + name, Some(directory)) == "/srv/../secret"
  {
    assert StartsWith(name, "../") by {
      assert name[..3] == "../";
    }
    MissingCharNotContained(name, FILES_PREFIX, 1);
    assert directory[|directory| - 1] == 'v';
    TraversalNotPrevented(FILES_PREFIX + name, directory, name);
  }
}
