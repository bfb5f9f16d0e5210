/**
 * What the router answers: one lemma per row of the dispatch table, the
 * file outcomes of GET and POST, where the file path comes from, how a
 * connection ends, and that every reply is framed as its `Content-Length`
 * announces.
 */
module RouterProperties {
  import opened Text
  import opened Request
  import opened Response
  import opened Router

  /** GET / is answered with a bare 200. */
  lemma RootIsOk(request: HttpRequest, directory: Option<string>, fs: FileSystem)
    requires request.httpMethod == "GET" && request.uri == "/"
    ensures Dispatch(request, directory, fs) == Reply(StatusResponse(200, "OK"))
  {
  }

  /** GET /user-agent returns the `User-Agent` header as text, or empty text without it. */
  lemma UserAgentReturned(request: HttpRequest, directory: Option<string>, fs: FileSystem)
    requires request.httpMethod == "GET" && request.uri == "/user-agent"
    ensures USER_AGENT in request.headers ==>
              Dispatch(request, directory, fs) == Reply(TextResponse(request.headers[USER_AGENT]))
    ensures USER_AGENT !in request.headers ==>
              Dispatch(request, directory, fs) == Reply(TextResponse(""))
  {
  }

  /**
   * GET /echo/... returns as text the part of the target after "/echo/" up
   * to the leftmost "/echo/" in it.
   */
  lemma {:induction false} EchoReturnsSegment(request: HttpRequest, directory: Option<string>, fs: FileSystem)
    requires request.httpMethod == "GET" && StartsWith(request.uri, ECHO_PREFIX)
    ensures Dispatch(request, directory, fs) == Reply(TextResponse(Segment(request.uri, ECHO_PREFIX)))
  {
    assert request.uri[..|ECHO_PREFIX|] == ECHO_PREFIX;
    assert request.uri[1] == 'e';
  }

  /** A GET for any other target is answered with 404. */
  lemma UnknownTargetNotFound(request: HttpRequest, directory: Option<string>, fs: FileSystem)
    requires request.httpMethod == "GET"
    requires request.uri != "/" && request.uri != "/user-agent"
    requires !StartsWith(request.uri, ECHO_PREFIX) && !StartsWith(request.uri, FILES_PREFIX)
    ensures Dispatch(request, directory, fs) == Reply(StatusResponse(404, "Not Found"))
  {
  }

  /**
   * GET /files/...: the file's data when it is a readable file, 404 when it
   * is missing or a directory, and a panic on any other error.
   */
  lemma FileGetOutcome(request: HttpRequest, directory: Option<string>, fs: FileSystem)
    requires request.httpMethod == "GET" && StartsWith(request.uri, FILES_PREFIX)
    ensures var path := FilesPath(request.uri, directory);
            var meta := fs.metadata(path);
            && (Dispatch(request, directory, fs).Reply? && Dispatch(request, directory, fs) != NotFoundReply()
                <==> meta == Done(false) && fs.open(path).Done?)
            && (meta == Done(false) && fs.open(path).Done? ==>
                  Dispatch(request, directory, fs) == Reply(FileResponse(fs.open(path).value)))
            && (Dispatch(request, directory, fs) == NotFoundReply()
                <==> meta == Failed(NotFound) || meta == Done(true)
                     || (meta == Done(false) && fs.open(path) == Failed(NotFound)))
            && (Dispatch(request, directory, fs) == Panic(OpenFailed)
                <==> meta == Failed(OtherError) || (meta == Done(false) && fs.open(path) == Failed(OtherError)))
  {
    assert request.uri != "/" && request.uri != "/user-agent" && !StartsWith(request.uri, ECHO_PREFIX) by {
      assert request.uri[..|FILES_PREFIX|] == FILES_PREFIX;
      assert request.uri[1] == 'f';
    }
    var path := FilesPath(request.uri, directory);
    match fs.open(path)
    case Done(data) => FileResponseNotStatus(data);
    case Failed(_) =>
  }

  /** A file response is never the 404 reply. */
  lemma FileResponseNotStatus(data: string)
    ensures FileResponse(data) != StatusResponse(404, "Not Found")
  {
  }

  /**
   * POST /files/...: 201 when the body is copied into the new file, 404 when
   * the copy reports NotFound; a panic without a body, when the file cannot
   * be created, or on any other copy error.
   */
  lemma FilePostOutcome(request: HttpRequest, directory: Option<string>, fs: FileSystem)
    requires request.httpMethod == "POST" && StartsWith(request.uri, FILES_PREFIX)
    ensures var path := FilesPath(request.uri, directory);
            var outcome := Dispatch(request, directory, fs);
            && (outcome == Panic(NoRequestBody) <==> request.body.None?)
            && (outcome == Panic(CreateFailed) <==> request.body.Some? && fs.create(path).Failed?)
            && (outcome == Reply(StatusResponse(201, "Created"))
                <==> request.body.Some? && fs.create(path).Done? && fs.copy(request.body.value, path).Done?)
            && (outcome == NotFoundReply()
                <==> request.body.Some? && fs.create(path).Done? && fs.copy(request.body.value, path) == Failed(NotFound))
            && (outcome == Panic(WriteFailed)
                <==> request.body.Some? && fs.create(path).Done? && fs.copy(request.body.value, path) == Failed(OtherError))
  {
  }

  /** A POST to any target outside /files/ is answered with 500. */
  lemma PostElsewhereFails(request: HttpRequest, directory: Option<string>, fs: FileSystem)
    requires request.httpMethod == "POST" && !StartsWith(request.uri, FILES_PREFIX)
    ensures Dispatch(request, directory, fs) == Reply(StatusResponse(500, "Internal Server Error"))
  {
  }

  /** Any method but GET and POST is answered with 503 "Server Internal Error". */
  lemma OtherMethodUnavailable(request: HttpRequest, directory: Option<string>, fs: FileSystem)
    requires request.httpMethod != "GET" && request.httpMethod != "POST"
    ensures Dispatch(request, directory, fs) == Reply(StatusResponse(503, "Server Internal Error"))
  {
  }

  /**
   * The file name is not checked: a name that starts with "../" is joined
   * onto the directory as it is, so the path leads out of the directory.
   */
  lemma {:induction false} TraversalNotPrevented(uri: string, directory: string, name: string)
    requires uri == FILES_PREFIX + name && StartsWith(name, "../") && !Contains(name, FILES_PREFIX)
    requires directory != [] && directory[|directory| - 1] != '/'
    ensures FilesPath(uri, Some(directory)) == directory + "/" + name
  {
    assert uri[|FILES_PREFIX|..] == name;
    SplitLeadingSep(uri, FILES_PREFIX);
    assert Split(name, FILES_PREFIX) == [name];
    assert name[0] == '.';
  }

  /** None of the reason phrases holds a carriage return. */
  lemma ReasonPhrasesOnOneLine()
    ensures '\r' !in "OK" && '\r' !in "Created" && '\r' !in "Not Found"
    ensures '\r' !in "Internal Server Error" && '\r' !in "Server Internal Error"
  {
  }

  /**
   * `bytes` read back as one whole response: a text response (one whose
   * `Content-Type` is text) is followed by its stray CRLF, any other by
   * nothing at all.
   */
  predicate WholeResponse(bytes: string)
  {
    ReadResponse(bytes).Some? &&
    var framed := ReadResponse(bytes).value;
    framed.leftover ==
      (if "Content-Type" in framed.fields && framed.fields["Content-Type"] == CONTENT_TYPE_TEXT then CRLF else [])
  }

  lemma StatusWhole(code: u32, message: string)
    requires '\r' !in message
    ensures WholeResponse(StatusResponse(code, message))
  {
    StatusFraming(code, message);
  }

  lemma TextWhole(content: string)
    requires |content| < U64_LIMIT
    ensures WholeResponse(TextResponse(content))
  {
    TextFraming(content);
  }

  lemma FileWhole(content: string)
    requires |content| < U64_LIMIT
    ensures WholeResponse(FileResponse(content))
  {
    FileFraming(content);
    assert CONTENT_TYPE_FILE[0] != CONTENT_TYPE_TEXT[0];
  }

  /** Every reply to a GET is one whole response. */
  lemma {:induction false} GetRepliesWhole(request: HttpRequest, directory: Option<string>, fs: FileSystem)
    requires request.httpMethod == "GET" && |request.uri| < U64_LIMIT
    requires USER_AGENT in request.headers ==> |request.headers[USER_AGENT]| < U64_LIMIT
    requires forall p :: fs.open(p).Done? ==> |fs.open(p).value| < U64_LIMIT
    ensures Dispatch(request, directory, fs).Reply? ==> WholeResponse(Dispatch(request, directory, fs).bytes)
  {
    ReasonPhrasesOnOneLine();
    var uri := request.uri;
    if uri == "/" {
      StatusWhole(200, "OK");
    } else if uri == "/user-agent" {
      TextWhole(if USER_AGENT in request.headers then request.headers[USER_AGENT] else "");
    } else if StartsWith(uri, ECHO_PREFIX) {
      TextWhole(Segment(uri, ECHO_PREFIX));
    } else if StartsWith(uri, FILES_PREFIX) {
      var path := FilesPath(uri, directory);
      if ReadFile(fs, path).Done? {
        FileWhole(fs.open(path).value);
      } else {
        StatusWhole(404, "Not Found");
      }
    } else {
      StatusWhole(404, "Not Found");
    }
  }

  /** Every reply to a POST is one whole response. */
  lemma PostRepliesWhole(request: HttpRequest, directory: Option<string>, fs: FileSystem)
    requires request.httpMethod == "POST"
    ensures Dispatch(request, directory, fs).Reply? ==> WholeResponse(Dispatch(request, directory, fs).bytes)
  {
    ReasonPhrasesOnOneLine();
    assert Dispatch(request, directory, fs) == HandlePost(request, directory, fs);
    if StartsWith(request.uri, FILES_PREFIX) {
      var path := FilesPath(request.uri, directory);
      match request.body
      case None =>
      case Some(data) =>
        match SaveFile(fs, data, path)
        case None =>
        case Some(Done(_)) => StatusWhole(201, "Created");
        case Some(Failed(NotFound)) => StatusWhole(404, "Not Found");
        case Some(Failed(OtherError)) =>
    } else {
      StatusWhole(500, "Internal Server Error");
    }
  }

  /**
   * Every reply reads back as one whole response: a status-only reply with
   * nothing after it, a file reply whose body is exactly the data, or a text
   * reply followed by its stray CRLF.
   */
  lemma {:induction false} RepliesAreWhole(request: HttpRequest, directory: Option<string>, fs: FileSystem)
    requires |request.uri| < U64_LIMIT
    requires USER_AGENT in request.headers ==> |request.headers[USER_AGENT]| < U64_LIMIT
    requires forall p :: fs.open(p).Done? ==> |fs.open(p).value| < U64_LIMIT
    ensures Dispatch(request, directory, fs).Reply? ==> WholeResponse(Dispatch(request, directory, fs).bytes)
  {
    if request.httpMethod == "GET" {
      GetRepliesWhole(request, directory, fs);
    } else if request.httpMethod == "POST" {
      PostRepliesWhole(request, directory, fs);
    } else {
      ReasonPhrasesOnOneLine();
      StatusWhole(503, "Server Internal Error");
    }
  }
}
