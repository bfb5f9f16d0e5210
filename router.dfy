/**
 * The router (`handle_connection`, `handle_get`, `handle_post`,
 * `parse_files_path`, `read_file`, `save_file` and `parse_directory`,
 * src/main.rs:74-221).
 *
 * One connection is handled as a function of the bytes the client sends,
 * the directory given on the command line, and the file system. The file
 * system is a value holding the outcomes of the four calls the server makes
 * (`fs::metadata`, opening and reading a file, `File::create` and
 * `io::copy` into it). A connection ends in one reply, in a panic of its
 * thread (no reply is written), or never, when the request header does not
 * end.
 */
module Router {
  import opened Text
  import opened Request
  import opened Response

  const USER_AGENT: string := "User-Agent"
  const ECHO_PREFIX: string := "/echo/"
  const FILES_PREFIX: string := "/files/"

  /** `io::ErrorKind`, as far as the server tells kinds apart. */
  datatype ErrorKind = NotFound | OtherError

  /** `io::Result<T>`. */
  datatype Io<T> = Done(value: T) | Failed(kind: ErrorKind)

  /**
   * The file system seen through the calls the server makes:
   * `metadata(p)` is `fs::metadata(p)` giving whether `p` is a directory,
   * `open(p)` is opening `p` and reading it to the end, `create(p)` is
   * `File::create(p)`, and `copy(data, p)` is `io::copy` of the request body
   * `data` into the file just created at `p`.
   */
  datatype FileSystem = FileSystem(
    metadata: string -> Io<bool>,
    open: string -> Io<string>,
    create: string -> Io<()>,
    copy: (string, string) -> Io<()>)

  /** Why a connection's thread panics. */
  datatype Cause =
    | MissingRequestLineToken   // `parts[1]` out of bounds in `parse_request`
    | BadContentLength          // `Content-Length` does not parse as a `u64`
    | OpenFailed                // `read_file` failed other than with NotFound
    | NoRequestBody             // POST without `Content-Length`: no body reader
    | CreateFailed              // `File::create(..).unwrap()`
    | WriteFailed               // `io::copy` failed other than with NotFound

  /** How a connection ends. */
  datatype Outcome = Reply(bytes: string) | Panic(cause: Cause) | Stall

  /** The reply of `write_status(404, "Not Found")`. */
  function NotFoundReply(): Outcome
  {
    Reply(StatusResponse(404, "Not Found"))
  }

  /**
   * `read_file`: the metadata error if there is one, NotFound for a
   * directory, otherwise the outcome of opening and reading the file.
   */
  function ReadFile(fs: FileSystem, path: string): (r: Io<string>)
    ensures r.Done? <==> fs.metadata(path) == Done(false) && fs.open(path).Done?
    ensures r.Done? ==> r.value == fs.open(path).value
    ensures r == Failed(NotFound) <==>
              fs.metadata(path) == Failed(NotFound) || fs.metadata(path) == Done(true)
              || (fs.metadata(path) == Done(false) && fs.open(path) == Failed(NotFound))
  {
    match fs.metadata(path)
    case Failed(kind) => Failed(kind)
    case Done(isDir) => if isDir then Failed(NotFound) else fs.open(path)
  }

  /**
   * `save_file`: `File::create(..).unwrap()` panics when the file cannot be
   * created; otherwise the outcome of copying the body into it.
   */
  function SaveFile(fs: FileSystem, data: string, path: string): (r: Option<Io<()>>)
    ensures r.None? <==> fs.create(path).Failed?
    ensures r.Some? ==> r.value == fs.copy(data, path)
  {
    match fs.create(path)
    case Failed(_) => None
    case Done(_) => Some(fs.copy(data, path))
  }

  /**
   * `Path::new(dir).join(name)`: an absolute `name` replaces `dir`;
   * otherwise a separator is inserted unless `dir` is empty or already ends
   * in one.
   */
  function JoinPath(dir: string, name: string): (path: string)
    ensures name != [] && name[0] == '/' ==> path == name
    ensures !(name != [] && name[0] == '/') ==>
              path == dir + name || path == dir + "/" + name
  {
    if name != [] && name[0] == '/' then name
    else if dir != [] && dir[|dir| - 1] != '/' then dir + "/" + name
    else dir + name
  }

  /**
   * The text `split(prefix)` puts at index 1 of a target that starts with
   * `prefix`: the rest of the target up to the leftmost occurrence of
   * `prefix` in it, or all of the rest when there is none.
   */
  function Segment(uri: string, prefix: string): (segment: string)
    requires |prefix| > 0 && StartsWith(uri, prefix)
    ensures StartsWith(uri[|prefix|..], segment)
    ensures !Contains(segment, prefix)
    ensures segment == uri[|prefix|..] || StartsWith(uri[|prefix|..][|segment|..], prefix)
    ensures IndexOf(uri[|prefix|..], prefix) == (if segment == uri[|prefix|..] then None else Some(|segment|))
  {
    SplitLeadingSep(uri, prefix);
    FirstPiece(uri[|prefix|..], prefix);
    Split(uri, prefix)[1]
  }

  /**
   * `parse_files_path`: the segment after "/files/" joined onto the
   * directory, or onto "." when there is none. The segment is used whole:
   * an absolute one replaces the directory, and ".." is kept.
   */
  function FilesPath(uri: string, directory: Option<string>): (path: string)
    requires StartsWith(uri, FILES_PREFIX)
    ensures var name := Segment(uri, FILES_PREFIX);
            var dir := if directory.Some? then directory.value else ".";
            && (name != [] && name[0] == '/' ==> path == name)
            && (!(name != [] && name[0] == '/') ==> path == dir + name || path == dir + "/" + name)
            && (!(name != [] && name[0] == '/') && directory.None? ==> path == "./" + name)
  {
    var dir := match directory case Some(d) => d case None => ".";
    JoinPath(dir, Segment(uri, FILES_PREFIX))
  }

  /** `handle_get`: always a reply, except a panic when a file cannot be read. */
  function HandleGet(request: HttpRequest, directory: Option<string>, fs: FileSystem): (outcome: Outcome)
    ensures outcome.Reply? || outcome == Panic(OpenFailed)
    ensures outcome == Panic(OpenFailed) ==> StartsWith(request.uri, FILES_PREFIX)
  {
    var uri := request.uri;
    if uri == "/" then Reply(StatusResponse(200, "OK"))
    else if uri == "/user-agent" then
      Reply(TextResponse(if USER_AGENT in request.headers then request.headers[USER_AGENT] else ""))
    else if StartsWith(uri, ECHO_PREFIX) then
      Reply(TextResponse(Segment(uri, ECHO_PREFIX)))
    else if StartsWith(uri, FILES_PREFIX) then
      match ReadFile(fs, FilesPath(uri, directory))
      case Done(data) => Reply(FileResponse(data))
      case Failed(NotFound) => NotFoundReply()
      case Failed(OtherError) => Panic(OpenFailed)
    else NotFoundReply()
  }

  /**
   * `handle_post`. The body reader is taken (and found missing) before
   * `save_file` is called, so a POST without `Content-Length` panics before
   * any file is created.
   */
  function HandlePost(request: HttpRequest, directory: Option<string>, fs: FileSystem): (outcome: Outcome)
    ensures outcome.Reply? || outcome == Panic(NoRequestBody) || outcome == Panic(CreateFailed) || outcome == Panic(WriteFailed)
    ensures outcome.Panic? ==> StartsWith(request.uri, FILES_PREFIX)
  {
    if StartsWith(request.uri, FILES_PREFIX) then
      var path := FilesPath(request.uri, directory);
      match request.body
      case None => Panic(NoRequestBody)
      case Some(data) =>
        match SaveFile(fs, data, path)
        case None => Panic(CreateFailed)
        case Some(Done(_)) => Reply(StatusResponse(201, "Created"))
        case Some(Failed(NotFound)) => NotFoundReply()
        case Some(Failed(OtherError)) => Panic(WriteFailed)
    else Reply(StatusResponse(500, "Internal Server Error"))
  }

  /** The `match` on the method in `handle_connection`: it never stalls, and never panics for a parser's reason. */
  function Dispatch(request: HttpRequest, directory: Option<string>, fs: FileSystem): (outcome: Outcome)
    ensures outcome != Stall
    ensures outcome != Panic(MissingRequestLineToken) && outcome != Panic(BadContentLength)
  {
    if request.httpMethod == "GET" then HandleGet(request, directory, fs)
    else if request.httpMethod == "POST" then HandlePost(request, directory, fs)
    else Reply(StatusResponse(503, "Server Internal Error"))
  }

  /**
   * `handle_connection`: parse the request, then answer it. A request line
   * without two tokens and an unparsable `Content-Length` panic, and a
   * header that never ends stalls, each in both directions; a parsed
   * request is answered by `Dispatch`.
   */
  function HandleConnection(input: string, directory: Option<string>, fs: FileSystem): (outcome: Outcome)
    ensures outcome == Panic(MissingRequestLineToken) <==> !Contains(NextLine(input).0, " ")
    ensures outcome == Panic(BadContentLength) <==> Parse(input) == Err(InvalidContentLength)
    ensures outcome == Stall <==> Parse(input) == Err(HeadersUnterminated)
    ensures Parse(input).Ok? ==> outcome == Dispatch(Parse(input).value, directory, fs)
  {
    match Parse(input)
    case Err(MalformedRequestLine) => Panic(MissingRequestLineToken)
    case Err(InvalidContentLength) => Panic(BadContentLength)
    case Err(HeadersUnterminated) => Stall
    case Ok(request) => Dispatch(request, directory, fs)
  }

  /** `parse_directory` over the program's arguments (the program name first). */
  function ParseDirectory(args: seq<string>): (directory: Option<string>)
    ensures directory.Some? <==> |args| == 3 && args[1] == "--directory"
    ensures directory.Some? ==> directory.value == args[2]
  {
    if |args| == 3 then
      if args[1] == "--directory" then Some(args[2]) else None
    else None
  }
}
