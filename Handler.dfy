/**
 * The request handler: which action a GET takes for a path, and what a
 * POST does with its body. The handler's store is shared by every request.
 * URL parsing and percent-decoding happen before the code modelled here:
 * a GET is given both the raw request path and the path component that
 * `urlparse` extracts from it, and a POST its body already decoded.
 * Whether a file exists in the working directory is the parameter
 * `fileExists`.
 */
module Handler {
  import opened Wrappers
  import opened FormBody
  import opened Storage
  import Dates

  /** The five branches of `do_GET`. */
  datatype GetRoute = Index | MessageForm | ReadListing | StaticFile | NotFound

  /** What the handler sends back. */
  datatype Response =
    | HtmlFile(status: nat, file: string)                       // `send_html_file(file, status)`
    | Rendered(status: nat, template: string, messages: Messages) // `read.html` rendered over `messages`
    | StaticAsset(status: nat, file: string)                    // `send_static`: the bytes of `file`
    | Redirect(status: nat, location: string)
    | NoResponse                                                // the handler raised before responding

  /** Python's `path[1:]`, which is empty for an empty path. */
  function Tail(path: string): string
  {
    if |path| == 0 then "" else path[1..]
  }

  /** The paths `do_GET` answers without looking at the file system. */
  predicate Reserved(path: string)
  {
    path == "/" || path == "/message" || path == "/read"
  }

  /** The routing decision of `do_GET` for the parsed path. */
  function RouteGet(path: string, fileExists: string -> bool): GetRoute
  {
    if path == "/" then Index
    else if path == "/message" then MessageForm
    else if path == "/read" then ReadListing
    else if fileExists(Tail(path)) then StaticFile
    else NotFound
  }

  /**
   * The response to a routed GET. A static asset is opened under the raw
   * request path (`open(f".{self.path}")`), while its existence was checked
   * for the parsed path.
   */
  function GetResponse(route: GetRoute, rawPath: string, messages: Messages): Response
  {
    match route
    case Index => HtmlFile(200, "index.html")
    case MessageForm => HtmlFile(200, "message.html")
    case ReadListing => Rendered(200, "read.html", messages)
    case StaticFile => StaticAsset(200, "." + rawPath)
    case NotFound => HtmlFile(404, "error.html")
  }

  /** `do_POST` as a function of the body and the store's file: the response and the new file. */
  function PostResult(body: string, f: FileState, timestamp: string, writable: bool): (Response, FileState)
  {
    match Parse(body)
    case None => (NoResponse, f)
    case Some(message) => (Redirect(302, "/"), Written(f, timestamp, message, writable))
  }

  class HttpHandler {
    const storage: MessageStore

    constructor (storage: MessageStore)
      ensures this.storage == storage
    {
      this.storage := storage;
    }

    method DoGet(rawPath: string, path: string, fileExists: string -> bool) returns (response: Response)
      ensures response == GetResponse(RouteGet(path, fileExists), rawPath, Contents(storage.file))
    {
      if path == "/" {
        response := HtmlFile(200, "index.html");
      } else if path == "/message" {
        response := HtmlFile(200, "message.html");
      } else if path == "/read" {
        var messages := storage.ReadMessages();
        response := Rendered(200, "read.html", messages);
      } else if fileExists(Tail(path)) {
        response := StaticAsset(200, "." + rawPath);
      } else {
        response := HtmlFile(404, "error.html");
      }
    }

    /** The timestamp `datetime.now()` would give is the parameter `timestamp`. */
    method DoPost(body: string, timestamp: string, writable: bool) returns (response: Response)
      modifies storage
      ensures (response, storage.file) == PostResult(body, old(storage.file), timestamp, writable)
    {
      var message := Parse(body);
      if message.None? {
        response := NoResponse;
        return;
      }
      storage.WriteMessage(message.value, timestamp, writable);
      response := Redirect(302, "/");
    }
  }

  /**
   * The GET routing table: every path gets exactly one route, the three
   * reserved paths first, then an existing file, then 404.
   */
  lemma RouteGetTable(path: string, fileExists: string -> bool)
    ensures RouteGet(path, fileExists) == Index <==> path == "/"
    ensures RouteGet(path, fileExists) == MessageForm <==> path == "/message"
    ensures RouteGet(path, fileExists) == ReadListing <==> path == "/read"
    ensures RouteGet(path, fileExists) == StaticFile <==> !Reserved(path) && fileExists(Tail(path))
    ensures RouteGet(path, fileExists) == NotFound <==> !Reserved(path) && !fileExists(Tail(path))
  {
  }

  /** A reserved path is routed alike whatever files exist, even one with the same name. */
  lemma ReservedIgnoresFiles(path: string, e1: string -> bool, e2: string -> bool)
    requires Reserved(path)
    ensures RouteGet(path, e1) == RouteGet(path, e2)
  {
  }

  /** Only the listing depends on the store. */
  lemma OnlyListingReadsStore(route: GetRoute, rawPath: string, m1: Messages, m2: Messages)
    requires route != ReadListing
    ensures GetResponse(route, rawPath, m1) == GetResponse(route, rawPath, m2)
  {
  }

  /** Status codes: 404 exactly for the error page, 200 for every other GET. */
  lemma GetStatus(path: string, rawPath: string, fileExists: string -> bool, m: Messages)
    ensures GetResponse(RouteGet(path, fileExists), rawPath, m).status ==
      if RouteGet(path, fileExists) == NotFound then 404 else 200
  {
  }

  /** For a request without a query, the static file sent is the one whose existence was checked. */
  lemma StaticFileChecked(path: string, fileExists: string -> bool, m: Messages)
    requires RouteGet(path, fileExists) == StaticFile && |path| > 0 && path[0] == '/'
    ensures GetResponse(StaticFile, path, m) == StaticAsset(200, "./" + Tail(path))
    ensures fileExists(Tail(path))
  {
    assert path == "/" + Tail(path);
  }

  /** `GET /does-not-exist` with no such file is answered with the 404 page. */
  lemma NotFoundExample(fileExists: string -> bool, m: Messages)
    requires !fileExists("does-not-exist")
    ensures GetResponse(RouteGet("/does-not-exist", fileExists), "/does-not-exist", m) == HtmlFile(404, "error.html")
  {
    var path := "/does-not-exist";
    assert Tail(path) == "does-not-exist";
  }

  /** A body that does not parse leaves the store untouched and sends nothing. */
  lemma PostMalformed(body: string, f: FileState, timestamp: string, writable: bool)
    requires Parse(body).None?
    ensures PostResult(body, f, timestamp, writable) == (NoResponse, f)
  {
  }

  /** A POST is answered with `302 Location: /` exactly when its body parses. */
  lemma PostRedirectsIffParsed(body: string, f: FileState, timestamp: string, writable: bool)
    ensures PostResult(body, f, timestamp, writable).0 == Redirect(302, "/") <==> Parse(body).Some?
  {
  }

  /** A parsed body is written once, under the request's timestamp, whatever the store's state. */
  lemma PostWritesOnce(body: string, f: FileState, timestamp: string, writable: bool)
    requires Parse(body).Some?
    ensures PostResult(body, f, timestamp, writable).1 == Written(f, timestamp, Parse(body).value, writable)
  {
  }

  /** A store fault is invisible to the client: the redirect is sent and the file is unchanged. */
  lemma PostStoreFault(body: string, f: FileState, timestamp: string, writable: bool)
    requires Parse(body).Some?
    requires f.Unreadable? || !writable
    ensures PostResult(body, f, timestamp, writable) == (Redirect(302, "/"), f)
  {
  }

  /** After a successful POST, reading the store gives the submitted record under the timestamp. */
  lemma PostThenRead(body: string, f: FileState, timestamp: string)
    requires Parse(body).Some? && !f.Unreadable?
    ensures timestamp in Contents(PostResult(body, f, timestamp, true).1)
    ensures Contents(PostResult(body, f, timestamp, true).1)[timestamp] == Parse(body).value
  {
    WriteThenRead(f, timestamp, Parse(body).value);
  }

  /** `POST name=bob&text=hello` adds exactly that record to a store that did not have the timestamp. */
  lemma PostExample(m: Messages, timestamp: string)
    requires timestamp !in m
    ensures PostResult("name=bob&text=hello", Valid(m), timestamp, true) ==
      (Redirect(302, "/"), Valid(m[timestamp := map["name" := "bob", "text" := "hello"]]))
    ensures |Contents(PostResult("name=bob&text=hello", Valid(m), timestamp, true).1)| == |m| + 1
  {
    ParseExample();
    WriteSize(Valid(m), timestamp, map["name" := "bob", "text" := "hello"], true);
  }

  /**
   * `GET /read` over a store holding one record renders exactly that
   * record, and the template's `format_date` shows its key as
   * `Jan 01, 2023 00:00:00`.
   */
  lemma ReadExample(fileExists: string -> bool)
    ensures GetResponse(RouteGet("/read", fileExists), "/read",
                        Contents(Valid(map["2023-01-01 00:00:00.000000" := map["name" := "alice", "text" := "hi"]])))
      == Rendered(200, "read.html", map["2023-01-01 00:00:00.000000" := map["name" := "alice", "text" := "hi"]])
    ensures Dates.FormatDate("2023-01-01 00:00:00.000000") == Some("Jan 01, 2023 00:00:00")
  {
    Dates.FormatDateExample();
  }
}
