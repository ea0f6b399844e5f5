/** `RequestRouter.HandleClientAsync` end to end: one request is read from the
    connection, dispatched, and answered on the same connection. The page
    renderer, JSON serialisation, reading manifests and the clock are parameters
    of the host. */
module Server {
  import opened Wrappers
  import opened Encoding
  import opened Text
  import opened Paths
  import opened FileSystems
  import opened Connections
  import opened Requests
  import opened Manifests
  import opened Response
  import opened Routing
  import opened Api
  import ContentTypes
  import Uploads

  /** What a request is served with besides the connection and the disk: the web root
      and working directory, the port shown on the home page, the `Date` value and line
      ending of the header, the renderer's pages, JSON serialisation and parsing,
      reading `manifest.json`, `Uri.TryCreate`, `Convert.FromBase64String`, and what
      upload identifiers are made from. */
  datatype Host = Host(
    root: string,
    cwd: string,
    port: int,
    date: string,
    newline: string,
    renderStatusPage: (string, string) -> string,
    renderRedirectPage: string -> string,
    renderHomePage: (int, seq<HostedApplication>) -> string,
    renderDirectoryListing: (string, Option<string>, seq<DirectoryEntry>, seq<DirectoryEntry>) -> string,
    serialize: ApiBody -> seq<byte>,
    manifestAt: string -> Option<WebAppManifest>,
    isAbsoluteUri: string -> bool,
    parseManifestUpdate: seq<byte> -> Json<ManifestUpdateRequest>,
    parseUploadRequest: seq<byte> -> Json<TemporaryUploadRequest>,
    base64: string -> Option<seq<byte>>,
    stamp: string,
    guid: string,
    sha256: seq<byte> -> Uploads.Digest)

  const JsonType := "application/json; charset=utf-8"

  /** A response as it goes out: nothing, an HTML page (with a `Location` for a
      redirect), or a body of some other type. */
  datatype Answer =
    | Silent
    | Page(status: string, location: Option<string>, html: string, head: bool)
    | Content(status: string, contentType: string, body: seq<byte>, head: bool)

  /** The bytes of a response: the header, then the body unless the request is HEAD. */
  function ResponseBytes(status: string, contentType: string, body: seq<byte>, head: bool, location: Option<string>,
                         date: string, newline: string): seq<byte>
  {
    AsciiBytes(HeaderText(status, date, contentType, |body|, location, newline)) + (if head then [] else body)
  }

  /** The bytes of an answer. */
  function AnswerBytes(a: Answer, date: string, newline: string): seq<byte>
  {
    match a
    case Silent => []
    case Page(status, location, html, head) => ResponseBytes(status, HtmlType, Utf8(html), head, location, date, newline)
    case Content(status, contentType, body, head) => ResponseBytes(status, contentType, body, head, None, date, newline)
  }

  /** `WriteStatusAsync`: the renderer's status page. */
  function StatusAnswer(host: Host, status: string, message: string, head: bool): Answer
  {
    Page(status, None, host.renderStatusPage(status, message), head)
  }

  /** `WriteJsonAsync`: the serialised body, never cut for HEAD. */
  function JsonAnswer(host: Host, reply: ApiReply): Answer
  {
    Content(reply.status, JsonType, host.serialize(reply.body), false)
  }

  /** The answer to an `HttpStatusException`: `{ error }` as JSON when it prefers JSON,
      the status page otherwise, both with a body. */
  function ErrorAnswer(host: Host, e: HttpStatusError): Answer
  {
    if e.preferJson then JsonAnswer(host, ErrorReply(e)) else StatusAnswer(host, e.status, e.message, false)
  }

  /** `WriteFileAsync` with the type `ContentTypeProvider` gives the file's extension. */
  function FileAnswer(path: string, content: seq<byte>, head: bool): Answer
  {
    Content("200 OK", ContentTypes.GetContentType(Some(GetExtension(path))), content, head)
  }

  /** `HandleHomeAsync`: the home page with the applications listed. */
  function HomeAnswer(host: Host, apps: seq<HostedApplication>, head: bool): Answer
  {
    Page("200 OK", None, host.renderHomePage(host.port, apps), head)
  }

  /** The answer for what a directory request shows; an `index.html` is served as a file. */
  function ViewAnswer(host: Host, decodedPath: string, files: map<string, seq<byte>>, view: DirectoryView, head: bool): Answer
    requires view.IndexFile? ==> view.path in files
  {
    match view
    case Redirect(location) => Page("301 Moved Permanently", Some(location), host.renderRedirectPage(location), head)
    case IndexFile(path) => FileAnswer(path, files[path], head)
    case Listing(parentUrl, directories, entries) =>
      Page("200 OK", None, host.renderDirectoryListing(decodedPath, parentUrl, directories, entries), head)
  }

  /** `HandleDirectoryAsync` for the directories and files the system enumerates. */
  function DirectoryAnswer(host: Host, decodedPath: string, fullPath: string, files: map<string, seq<byte>>,
                           directoryPaths: seq<string>, filePaths: seq<string>, head: bool): Answer
  {
    ViewAnswer(host, decodedPath, files, DirectoryPage(decodedPath, fullPath, files.Keys, directoryPaths, filePaths), head)
  }

  /** `paths` is a listing of the entries directly in `dir`, each once, in some order. */
  ghost predicate Enumerates(paths: seq<string>, entries: set<string>, dir: string) {
    Distinct(paths) && forall p :: p in paths <==> p in entries && DirectlyIn(p, dir)
  }

  /** Each element of a sequence without repeats occurs once. */
  lemma {:induction false} DistinctMultiplicity<T>(s: seq<T>, x: T)
    requires Distinct(s)
    ensures multiset(s)[x] == if x in s then 1 else 0
    decreases |s|
  {
    if s != [] {
      var t := s[1..];
      assert s == [s[0]] + t;
      forall i, j | 0 <= i < j < |t| ensures t[i] != t[j] {
        assert t[i] == s[i + 1] && t[j] == s[j + 1];
      }
      DistinctMultiplicity(t, x);
      forall j | 0 <= j < |t| ensures t[j] != s[0] {
        assert t[j] == s[j + 1];
      }
    }
  }

  /** Two listings of the same entries, each without repeats, are permutations of each
      other: only the order in which the system enumerates can differ. */
  lemma SameElementsSameMultiset<T>(a: seq<T>, b: seq<T>)
    requires Distinct(a) && Distinct(b)
    requires forall x :: x in a <==> x in b
    ensures multiset(a) == multiset(b)
  {
    forall x ensures multiset(a)[x] == multiset(b)[x] {
      DistinctMultiplicity(a, x);
      DistinctMultiplicity(b, x);
    }
  }

  /** `HttpResponseWriter.WriteAsync` for an answer: an HTML page is encoded as UTF-8 and
      a redirect carries its `Location`. */
  method Send(conn: Connection, answer: Answer, date: string, newline: string)
    modifies conn
    ensures conn.written == old(conn.written) + AnswerBytes(answer, date, newline)
    ensures conn.incoming == old(conn.incoming)
  {
    match answer
    case Silent =>
    case Page(status, location, html, head) =>
      WriteResponse(conn, status, HtmlType, Utf8(html), head, location, date, newline);
      assert conn.written == old(conn.written) + ResponseBytes(status, HtmlType, Utf8(html), head, location, date, newline);
    case Content(status, contentType, body, head) =>
      WriteResponse(conn, status, contentType, body, head, None, date, newline);
      assert conn.written == old(conn.written) + ResponseBytes(status, contentType, body, head, None, date, newline);
  }

  /** `HandleDirectoryAsync`: the redirect, then `index.html`, then the listing of what
      the directory holds. The answer is the same for every order the system may
      enumerate the directory in. */
  method HandleDirectory(conn: Connection, fs: FileSystem, host: Host, decodedPath: string, fullPath: string, head: bool)
    returns (answer: Answer)
    modifies conn
    ensures conn.written == old(conn.written) + AnswerBytes(answer, host.date, host.newline)
    ensures conn.incoming == old(conn.incoming)
    ensures forall ds, fsq :: Enumerates(ds, fs.dirs, fullPath) && Enumerates(fsq, fs.files.Keys, fullPath) ==>
              answer == DirectoryAnswer(host, decodedPath, fullPath, fs.files, ds, fsq, head)
  {
    var view: DirectoryView;
    var indexPath := Combine(fullPath, "index.html");
    if !EndsWithChar(decodedPath, '/') {
      view := Redirect(decodedPath + "/");
    } else if indexPath in fs.files {
      view := IndexFile(indexPath);
    } else {
      var directoryPaths := fs.GetDirectories(fullPath);
      var filePaths := fs.GetFiles(fullPath);
      view := DirectoryPage(decodedPath, fullPath, fs.files.Keys, directoryPaths, filePaths);
      forall ds, fsq | Enumerates(ds, fs.dirs, fullPath) && Enumerates(fsq, fs.files.Keys, fullPath)
        ensures DirectoryPage(decodedPath, fullPath, fs.files.Keys, ds, fsq) == view
      {
        SameElementsSameMultiset(directoryPaths, ds);
        SameElementsSameMultiset(filePaths, fsq);
        ListingIgnoresEnumerationOrder(decodedPath, fullPath, fs.files.Keys, directoryPaths, filePaths, ds, fsq);
      }
    }
    assert forall ds, fsq :: Enumerates(ds, fs.dirs, fullPath) && Enumerates(fsq, fs.files.Keys, fullPath) ==>
             DirectoryPage(decodedPath, fullPath, fs.files.Keys, ds, fsq) == view;
    var a := ViewAnswer(host, decodedPath, fs.files, view, head);
    Send(conn, a, host.date, host.newline);
    answer := a;
  }

  /** `HandleHomeAsync`: the applications of the web root, when it exists. */
  method HandleHome(conn: Connection, fs: FileSystem, host: Host, head: bool) returns (answer: Answer)
    modifies conn
    ensures conn.written == old(conn.written) + AnswerBytes(answer, host.date, host.newline)
    ensures conn.incoming == old(conn.incoming)
    ensures exists ds :: (DirectoryExists(fs.dirs, host.root) ==> Enumerates(ds, fs.dirs, host.root))
                         && answer == HomeAnswer(host, HomeApplications(DirectoryExists(fs.dirs, host.root), ds,
                                                                         host.manifestAt, host.isAbsoluteUri), head)
  {
    var rootExists := DirectoryExists(fs.dirs, host.root);
    var directoryPaths: seq<string> := [];
    if rootExists {
      directoryPaths := fs.GetDirectories(host.root);
    }
    var apps := HomeApplications(rootExists, directoryPaths, host.manifestAt, host.isAbsoluteUri);
    var a := HomeAnswer(host, apps, head);
    Send(conn, a, host.date, host.newline);
    answer := a;
    assert (rootExists ==> Enumerates(directoryPaths, fs.dirs, host.root)) && answer == HomeAnswer(host, apps, head);
  }

  /** What the API promises for a route against the disk as it was (`files`, `dirs`,
      `locked`): `None` when the endpoint throws an exception that only the connection's
      last handler catches. */
  ghost predicate ApiReplyMeets(host: Host, route: ApiRoute, body: seq<byte>, files: map<string, seq<byte>>,
                                dirs: set<string>, locked: set<string>, reply: Option<ApiReply>)
  {
    match route
    case ApiFailure(e) => reply == Some(ErrorReply(e))
    case ManifestGet(appId) => reply == Some(ManifestGetReply(dirs, host.root, appId, host.manifestAt, host.isAbsoluteUri))
    case ManifestPost(appId) =>
      && reply.Some?
      && (body == [] ==> reply.value == ErrorReply(BodyRequired))
      && (!DirectoryExists(dirs, Combine(host.root, appId)) ==> reply.value.status != "200 OK")
      && (reply.value.status == "200 OK" ==> exists m :: reply.value == ManifestReply(appId, Some(m), host.isAbsoluteUri))
    case UploadPost =>
      && reply.Some?
      && (body == [] ==> reply.value == ErrorReply(BodyRequired))
      && (reply.value.status == "200 OK" ==> reply.value.body.UploadBody?)
    case UploadDelete(identifier) =>
      var dir := Uploads.TemporaryUploadsDirectory(host.root);
      var found := Uploads.FoundUploads(files, dirs, dir, host.cwd, identifier);
      && (IsBlank(identifier) ==> reply == Some(ErrorReply(IdentifierRequired)))
      && (!IsBlank(identifier) ==>
            && (reply.None? <==> dir in dirs && found.Fail?)
            && (reply.Some? ==> reply.value.status == "200 OK" && reply.value.body.DeletedBody?)
            && (dir in dirs && found.Ok? && found.value != {} && found.value !! locked
                ==> reply == Some(ApiReply("200 OK", DeletedBody(true)))))
  }

  /** The endpoint an API route names, run against the disk: its reply, the error its
      route or handler ends in, or no reply when the handler throws. */
  method RunApi(fs: FileSystem, host: Host, route: ApiRoute, body: seq<byte>) returns (reply: Option<ApiReply>)
    modifies fs
    ensures ApiReplyMeets(host, route, body, old(fs.files), old(fs.dirs), old(fs.locked), reply)
    ensures route.ApiFailure? || route.ManifestGet? ==> fs.files == old(fs.files) && fs.dirs == old(fs.dirs)
    ensures fs.locked == old(fs.locked)
  {
    match route
    case ApiFailure(e) =>
      reply := Some(ErrorReply(e));
    case ManifestGet(appId) =>
      reply := Some(ManifestGetReply(fs.dirs, host.root, appId, host.manifestAt, host.isAbsoluteUri));
    case ManifestPost(appId) =>
      var current := host.manifestAt(Combine(host.root, appId));
      var post := HandleManifestPost(fs, host.root, host.cwd, appId, body, host.parseManifestUpdate, current,
                                     host.base64, host.stamp, host.guid, host.sha256);
      if post.SaveManifest? {
        reply := Some(ManifestReply(appId, Some(post.manifest), host.isAbsoluteUri));
        assert reply.value == ManifestReply(appId, Some(post.manifest), host.isAbsoluteUri);
      } else {
        reply := Some(ErrorReply(post.error));
      }
    case UploadPost =>
      var r := HandleUploadPost(fs, host.root, body, host.parseUploadRequest, host.base64, host.stamp,
                                host.guid, host.sha256);
      reply := Some(r);
    case UploadDelete(identifier) =>
      reply := HandleUploadDelete(fs, host.root, host.cwd, identifier);
  }

  /** `HandleClientAsync` for a request that was read: dispatched as `Route` says and
      answered with the status page, the API's JSON, the home page, the directory or the
      file. Only the API changes the disk. */
  method Serve(conn: Connection, fs: FileSystem, host: Host, request: HttpRequest) returns (answer: Answer)
    modifies conn, fs
    ensures conn.written == old(conn.written) + AnswerBytes(answer, host.date, host.newline)
    ensures var d := Route(request, host.root, host.cwd, old(fs.dirs), old(fs.files).Keys);
            && (d.StatusPage? ==> answer == StatusAnswer(host, d.status, d.message, d.head))
            && (d.FileAt? ==> d.fullPath in old(fs.files) && answer == FileAnswer(d.fullPath, old(fs.files)[d.fullPath], d.head))
            && (d.DirectoryAt? ==>
                  forall ds, fsq :: Enumerates(ds, old(fs.dirs), d.fullPath) && Enumerates(fsq, old(fs.files).Keys, d.fullPath)
                    ==> answer == DirectoryAnswer(host, d.decodedPath, d.fullPath, old(fs.files), ds, fsq, d.head))
            && (d.HomePage? ==>
                  exists ds :: (DirectoryExists(old(fs.dirs), host.root) ==> Enumerates(ds, old(fs.dirs), host.root))
                               && answer == HomeAnswer(host, HomeApplications(DirectoryExists(old(fs.dirs), host.root), ds,
                                                                               host.manifestAt, host.isAbsoluteUri), d.head))
            && (d == ToApi ==>
                  exists reply :: ApiReplyMeets(host, RouteApi(request.httpMethod, request.path), request.body,
                                                old(fs.files), old(fs.dirs), old(fs.locked), reply)
                                  && answer == if reply.Some? then JsonAnswer(host, reply.value) else Silent)
            && (d == Unhandled ==> answer == Silent)
    ensures Route(request, host.root, host.cwd, old(fs.dirs), old(fs.files).Keys) != ToApi ==>
              fs.files == old(fs.files) && fs.dirs == old(fs.dirs)
    ensures fs.locked == old(fs.locked)
  {
    var d := Route(request, host.root, host.cwd, fs.dirs, fs.files.Keys);
    match d
    case StatusPage(status, message, head) =>
      answer := StatusAnswer(host, status, message, head);
      Send(conn, answer, host.date, host.newline);
    case ToApi =>
      var reply := RunApi(fs, host, RouteApi(request.httpMethod, request.path), request.body);
      answer := if reply.Some? then JsonAnswer(host, reply.value) else Silent;
      Send(conn, answer, host.date, host.newline);
    case HomePage(head) =>
      answer := HandleHome(conn, fs, host, head);
    case DirectoryAt(decodedPath, fullPath, head) =>
      answer := HandleDirectory(conn, fs, host, decodedPath, fullPath, head);
    case FileAt(fullPath, head) =>
      answer := FileAnswer(fullPath, fs.files[fullPath], head);
      Send(conn, answer, host.date, host.newline);
    case Unhandled =>
      answer := Silent;
  }

  /** `HandleClientAsync`: read one request; say nothing when the client sent none; answer
      a request the reader refused with its error; otherwise serve it. */
  method HandleClient(conn: Connection, fs: FileSystem, host: Host) returns (answer: Answer)
    modifies conn, fs
    ensures var read := ReadRequestSpec(old(conn.incoming)).0;
            && (read.NoRequest? ==> conn.written == old(conn.written) && fs.files == old(fs.files) && fs.dirs == old(fs.dirs))
            && (read.Rejected? ==>
                  conn.written == old(conn.written) + AnswerBytes(ErrorAnswer(host, read.error), host.date, host.newline)
                  && fs.files == old(fs.files) && fs.dirs == old(fs.dirs))
            && (read.Received? ==> conn.written == old(conn.written) + AnswerBytes(answer, host.date, host.newline))
    ensures fs.locked == old(fs.locked)
  {
    var read := ReadRequest(conn);
    match read
    case NoRequest =>
      answer := Silent;
    case Rejected(e) =>
      answer := ErrorAnswer(host, e);
      Send(conn, answer, host.date, host.newline);
    case Received(request) =>
      answer := Serve(conn, fs, host, request);
  }
}
