/** The decisions `RequestRouter` takes about a request it has read, as values:
    where a request goes (`HandleClientAsync`), which API endpoint it names
    (`HandleApiRequestAsync`), what a directory request shows
    (`HandleDirectoryAsync`, `HandleHomeAsync`), how a manifest update is
    merged (`HandleManifestPostAsync`, `ProcessImageUpdate`) and which file an
    old image URL names (`TryDeleteAppImage`). The methods that act on these
    decisions are in the `Server` module. */
module Routing {
  import opened Wrappers
  import opened Encoding
  import opened Text
  import opened Ordering
  import opened Paths
  import UriEscaping
  import opened Manifests
  import Uploads
  import opened Requests
  import opened FileSystems

  // ---------------------------------------------------------------------
  // Names and identifiers

  /** `IsSystemDirectory`: a name starting with `_` or `.` is not an application. */
  predicate IsSystemDirectory(name: string) {
    |name| > 0 && (name[0] == '_' || name[0] == '.')
  }

  const InvalidAppId := HttpStatusError("400 Bad Request", "Invalid application identifier.", true)

  /** A character of a text that contains `t` is a character of that text. */
  lemma ContainedCharOccurs<T>(s: seq<T>, t: seq<T>, k: nat)
    requires Contains(s, t) && k < |t|
    ensures t[k] in s
  {
    var i := IndexOf(s, t);
    assert s[i..i + |t|][k] == s[i + k];
  }

  /** `EnsureValidAppId`: the error it throws, if any. The checks for `../` and `..\`
      never decide anything, because a `/` or `\` alone is already refused: an identifier
      is accepted exactly when it is not blank and holds no separator. */
  function AppIdError(appId: string): (r: Option<HttpStatusError>)
    ensures r.None? <==> !IsBlank(appId) && '/' !in appId && '\\' !in appId
    ensures r.Some? ==> r.value == InvalidAppId
  {
    assert Contains(appId, "../") ==> '/' in appId by {
      if Contains(appId, "../") { ContainedCharOccurs(appId, "../", 2); }
    }
    assert Contains(appId, "..\\") ==> '\\' in appId by {
      if Contains(appId, "..\\") { ContainedCharOccurs(appId, "..\\", 2); }
    }
    if IsBlank(appId) || Contains(appId, "../") || Contains(appId, "..\\") || '/' in appId || '\\' in appId
    then Some(InvalidAppId)
    else None
  }
  // ---------------------------------------------------------------------
  // Links in a directory listing

  /** The base path with a `/` added unless it already ends with one. */
  function DirectoryUrl(basePath: string): (r: string)
    ensures EndsWithChar(r, '/') && StartsWith(r, basePath) && |r| <= |basePath| + 1
  {
    if EndsWithChar(basePath, '/') then basePath else basePath + "/"
  }

  /** `CombineUrl`: the escaped name after the base path, separated by exactly one `/`;
      a directory link also ends with `/`. */
  function CombineUrl(basePath: string, name: string, appendSlash: bool): (r: string)
    ensures StartsWith(r, DirectoryUrl(basePath))
    ensures appendSlash ==> EndsWithChar(r, '/')
    ensures !appendSlash && name != [] ==> !EndsWithChar(r, '/')
  {
    var combined := DirectoryUrl(basePath) + UriEscaping.Escape(name);
    if appendSlash && !EndsWithChar(combined, '/') then combined + "/" else combined
  }

  /** `GetParentUrl`: none for `/`; otherwise the path without its trailing slashes, cut
      after its last `/`, or `/` when that slash is the first character or missing. The
      parent is a proper prefix of the path. */
  function GetParentUrl(requestPath: string): (r: Option<string>)
    ensures r.None? <==> requestPath == "/"
    ensures r.Some? ==> EndsWithChar(r.value, '/')
    ensures r.Some? && r.value != "/" ==>
              StartsWith(requestPath, r.value) && |r.value| < |TrimEndChar(requestPath, '/')|
  {
    if requestPath == "/" then None
    else
      var trimmed := TrimEndChar(requestPath, '/');
      var lastSlash := LastIndexOfChar(trimmed, '/');
      if lastSlash <= 0 then Some("/")
      else
        assert trimmed[..lastSlash] + "/" == trimmed[..lastSlash + 1];
        Some(trimmed[..lastSlash] + "/")
  }

  /** The text of a link without its trailing `/`: the base directory and the escaped name. */
  lemma CombineUrlTrimmed(basePath: string, name: string, appendSlash: bool)
    requires name != []
    ensures TrimEndChar(CombineUrl(basePath, name, appendSlash), '/')
            == DirectoryUrl(basePath) + UriEscaping.Escape(name)
  {
    var e := UriEscaping.Escape(name);
    var combined := DirectoryUrl(basePath) + e;
    assert e != [] && e[|e| - 1] != '/';
    assert EndsWithChar(combined, '/') == false;
    if appendSlash {
      assert (combined + "/")[..|combined + "/"| - 1] == combined;
    }
  }

  /** The last `/` of a directory path followed by a name without one ends the directory path. */
  lemma LastSlashOfName(d: string, e: string)
    requires EndsWithChar(d, '/') && '/' !in e
    ensures LastIndexOfChar(d + e, '/') == |d| - 1
  {
    var s := d + e;
    var i := LastIndexOfChar(s, '/');
    assert s[|d| - 1] == '/';
  }

  /** A path that is a directory path and a name, once trailing slashes are cut, has
      that directory path as its parent. */
  lemma ParentOfEntry(url: string, d: string, e: string)
    requires url != "/" && TrimEndChar(url, '/') == d + e
    requires EndsWithChar(d, '/') && '/' !in e
    ensures GetParentUrl(url) == Some(d)
  {
    LastSlashOfName(d, e);
    if |d| - 1 > 0 {
      assert (d + e)[..|d| - 1] + "/" == d;
    } else {
      assert d == "/";
    }
  }

  /** The parent of a listing link is the directory the listing shows. */
  lemma ParentOfCombineUrl(basePath: string, name: string, appendSlash: bool)
    requires name != []
    ensures GetParentUrl(CombineUrl(basePath, name, appendSlash)) == Some(DirectoryUrl(basePath))
  {
    var url := CombineUrl(basePath, name, appendSlash);
    var e := UriEscaping.Escape(name);
    CombineUrlTrimmed(basePath, name, appendSlash);
    assert |TrimEndChar(url, '/')| >= 2;
    ParentOfEntry(url, DirectoryUrl(basePath), e);
  }

  /** The name in a listing link decodes back to the entry's name. */
  lemma CombineUrlName(basePath: string, name: string, appendSlash: bool)
    requires name != []
    ensures UriEscaping.Unescape(TrimEndChar(CombineUrl(basePath, name, appendSlash), '/')[|DirectoryUrl(basePath)|..]) == name
  {
    CombineUrlTrimmed(basePath, name, appendSlash);
    var d := DirectoryUrl(basePath);
    assert (d + UriEscaping.Escape(name))[|d|..] == UriEscaping.Escape(name);
    UriEscaping.UnescapeEscape(name);
  }
  // ---------------------------------------------------------------------
  // Comparisons that ignore case

  /** `string.Equals(s, x, StringComparison.OrdinalIgnoreCase)` for a literal `x` whose
      case-folded form is `folded`; the `Folded…` lemmas relate each literal the router
      compares with to its folded form. */
  predicate MatchesFolded(s: string, folded: string) {
    Fold(s) == folded
  }

  lemma FoldsEach(s: string, t: string)
    requires |s| == |t| && forall i :: 0 <= i < |s| ==> Upper(s[i]) == t[i]
    ensures Fold(s) == t
  {
  }

  /** The folded forms of the literals `HandleClientAsync` and `HandleApiRequestAsync`
      compare with, one lemma each. */
  lemma FoldedIndexHtml()
    ensures Fold("/index.html") == "/INDEX.HTML"
  {
    forall i | 0 <= i < 11 ensures Upper("/index.html"[i]) == "/INDEX.HTML"[i] {
      assert i in {0, 1, 2, 3, 4, 5, 6, 7, 8, 9, 10};
    }
    FoldsEach("/index.html", "/INDEX.HTML");
  }

  lemma FoldedApiPrefix()
    ensures Fold("/api/") == "/API/"
  {
  }

  lemma FoldedMethods()
    ensures Fold("GET") == "GET" && Fold("HEAD") == "HEAD" && Fold("POST") == "POST" && Fold("DELETE") == "DELETE"
  {
  }

  lemma FoldedSegments()
    ensures Fold("apps") == "APPS" && Fold("temp") == "TEMP"
  {
  }

  lemma FoldedManifest()
    ensures Fold("manifest") == "MANIFEST"
  {
    forall i | 0 <= i < 8 ensures Upper("manifest"[i]) == "MANIFEST"[i] {
      assert i in {0, 1, 2, 3, 4, 5, 6, 7};
    }
    FoldsEach("manifest", "MANIFEST");
  }

  lemma FoldedUploads()
    ensures Fold("uploads") == "UPLOADS"
  {
    forall i | 0 <= i < 7 ensures Upper("uploads"[i]) == "UPLOADS"[i] {
      assert i in {0, 1, 2, 3, 4, 5, 6};
    }
    FoldsEach("uploads", "UPLOADS");
  }

  /** `StartsWith(s, x, StringComparison.OrdinalIgnoreCase)` for a literal `x` folded to `folded`. */
  predicate StartsWithFolded(s: string, folded: string) {
    StartsWith(Fold(s), folded)
  }

  // ---------------------------------------------------------------------
  // HandleClientAsync

  /** What `HandleClientAsync` does with a request it has read. */
  datatype Dispatch =
    | StatusPage(status: string, message: string, head: bool)
    | ToApi
    | HomePage(head: bool)
    | DirectoryAt(decodedPath: string, fullPath: string, head: bool)
    | FileAt(fullPath: string, head: bool)
    /** An exception only the connection's last handler catches: it is logged and
        nothing is written. */
    | Unhandled

  predicate IsGetOrHead(httpMethod: string) {
    MatchesFolded(httpMethod, "GET") || MatchesFolded(httpMethod, "HEAD")
  }

  /** The request path with its leading slashes cut. */
  function RelativePath(decodedPath: string): string
  {
    TrimStartChar(decodedPath, '/')
  }

  /** The file-system path a decoded request path names: leading slashes cut, combined
      with the web root, made a full path against the working directory. (Replacing `/`
      by the directory separator changes nothing on Unix.) */
  function ResolvedPath(root: string, cwd: string, decodedPath: string): string
  {
    FullPath(cwd, Combine(root, RelativePath(decodedPath)))
  }

  /** The checks after decoding: containment, then directory, file, not found. */
  function StaticRoute(decodedPath: string, rootFull: string, fullPath: string, head: bool,
                       dirs: set<string>, files: set<string>): (d: Dispatch)
    ensures d.StatusPage? || d.DirectoryAt? || d.FileAt?
    ensures d.head == head
    ensures d.StatusPage? <==> !StartsWith(fullPath, rootFull) || (!DirectoryExists(dirs, fullPath) && fullPath !in files)
  {
    if !StartsWith(fullPath, rootFull) then StatusPage("403 Forbidden", "Access denied.", head)
    else if DirectoryExists(dirs, fullPath) then DirectoryAt(decodedPath, fullPath, head)
    else if fullPath in files then FileAt(fullPath, head)
    else StatusPage("404 Not Found", "The requested resource was not found.", head)
  }

  /** The static part of `HandleClientAsync`, for the decoded path: it is resolved and
      checked. `GetFullPath` throws `ArgumentException` for a path with a NUL in it. */
  function StaticRequest(decodedPath: string, head: bool, root: string, cwd: string, dirs: set<string>, files: set<string>): (d: Dispatch)
    ensures d.StatusPage? || d.DirectoryAt? || d.FileAt? || d.Unhandled?
    ensures d.Unhandled? <==> '\0' in Combine(root, RelativePath(decodedPath))
    ensures !d.Unhandled? ==> d.head == head
    ensures d.DirectoryAt? || d.FileAt? ==>
              d.fullPath == ResolvedPath(root, cwd, decodedPath) && StartsWith(d.fullPath, FullPath(cwd, root))
    ensures d.DirectoryAt? ==> d.decodedPath == decodedPath && DirectoryExists(dirs, d.fullPath)
    ensures d.FileAt? ==> d.fullPath in files && !DirectoryExists(dirs, d.fullPath)
  {
    if '\0' in Combine(root, RelativePath(decodedPath)) then Unhandled
    else StaticRoute(decodedPath, FullPath(cwd, root), ResolvedPath(root, cwd, decodedPath), head, dirs, files)
  }

  /** `HandleClientAsync` for a request outside the API: the method check, the home page,
      then the static checks on the decoded path. */
  function PageRoute(request: HttpRequest, root: string, cwd: string, dirs: set<string>, files: set<string>): (d: Dispatch)
    ensures d != ToApi
    ensures d.HomePage? || d.DirectoryAt? || d.FileAt? ==>
              IsGetOrHead(request.httpMethod) && d.head == MatchesFolded(request.httpMethod, "HEAD")
    ensures d.HomePage? <==> IsGetOrHead(request.httpMethod) && (request.path == "/" || MatchesFolded(request.path, "/INDEX.HTML"))
    ensures d.DirectoryAt? || d.FileAt? ==> d == StaticRequest(UriEscaping.Unescape(request.path), d.head, root, cwd, dirs, files)
  {
    var isHead := MatchesFolded(request.httpMethod, "HEAD");
    if !MatchesFolded(request.httpMethod, "GET") && !isHead then
      StatusPage("405 Method Not Allowed", "Only GET and HEAD are supported.", isHead)
    else if request.path == "/" || MatchesFolded(request.path, "/INDEX.HTML") then HomePage(isHead)
    else StaticRequest(UriEscaping.Unescape(request.path), isHead, root, cwd, dirs, files)
  }

  /** `HandleClientAsync` after the request is read: the `..` check on the raw path, the
      API prefix, then the page checks. Decoding does not fail here (see
      `UriEscaping.Unescape`). */
  function Route(request: HttpRequest, root: string, cwd: string, dirs: set<string>, files: set<string>): (d: Dispatch)
    ensures Contains(request.path, "..") ==> d == StatusPage("400 Bad Request", "Invalid path.", false)
    ensures d == ToApi <==> !Contains(request.path, "..") && StartsWithFolded(request.path, "/API/")
    ensures d.HomePage? || d.DirectoryAt? || d.FileAt? ==>
              !Contains(request.path, "..") && !StartsWithFolded(request.path, "/API/")
              && d == PageRoute(request, root, cwd, dirs, files)
  {
    if Contains(request.path, "..") then StatusPage("400 Bad Request", "Invalid path.", false)
    else if StartsWithFolded(request.path, "/API/") then ToApi
    else PageRoute(request, root, cwd, dirs, files)
  }

  /** Every path below the root passes the containment check: it is not too strict. */
  lemma PathBelowRootPasses(decodedPath: string, rootFull: string, fullPath: string, head: bool,
                            dirs: set<string>, files: set<string>)
    requires Below(fullPath, rootFull) || fullPath == rootFull
    ensures StaticRoute(decodedPath, rootFull, fullPath, head, dirs, files) != StatusPage("403 Forbidden", "Access denied.", head)
  {
    if Below(fullPath, rootFull) {
      assert fullPath[..|rootFull|] == (rootFull + "/")[..|rootFull|];
    }
  }

  /** But the check is a prefix test on text, not a test for lying below the root: a
      sibling of the root whose name extends the root's name passes it and is served. */
  lemma SiblingOfRootPasses(decodedPath: string, rootFull: string, suffix: string, head: bool,
                            dirs: set<string>, files: set<string>)
    requires suffix != [] && suffix[0] != '/'
    requires rootFull + suffix in files && !DirectoryExists(dirs, rootFull + suffix)
    ensures !Below(rootFull + suffix, rootFull) && rootFull + suffix != rootFull
    ensures StaticRoute(decodedPath, rootFull, rootFull + suffix, head, dirs, files) == FileAt(rootFull + suffix, head)
  {
    var p := rootFull + suffix;
    assert p[|rootFull|] == suffix[0];
    assert p[..|rootFull|] == rootFull;
  }

  /** A path without `.` contains no `..`. */
  lemma NoDotNoParent(path: string)
    requires '.' !in path
    ensures !Contains(path, "..")
  {
    forall i | 0 <= i <= |path|
      ensures !OccursAt(path, "..", i)
    {
      if i + 2 <= |path| {
        assert path[i..i + 2][0] == path[i] && path[i] in path;
      }
    }
  }

  /** The text facts about `/%2E%2E/<sibling>/<name>`: no `..` in it, not the API or the home
      page, and it decodes to `/../<sibling>/<name>`. */
  lemma EncodedParentPath(sibling: string, name: string)
    requires '.' !in sibling && '%' !in sibling && '.' !in name && '%' !in name
    ensures var path := "/%2E%2E/" + sibling + "/" + name;
            !Contains(path, "..") && !StartsWithFolded(path, "/API/")
            && path != "/" && !MatchesFolded(path, "/INDEX.HTML")
            && UriEscaping.Unescape(path) == "/../" + sibling + "/" + name
  {
    var rest := "/" + sibling + "/" + name;
    var path := "/%2E%2E/" + sibling + "/" + name;
    assert path == "/%2E%2E" + rest;
    assert '%' !in rest && '.' !in rest;
    assert '.' !in path by {
      assert forall k :: 0 <= k < |path| ==> path[k] in "/%2E" || path[k] in rest;
    }
    NoDotNoParent(path);
    UriEscaping.UnescapeEncodedDots(rest);
    assert "/.." + rest == "/../" + sibling + "/" + name;
    assert Fold(path)[1] == '%';
  }

  /** The decoded `/../<sibling>/<name>` resolves beside the web root `<parent>/<last>`,
      to `<parent>/<sibling>/<name>`; the root is its own full path. */
  lemma ParentRequestResolves(cwd: string, init: seq<string>, last: string, sibling: string, name: string)
    requires forall k :: 0 <= k < |init| ==> IsPlainSegment(init[k])
    requires IsPlainSegment(last) && IsPlainSegment(sibling) && IsPlainSegment(name)
    ensures var root, decoded := Rooted(init + [last]), "/../" + sibling + "/" + name;
            Combine(root, RelativePath(decoded)) == root + "/../" + sibling + "/" + name
            && ResolvedPath(root, cwd, decoded) == Rooted(init + [sibling, name])
            && FullPath(cwd, root) == root
  {
    var root := Rooted(init + [last]);
    var decoded := "/../" + sibling + "/" + name;
    var relative := "../" + sibling + "/" + name;
    assert decoded == "/" + relative && relative[0] == '.';
    assert RelativePath(decoded) == relative by {
      assert decoded[1..] == relative;
    }
    RootedSegments(init + [last]);
    assert Combine(root, relative) == root + "/" + relative;
    assert root + "/" + relative == root + "/../" + sibling + "/" + name;
    ParentOfRootIsSibling(cwd, init, last, sibling, name);
  }

  /** A GET of a path that is neither the API, nor the home page, nor holds `..` is the static
      request for its decoded path. */
  lemma GetIsStatic(path: string, root: string, cwd: string, dirs: set<string>, files: set<string>)
    requires !Contains(path, "..") && !StartsWithFolded(path, "/API/") && path != "/" && !MatchesFolded(path, "/INDEX.HTML")
    ensures Route(HttpRequest("GET", path, path, map[], []), root, cwd, dirs, files)
            == StaticRequest(UriEscaping.Unescape(path), false, root, cwd, dirs, files)
  {
    FoldedMethods();
    assert !MatchesFolded("GET", "HEAD");
  }

  /** A decoded path that resolves, without a NUL, to a file that starts with the root's text
      is served as that file. */
  lemma ResolvedFileIsServed(decodedPath: string, root: string, cwd: string, target: string,
                             dirs: set<string>, files: set<string>)
    requires '\0' !in Combine(root, RelativePath(decodedPath))
    requires ResolvedPath(root, cwd, decodedPath) == target && StartsWith(target, FullPath(cwd, root))
    requires target in files && !DirectoryExists(dirs, target)
    ensures StaticRequest(decodedPath, false, root, cwd, dirs, files) == FileAt(target, false)
  {
  }

  /** The `..` check runs on the raw path, before decoding. So `/%2E%2E/<sibling>/<name>`
      passes it, decodes to `/../<sibling>/<name>` and resolves beside the web root; when the
      sibling's name extends the root's last segment, the prefix test lets it through too,
      and a file there that lies outside the root is served. */
  lemma EncodedParentReachesSibling(cwd: string, init: seq<string>, last: string, suffix: string, name: string,
                                    dirs: set<string>, files: set<string>)
    requires forall k :: 0 <= k < |init| ==> IsPlainSegment(init[k])
    requires IsPlainSegment(last) && IsPlainSegment(name) && suffix != [] && Separator !in suffix
    requires '.' !in last + suffix && '%' !in last + suffix && '.' !in name && '%' !in name
    requires '\0' !in Rooted(init + [last]) && '\0' !in last + suffix && '\0' !in name
    requires Rooted(init + [last + suffix, name]) in files && !DirectoryExists(dirs, Rooted(init + [last + suffix, name]))
    ensures var path, root := "/%2E%2E/" + (last + suffix) + "/" + name, Rooted(init + [last]);
            var target := Rooted(init + [last + suffix, name]);
            !Contains(path, "..") && !Below(target, root)
            && Route(HttpRequest("GET", path, path, map[], []), root, cwd, dirs, files) == FileAt(target, false)
  {
    var sibling := last + suffix;
    var path := "/%2E%2E/" + sibling + "/" + name;
    var root := Rooted(init + [last]);
    var target := Rooted(init + [sibling, name]);
    var decoded := "/../" + sibling + "/" + name;
    assert IsPlainSegment(sibling) by {
      assert sibling != "." && sibling != ".." by {
        assert sibling[0] in sibling;
      }
    }
    EncodedParentPath(sibling, name);
    GetIsStatic(path, root, cwd, dirs, files);
    ParentRequestResolves(cwd, init, last, sibling, name);
    assert '\0' !in root + "/../" + sibling + "/" + name;
    SiblingExtendsRoot(init, last, suffix, name);
    assert StartsWith(target, FullPath(cwd, root));
    ResolvedFileIsServed(decoded, root, cwd, target, dirs, files);
    assert Route(HttpRequest("GET", path, path, map[], []), root, cwd, dirs, files) == FileAt(target, false);
    NextNotSeparator(target, root);
  }

  /** A path whose character after `dir`'s text is not a separator does not lie below `dir`. */
  lemma NextNotSeparator(p: string, dir: string)
    requires |dir| < |p| && p[|dir|] != Separator
    ensures !Below(p, dir)
  {
    if |p| > |dir| + 1 {
      assert p[..|dir| + 1][|dir|] == p[|dir|];
    }
  }

  // ---------------------------------------------------------------------
  // HandleApiRequestAsync

  /** The endpoint an API request names, or the error it is refused with. */
  datatype ApiRoute =
    | ManifestGet(appId: string)
    | ManifestPost(appId: string)
    | UploadPost
    | UploadDelete(identifier: string)
    | ApiFailure(error: HttpStatusError)

  const HeadNotAllowed := HttpStatusError("405 Method Not Allowed", "HEAD is not supported for API endpoints.", true)
  const ManifestMethodNotAllowed := HttpStatusError("405 Method Not Allowed", "Only GET and POST are allowed for manifest endpoints.", true)
  const ApiNotFound := HttpStatusError("404 Not Found", "API endpoint not found.", true)

  /** `api/apps/<id>/manifest`, the first segment not checked. */
  predicate IsManifestPath(segments: seq<string>) {
    |segments| == 4 && MatchesFolded(segments[1], "APPS") && MatchesFolded(segments[3], "MANIFEST")
  }

  /** `api/uploads/temp`. */
  predicate IsUploadsPath(segments: seq<string>) {
    |segments| == 3 && MatchesFolded(segments[1], "UPLOADS") && MatchesFolded(segments[2], "TEMP")
  }

  /** `api/uploads/temp/<id>`. */
  predicate IsUploadPath(segments: seq<string>) {
    |segments| == 4 && MatchesFolded(segments[1], "UPLOADS") && MatchesFolded(segments[2], "TEMP")
  }

  /** `HandleApiRequestAsync` on the raw path's non-empty segments: every request is either
      one of the four endpoints, with its method and shape, or refused with the error its
      shape and method call for. */
  function RouteApi(httpMethod: string, path: string): (r: ApiRoute)
    ensures var segments := SplitNonEmpty(path, '/');
            && (MatchesFolded(httpMethod, "HEAD") ==> r == ApiFailure(HeadNotAllowed))
            && (r.ManifestGet? || r.ManifestPost? ==>
                  IsManifestPath(segments) && r.appId == segments[2] && !IsBlank(r.appId)
                  && '/' !in r.appId && MatchesFolded(httpMethod, if r.ManifestGet? then "GET" else "POST"))
            && (r == UploadPost ==> IsUploadsPath(segments) && MatchesFolded(httpMethod, "POST"))
            && (r.UploadDelete? ==> IsUploadPath(segments) && r.identifier == segments[3] && MatchesFolded(httpMethod, "DELETE"))
            && (!MatchesFolded(httpMethod, "HEAD") && IsManifestPath(segments) ==>
                  if IsBlank(segments[2]) || '\\' in segments[2] then r == ApiFailure(InvalidAppId)
                  else if MatchesFolded(httpMethod, "GET") then r == ManifestGet(segments[2])
                  else if MatchesFolded(httpMethod, "POST") then r == ManifestPost(segments[2])
                  else r == ApiFailure(ManifestMethodNotAllowed))
            && (!MatchesFolded(httpMethod, "HEAD") && IsUploadsPath(segments) && MatchesFolded(httpMethod, "POST") ==> r == UploadPost)
            && (!MatchesFolded(httpMethod, "HEAD") && IsUploadPath(segments) && MatchesFolded(httpMethod, "DELETE") ==> r == UploadDelete(segments[3]))
            && (r.ApiFailure? && r.error != HeadNotAllowed && r.error != InvalidAppId && r.error != ManifestMethodNotAllowed ==>
                  r.error == ApiNotFound)
  {
    if MatchesFolded(httpMethod, "HEAD") then ApiFailure(HeadNotAllowed)
    else
      var segments := SplitNonEmpty(path, '/');
      if |segments| >= 3 && MatchesFolded(segments[1], "APPS") then
        if |segments| == 4 && MatchesFolded(segments[3], "MANIFEST") then
          var appId := segments[2];
          if AppIdError(appId).Some? then ApiFailure(InvalidAppId)
          else if MatchesFolded(httpMethod, "GET") then ManifestGet(appId)
          else if MatchesFolded(httpMethod, "POST") then ManifestPost(appId)
          else ApiFailure(ManifestMethodNotAllowed)
        else ApiFailure(ApiNotFound)
      else if |segments| >= 3 && MatchesFolded(segments[1], "UPLOADS") then
        if |segments| == 3 && MatchesFolded(httpMethod, "POST") && MatchesFolded(segments[2], "TEMP") then UploadPost
        else if |segments| == 4 && MatchesFolded(httpMethod, "DELETE") && MatchesFolded(segments[2], "TEMP") then
          UploadDelete(segments[3])
        else ApiFailure(ApiNotFound)
      else ApiFailure(ApiNotFound)
  }

  /** The segments of `/` followed by pieces joined with `/`, when no piece is empty or
      holds a `/`, are the pieces. */
  lemma SegmentsOfJoined(parts: seq<string>)
    requires parts != []
    requires forall k :: 0 <= k < |parts| ==> parts[k] != [] && '/' !in parts[k]
    ensures SplitNonEmpty("/" + Join(parts, "/"), '/') == parts
  {
    var s := "/" + Join(parts, "/");
    assert IndexOfChar(s, '/') == 0 by { assert s[0] == '/'; }
    assert s[1..] == Join(parts, "/");
    SplitJoin(parts, '/');
    assert Split(s, '/') == [[]] + parts;
    NonEmptyKeepsAll(parts);
    assert NonEmpty([[]] + parts) == NonEmpty(parts);
  }

  /** Four pieces joined with `/` after a leading `/`. */
  lemma JoinedFour(a: string, b: string, c: string, d: string)
    ensures "/" + a + "/" + b + "/" + c + "/" + d == "/" + Join([a, b, c, d], "/")
  {
    assert [a, b, c, d][1..] == [b, c, d];
    assert [b, c, d][1..] == [c, d];
    assert [c, d][1..] == [d];
    assert Join([c, d], "/") == c + "/" + d;
    assert Join([b, c, d], "/") == b + "/" + (c + "/" + d);
    assert Join([a, b, c, d], "/") == a + "/" + (b + "/" + (c + "/" + d));
  }

  /** The manifest URL of an application is routed to its manifest endpoint, for the
      methods the endpoint takes. */
  lemma ManifestEndpointRouted(httpMethod: string, appId: string)
    requires !IsBlank(appId) && '/' !in appId && '\\' !in appId
    requires MatchesFolded(httpMethod, "GET") || MatchesFolded(httpMethod, "POST")
    ensures RouteApi(httpMethod, "/api/apps/" + appId + "/manifest")
            == if MatchesFolded(httpMethod, "GET") then ManifestGet(appId) else ManifestPost(appId)
  {
    var path := "/api/apps/" + appId + "/manifest";
    JoinedFour("api", "apps", appId, "manifest");
    assert path == "/" + "api" + "/" + "apps" + "/" + appId + "/" + "manifest";
    SegmentsOfJoined(["api", "apps", appId, "manifest"]);
    FoldedSegments();
    FoldedManifest();
    FoldedMethods();
    assert IsManifestPath(SplitNonEmpty(path, '/'));
  }

  /** A staged upload is deleted through `/api/uploads/temp/<id>`. */
  lemma UploadDeleteRouted(httpMethod: string, identifier: string)
    requires identifier != [] && '/' !in identifier
    requires MatchesFolded(httpMethod, "DELETE")
    ensures RouteApi(httpMethod, "/api/uploads/temp/" + identifier) == UploadDelete(identifier)
  {
    var path := "/api/uploads/temp/" + identifier;
    JoinedFour("api", "uploads", "temp", identifier);
    assert path == "/" + "api" + "/" + "uploads" + "/" + "temp" + "/" + identifier;
    SegmentsOfJoined(["api", "uploads", "temp", identifier]);
    FoldedSegments();
    FoldedUploads();
    FoldedMethods();
    assert IsUploadPath(SplitNonEmpty(path, '/'));
  }

  // ---------------------------------------------------------------------
  // HandleDirectoryAsync

  /** `DirectoryEntry`: the name shown, the link and whether it is a directory. */
  datatype DirectoryEntry = DirectoryEntry(name: string, url: string, isDirectory: bool)

  /** What a request for an existing directory shows. */
  datatype DirectoryView =
    | Redirect(location: string)
    | IndexFile(path: string)
    | Listing(parentUrl: Option<string>, directories: seq<DirectoryEntry>, files: seq<DirectoryEntry>)

  /** The file name of one enumerated path, unless it is blank. */
  function NameOf(path: string): (r: seq<string>)
    ensures |r| <= 1
  {
    var name := GetFileName(path);
    if IsBlank(name) then [] else [name]
  }

  /** `.Select(Path.GetFileName).Where(name => !string.IsNullOrWhiteSpace(name))`. */
  function EntryNames(paths: seq<string>): (r: seq<string>)
    ensures forall k :: 0 <= k < |r| ==> !IsBlank(r[k]) && Separator !in r[k]
  {
    if paths == [] then [] else NameOf(paths[0]) + EntryNames(paths[1..])
  }

  /** The names a listing shows: the non-blank file names in ordinal order. */
  function SortedNames(paths: seq<string>): seq<string>
  {
    SortBy(EntryNames(paths), Identity)
  }

  /** One entry per name, in the order given, each with its link below `decodedPath`. */
  function Entries(decodedPath: string, names: seq<string>, isDirectory: bool): (r: seq<DirectoryEntry>)
    ensures |r| == |names|
  {
    seq(|names|, k requires 0 <= k < |names| =>
      DirectoryEntry(if isDirectory then names[k] + "/" else names[k], CombineUrl(decodedPath, names[k], isDirectory), isDirectory))
  }

  /** `HandleDirectoryAsync` for the directory `fullPath` reached by `decodedPath`: a
      redirect to the path with a `/` added when it lacks one, before anything else; then
      its `index.html` when that file exists; otherwise a listing of the directories and
      files the file system enumerates, each group in ordinal order of name. */
  function DirectoryPage(decodedPath: string, fullPath: string, files: set<string>,
                         directoryPaths: seq<string>, filePaths: seq<string>): (v: DirectoryView)
    ensures v.Redirect? <==> !EndsWithChar(decodedPath, '/')
    ensures v.Redirect? ==> StartsWith(v.location, decodedPath) && |v.location| == |decodedPath| + 1
                            && EndsWithChar(v.location, '/')
    ensures v.IndexFile? <==> EndsWithChar(decodedPath, '/') && Combine(fullPath, "index.html") in files
    ensures v.IndexFile? ==> v.path == Combine(fullPath, "index.html")
    ensures v.Listing? ==> v.parentUrl == GetParentUrl(decodedPath)
                           && |v.directories| == |SortedNames(directoryPaths)| && |v.files| == |SortedNames(filePaths)|
  {
    if !EndsWithChar(decodedPath, '/') then Redirect(decodedPath + "/")
    else
      var indexPath := Combine(fullPath, "index.html");
      if indexPath in files then IndexFile(indexPath)
      else Listing(GetParentUrl(decodedPath), Entries(decodedPath, SortedNames(directoryPaths), true),
                   Entries(decodedPath, SortedNames(filePaths), false))
  }

  /** Following the redirect reaches the directory without a second redirect. */
  lemma RedirectIsFinal(decodedPath: string, fullPath: string, files: set<string>,
                        directoryPaths: seq<string>, filePaths: seq<string>)
    requires !EndsWithChar(decodedPath, '/')
    ensures var v := DirectoryPage(decodedPath, fullPath, files, directoryPaths, filePaths);
            v == Redirect(decodedPath + "/") && !DirectoryPage(v.location, fullPath, files, directoryPaths, filePaths).Redirect?
  {
  }

  /** The shown name of an entry: the name, with a `/` after it for a directory. */
  lemma ShownName(name: string, isDirectory: bool)
    requires name != [] && Separator !in name
    ensures var shown := if isDirectory then name + "/" else name;
            TrimEndChar(shown, '/') == name && (EndsWithChar(shown, '/') <==> isDirectory)
  {
    assert name[|name| - 1] != '/';
    if isDirectory {
      assert (name + "/")[..|name|] == name;
    }
  }

  /** Each link of a listing lies directly below the listed directory and names its entry:
      its parent is the listed path, its last segment decodes to the entry's name, and it
      ends with `/` exactly for a directory, as the shown name does. */
  lemma EntryLinks(decodedPath: string, names: seq<string>, isDirectory: bool, k: nat)
    requires EndsWithChar(decodedPath, '/') && k < |names|
    requires names[k] != [] && Separator !in names[k]
    ensures var e := Entries(decodedPath, names, isDirectory)[k];
            GetParentUrl(e.url) == Some(decodedPath)
            && UriEscaping.Unescape(TrimEndChar(e.url, '/')[|decodedPath|..]) == names[k]
            && (EndsWithChar(e.url, '/') <==> isDirectory)
            && TrimEndChar(e.name, '/') == names[k]
            && (EndsWithChar(e.name, '/') <==> isDirectory)
            && e.isDirectory == isDirectory
  {
    var name := names[k];
    var e := Entries(decodedPath, names, isDirectory)[k];
    assert e.url == CombineUrl(decodedPath, name, isDirectory);
    assert e.name == if isDirectory then name + "/" else name;
    assert DirectoryUrl(decodedPath) == decodedPath;
    ParentOfCombineUrl(decodedPath, name, isDirectory);
    CombineUrlName(decodedPath, name, isDirectory);
    ShownName(name, isDirectory);
  }

  /** The names listed are exactly the non-blank names of the enumerated paths. */
  lemma {:induction false} EntryNamesComplete(paths: seq<string>, name: string)
    ensures name in EntryNames(paths) <==> !IsBlank(name) && exists p :: p in paths && GetFileName(p) == name
  {
    if paths != [] {
      EntryNamesComplete(paths[1..], name);
      assert forall p :: p in paths <==> p == paths[0] || p in paths[1..];
    }
  }

  /** A listing shows its names in ordinal order: all the non-blank names of the
      enumerated paths and nothing else, each once per path it came from. */
  lemma SortedNamesSpec(paths: seq<string>)
    ensures SortedBy(SortedNames(paths), Identity)
    ensures multiset(SortedNames(paths)) == multiset(EntryNames(paths))
    ensures forall n :: n in SortedNames(paths) <==> !IsBlank(n) && exists p :: p in paths && GetFileName(p) == n
  {
    SortBySorted(EntryNames(paths), Identity);
    var r := SortedNames(paths);
    forall n ensures n in r <==> !IsBlank(n) && exists p :: p in paths && GetFileName(p) == n {
      assert n in r <==> n in multiset(r);
      assert n in EntryNames(paths) <==> n in multiset(EntryNames(paths));
      EntryNamesComplete(paths, n);
    }
  }

  lemma {:induction false} EntryNamesAppend(a: seq<string>, b: seq<string>)
    ensures EntryNames(a + b) == EntryNames(a) + EntryNames(b)
  {
    if a == [] {
      assert a + b == b;
    } else {
      assert (a + b)[0] == a[0] && (a + b)[1..] == a[1..] + b;
      EntryNamesAppend(a[1..], b);
      assert EntryNames(a + b) == NameOf(a[0]) + EntryNames(a[1..] + b);
    }
  }

  /** Enumerating the same paths in another order gives the same names, in another order. */
  lemma {:induction false} EntryNamesPermutation(a: seq<string>, b: seq<string>)
    requires multiset(a) == multiset(b)
    ensures multiset(EntryNames(a)) == multiset(EntryNames(b))
    decreases |a|
  {
    if a == [] {
      assert |b| == |multiset(b)| == 0;
    } else {
      assert a[0] in multiset(b);
      var i :| 0 <= i < |b| && b[i] == a[0];
      var others := RemoveAt(b, i);
      var rest := DropHead(a);
      EntryNamesPermutation(rest, others);
      var h, x, y := NameOf(a[0]), EntryNames(b[..i]), EntryNames(b[i + 1..]);
      EntryNamesCons(a[0], rest);
      EntryNamesAppend(b[..i], b[i + 1..]);
      EntryNamesCons(b[i], b[i + 1..]);
      EntryNamesAppend(b[..i], [b[i]] + b[i + 1..]);
      MultisetOfMiddle(x, h, y);
    }
  }

  lemma EntryNamesCons(path: string, rest: seq<string>)
    ensures EntryNames([path] + rest) == NameOf(path) + EntryNames(rest)
  {
    assert ([path] + rest)[1..] == rest;
  }

  /** The list without its first element: the elements but one of that value. */
  lemma DropHead(s: seq<string>) returns (t: seq<string>)
    requires s != []
    ensures s == [s[0]] + t && multiset(t) == multiset(s) - multiset{s[0]}
  {
    t := s[1..];
    assert s == [s[0]] + t;
  }

  lemma MultisetOfMiddle<T>(x: seq<T>, h: seq<T>, y: seq<T>)
    ensures multiset(x + (h + y)) == multiset(h) + multiset(x + y)
  {
  }

  /** The list without its element at `i`: the elements but one of that value. */
  lemma RemoveAt(s: seq<string>, i: nat) returns (t: seq<string>)
    requires i < |s|
    ensures t == s[..i] + s[i + 1..] && s == s[..i] + ([s[i]] + s[i + 1..])
    ensures multiset(t) == multiset(s) - multiset{s[i]}
  {
    t := s[..i] + s[i + 1..];
    assert s == s[..i] + ([s[i]] + s[i + 1..]);
  }

  /** The listing does not depend on the order in which the file system enumerates. */
  lemma ListingIgnoresEnumerationOrder(decodedPath: string, fullPath: string, files: set<string>,
                                       directoryPaths: seq<string>, filePaths: seq<string>,
                                       directoryPaths': seq<string>, filePaths': seq<string>)
    requires multiset(directoryPaths) == multiset(directoryPaths') && multiset(filePaths) == multiset(filePaths')
    ensures DirectoryPage(decodedPath, fullPath, files, directoryPaths, filePaths)
            == DirectoryPage(decodedPath, fullPath, files, directoryPaths', filePaths')
  {
    EntryNamesPermutation(directoryPaths, directoryPaths');
    SortByIdentityOfPermutation(EntryNames(directoryPaths), EntryNames(directoryPaths'));
    EntryNamesPermutation(filePaths, filePaths');
    SortByIdentityOfPermutation(EntryNames(filePaths), EntryNames(filePaths'));
  }

  /** In a listing, entry `k` of each group shows the `k`-th name in ordinal order, links
      to it directly below the listed path, and is marked as a directory exactly in the
      first group. */
  lemma ListingShowsEntries(decodedPath: string, fullPath: string, files: set<string>,
                            directoryPaths: seq<string>, filePaths: seq<string>)
    requires EndsWithChar(decodedPath, '/') && Combine(fullPath, "index.html") !in files
    ensures var v := DirectoryPage(decodedPath, fullPath, files, directoryPaths, filePaths);
            v.Listing?
            && (forall k :: 0 <= k < |v.directories| ==>
                  var e := v.directories[k];
                  e.isDirectory && TrimEndChar(e.name, '/') == SortedNames(directoryPaths)[k]
                  && GetParentUrl(e.url) == Some(decodedPath) && EndsWithChar(e.url, '/'))
            && (forall k :: 0 <= k < |v.files| ==>
                  var e := v.files[k];
                  !e.isDirectory && e.name == SortedNames(filePaths)[k]
                  && GetParentUrl(e.url) == Some(decodedPath) && !EndsWithChar(e.url, '/'))
  {
    var v := DirectoryPage(decodedPath, fullPath, files, directoryPaths, filePaths);
    var dirNames, fileNames := SortedNames(directoryPaths), SortedNames(filePaths);
    assert v.directories == Entries(decodedPath, dirNames, true);
    assert v.files == Entries(decodedPath, fileNames, false);
    forall k | 0 <= k < |v.directories|
      ensures var e := v.directories[k];
              e.isDirectory && TrimEndChar(e.name, '/') == dirNames[k]
              && GetParentUrl(e.url) == Some(decodedPath) && EndsWithChar(e.url, '/')
    {
      ListedNameIsPlain(directoryPaths, k);
      EntryLinks(decodedPath, dirNames, true, k);
    }
    forall k | 0 <= k < |v.files|
      ensures var e := v.files[k];
              !e.isDirectory && e.name == fileNames[k]
              && GetParentUrl(e.url) == Some(decodedPath) && !EndsWithChar(e.url, '/')
    {
      ListedNameIsPlain(filePaths, k);
      EntryLinks(decodedPath, fileNames, false, k);
    }
  }

  /** A listed name is not empty and holds no separator. */
  lemma ListedNameIsPlain(paths: seq<string>, k: nat)
    requires k < |SortedNames(paths)|
    ensures SortedNames(paths)[k] != [] && Separator !in SortedNames(paths)[k]
  {
    var names := SortedNames(paths);
    assert names[k] in multiset(EntryNames(paths));
  }

  // ---------------------------------------------------------------------
  // HandleHomeAsync

  /** The application a directory holds, unless its name is blank or a system name.
      `manifestAt` stands for reading the directory's `manifest.json`. */
  function ApplicationOf(path: string, manifestAt: string -> Option<WebAppManifest>, isAbsoluteUri: string -> bool)
    : (r: seq<HostedApplication>)
    ensures |r| <= 1
  {
    var name := GetFileName(path);
    if IsBlank(name) || IsSystemDirectory(name) then [] else [Manifests.Load(name, manifestAt(path), isAbsoluteUri)]
  }

  /** The applications of the enumerated directories, in enumeration order. */
  function Applications(paths: seq<string>, manifestAt: string -> Option<WebAppManifest>, isAbsoluteUri: string -> bool)
    : seq<HostedApplication>
  {
    if paths == [] then [] else ApplicationOf(paths[0], manifestAt, isAbsoluteUri) + Applications(paths[1..], manifestAt, isAbsoluteUri)
  }

  function DisplayName(app: HostedApplication): string
  {
    app.displayName
  }

  /** `HandleHomeAsync`'s list: nothing when the web root does not exist; otherwise the
      loaded view of each directory in it that is not blank and not a system directory,
      ordered by display name. */
  function HomeApplications(rootExists: bool, directoryPaths: seq<string>,
                            manifestAt: string -> Option<WebAppManifest>, isAbsoluteUri: string -> bool)
    : seq<HostedApplication>
  {
    if !rootExists then [] else SortBy(Applications(directoryPaths, manifestAt, isAbsoluteUri), DisplayName)
  }

  /** The application of a directory is there exactly when its name is shown, and is
      what `Load` makes of that directory. */
  lemma {:induction false} ApplicationsComplete(paths: seq<string>, manifestAt: string -> Option<WebAppManifest>,
                                               isAbsoluteUri: string -> bool, app: HostedApplication)
    ensures app in Applications(paths, manifestAt, isAbsoluteUri) <==>
              exists p :: p in paths && !IsBlank(GetFileName(p)) && !IsSystemDirectory(GetFileName(p))
                          && app == Manifests.Load(GetFileName(p), manifestAt(p), isAbsoluteUri)
  {
    if paths != [] {
      ApplicationsComplete(paths[1..], manifestAt, isAbsoluteUri, app);
      assert forall p :: p in paths <==> p == paths[0] || p in paths[1..];
    }
  }

  /** The home page lists, in order of display name, the view of every application
      directory and nothing else: no system directory and no blank name. */
  lemma HomeListsApplications(directoryPaths: seq<string>, manifestAt: string -> Option<WebAppManifest>,
                              isAbsoluteUri: string -> bool)
    ensures var apps := HomeApplications(true, directoryPaths, manifestAt, isAbsoluteUri);
            SortedBy(apps, DisplayName)
            && multiset(apps) == multiset(Applications(directoryPaths, manifestAt, isAbsoluteUri))
            && forall app :: app in apps <==>
                 exists p :: p in directoryPaths && !IsBlank(GetFileName(p)) && !IsSystemDirectory(GetFileName(p))
                             && app == Manifests.Load(GetFileName(p), manifestAt(p), isAbsoluteUri)
  {
    var listed := Applications(directoryPaths, manifestAt, isAbsoluteUri);
    var apps := SortBy(listed, DisplayName);
    SortBySorted(listed, DisplayName);
    forall app ensures app in apps <==>
                 exists p :: p in directoryPaths && !IsBlank(GetFileName(p)) && !IsSystemDirectory(GetFileName(p))
                             && app == Manifests.Load(GetFileName(p), manifestAt(p), isAbsoluteUri)
    {
      assert app in apps <==> app in multiset(apps);
      assert app in listed <==> app in multiset(listed);
      ApplicationsComplete(directoryPaths, manifestAt, isAbsoluteUri, app);
    }
  }

  /** A listed application carries the name of its directory, which is neither blank nor a system name. */
  lemma ListedApplicationIsNoSystemDirectory(directoryPaths: seq<string>, manifestAt: string -> Option<WebAppManifest>,
                                             isAbsoluteUri: string -> bool, app: HostedApplication)
    requires app in HomeApplications(true, directoryPaths, manifestAt, isAbsoluteUri)
    ensures !IsBlank(app.directoryName) && !IsSystemDirectory(app.directoryName)
  {
    HomeListsApplications(directoryPaths, manifestAt, isAbsoluteUri);
  }

  // ---------------------------------------------------------------------
  // HandleManifestPostAsync and ProcessImageUpdate

  /** `ManifestImagePayload`. */
  datatype ManifestImagePayload = ManifestImagePayload(tempId: Option<string>, fileName: Option<string>, contentBase64: Option<string>)

  /** `ManifestUpdateRequest`; an absent `removeImage` is false. */
  datatype ManifestUpdateRequest = ManifestUpdateRequest(
    name: Option<string>,
    description: Option<string>,
    tags: Option<seq<Option<string>>>,
    image: Option<ManifestImagePayload>,
    removeImage: bool)

  /** What `ProcessImageUpdate` does with an image payload. */
  datatype ImagePlan =
    | PromoteStaged(tempId: string, desiredName: string)
    | StageInline(contentBase64: string, fileName: string)
    | NoNewImage

  /** The file name an image is saved under: `image` when the payload gives none. */
  function DesiredName(fileName: Option<string>): (r: string)
    ensures !IsBlank(r)
    ensures IsNullOrWhiteSpace(fileName) ==> r == Uploads.DefaultFileName
    ensures !IsNullOrWhiteSpace(fileName) ==> r == fileName.value
  {
    if IsNullOrWhiteSpace(fileName) then
      assert !IsWhiteSpace(Uploads.DefaultFileName[0]);
      Uploads.DefaultFileName
    else fileName.value
  }

  /** `ProcessImageUpdate`'s choice: a staged upload named by `tempId` comes first, inline
      Base64 content second, and a payload with neither brings no image. */
  function ImagePlanOf(payload: ManifestImagePayload): (p: ImagePlan)
    ensures p.PromoteStaged? <==> !IsNullOrWhiteSpace(payload.tempId)
    ensures p.StageInline? <==> IsNullOrWhiteSpace(payload.tempId) && !IsNullOrWhiteSpace(payload.contentBase64)
    ensures !p.NoNewImage? ==> !IsBlank(if p.PromoteStaged? then p.desiredName else p.fileName)
  {
    if !IsNullOrWhiteSpace(payload.tempId) then PromoteStaged(payload.tempId.value, DesiredName(payload.fileName))
    else if !IsNullOrWhiteSpace(payload.contentBase64) then StageInline(payload.contentBase64.value, DesiredName(payload.fileName))
    else NoNewImage
  }

  /** A payload without a file name is saved as `image`, which has no extension, so the
      upload store refuses it: an image sent without a name is never accepted. */
  lemma NamelessImageIsRejected(payload: ManifestImagePayload)
    requires IsNullOrWhiteSpace(payload.fileName)
    ensures var p := ImagePlanOf(payload);
            p.PromoteStaged? ==> !Uploads.IsAllowedExtension(Uploads.ImageExtension(p.desiredName))
    ensures var p := ImagePlanOf(payload);
            p.StageInline? ==> !Uploads.IsAllowedExtension(Uploads.ImageExtension(p.fileName))
  {
    Uploads.DefaultNameIsRejected(DesiredName(payload.fileName));
  }

  /** `string.IsNullOrWhiteSpace(s) ? null : s`. */
  function BlankToNone(s: Option<string>): (r: Option<string>)
    ensures r.None? <==> IsNullOrWhiteSpace(s)
    ensures r.Some? ==> r == s
  {
    if IsNullOrWhiteSpace(s) then None else s
  }

  /** The image path saved: none when the request removes the image; the new image when
      the payload brought a non-blank one; the current manifest's image otherwise.
      `newImage` is what `ProcessImageUpdate` returned for the payload. */
  function MergedImage(current: Option<WebAppManifest>, update: ManifestUpdateRequest, newImage: Option<string>): Option<string>
  {
    var imagePath := if current.Some? then current.value.image else None;
    if update.removeImage then None
    else if update.image.Some? && !IsNullOrWhiteSpace(newImage) then newImage
    else imagePath
  }

  /** The manifest `HandleManifestPostAsync` saves: name and description from the request
      (blank ones dropped), the merged image, and the request's tags normalised. */
  function MergedManifest(current: Option<WebAppManifest>, update: ManifestUpdateRequest, newImage: Option<string>)
    : WebAppManifest
  {
    WebAppManifest(BlankToNone(update.name), BlankToNone(update.description),
                   MergedImage(current, update, newImage), Some(Present(NormalizeTags(update.tags))))
  }

  /** After the update the application shows the request's name and description (the
      defaults where they are blank, never the old values), the request's tags normalised,
      and the merged image. */
  lemma MergedManifestShown(directoryName: string, current: Option<WebAppManifest>, update: ManifestUpdateRequest,
                            newImage: Option<string>, isAbsoluteUri: string -> bool)
    ensures var app := Manifests.Load(directoryName, Some(MergedManifest(current, update, newImage)), isAbsoluteUri);
            app.displayName == (if IsNullOrWhiteSpace(update.name) then directoryName else Trim(update.name.value))
            && app.description == (if IsNullOrWhiteSpace(update.description) then Manifests.DefaultDescription
                                   else Trim(update.description.value))
            && app.tags == NormalizeTags(update.tags)
            && app.imageUrl == Manifests.ResolveImageUrl(directoryName, MergedImage(current, update, newImage), isAbsoluteUri)
  {
    var m := MergedManifest(current, update, newImage);
    Manifests.LoadUsesManifest(directoryName, m, isAbsoluteUri);
    Manifests.NormalizeTagsIdempotent(update.tags);
  }

  /** Removing the image wins over any payload: the manifest keeps no image and the
      application shows the default one. */
  lemma RemoveImageWins(directoryName: string, current: Option<WebAppManifest>, update: ManifestUpdateRequest,
                        newImage: Option<string>, isAbsoluteUri: string -> bool)
    requires update.removeImage
    ensures MergedManifest(current, update, newImage).image.None?
    ensures Manifests.Load(directoryName, Some(MergedManifest(current, update, newImage)), isAbsoluteUri).imageUrl
            == Manifests.DefaultImage
  {
  }

  /** Without a usable new image the current one stays; a blank result of the payload does
      not erase it. */
  lemma ImageKeptWithoutNewOne(current: Option<WebAppManifest>, update: ManifestUpdateRequest, newImage: Option<string>)
    requires !update.removeImage && (update.image.None? || IsNullOrWhiteSpace(newImage))
    ensures MergedManifest(current, update, newImage).image == if current.Some? then current.value.image else None
  {
  }

  // ---------------------------------------------------------------------
  // TryDeleteAppImage

  /** The address prefix of an application's own files. */
  function EncodedApp(appId: string): string
  {
    "/" + UriEscaping.Escape(appId) + "/"
  }

  /** The file `TryDeleteAppImage` tries to delete for the old image path: none for a
      blank path or one outside the application's address (compared ignoring case);
      otherwise the rest of the path, decoded, combined with the application directory. */
  function AppImageTarget(root: string, appId: string, imagePath: Option<string>): (r: Option<string>)
    ensures r.Some? ==> imagePath.Some? && StartsWithIgnoreCase(imagePath.value, EncodedApp(appId))
  {
    if IsNullOrWhiteSpace(imagePath) then None
    else
      var encodedApp := EncodedApp(appId);
      if !StartsWithIgnoreCase(imagePath.value, encodedApp) then None
      else Some(Combine(Combine(root, appId), UriEscaping.Unescape(imagePath.value[|encodedApp|..])))
  }

  /** The address of a promoted image names the file the promotion wrote, so removing the
      image deletes that file. */
  lemma DeletesPromotedImage(root: string, appId: string, desiredFileName: string)
    ensures var url := EncodedApp(appId) + UriEscaping.Escape(Uploads.SanitizeFileName(desiredFileName));
            AppImageTarget(root, appId, Some(url))
            == Some(Combine(Combine(root, appId), Uploads.SanitizeFileName(desiredFileName)))
  {
    var name := Uploads.SanitizeFileName(desiredFileName);
    ImageUnderApp(root, appId, name);
  }

  /** An image path made of the application's address and an escaped name targets that
      name, combined with the application directory. */
  lemma ImageUnderApp(root: string, appId: string, name: string)
    ensures AppImageTarget(root, appId, Some(EncodedApp(appId) + UriEscaping.Escape(name)))
            == Some(Combine(Combine(root, appId), name))
  {
    var prefix := EncodedApp(appId);
    var url := prefix + UriEscaping.Escape(name);
    assert url[0] == '/';
    assert !IsNullOrWhiteSpace(Some(url)) by {
      assert !IsWhiteSpace(url[0]);
    }
    assert Fold(url)[..|prefix|] == Fold(prefix) by {
      assert forall i :: 0 <= i < |prefix| ==> Fold(url)[i] == Upper(prefix[i]);
    }
    assert url[|prefix|..] == UriEscaping.Escape(name);
    UriEscaping.UnescapeEscape(name);
  }

  /** The remainder is decoded before it is combined, and a rooted remainder replaces the
      application directory: an image path whose escaped rest decodes to a rooted path
      targets that path, outside the application directory. */
  lemma RootedRemainderLeavesApp(root: string, appId: string, path: string)
    requires IsRooted(path)
    ensures AppImageTarget(root, appId, Some(EncodedApp(appId) + UriEscaping.Escape(path))) == Some(path)
  {
    ImageUnderApp(root, appId, path);
  }
}
