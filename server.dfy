// The static web server's request handling: the MIME type of a file from its
// extension, the mapping of a request target to a path under the web root,
// and the responses it builds (the health check, a served file, and the
// cached 404 and 500 pages). Reading files and resolving paths on disk are
// parameters of this model.
module StaticServer {
  import opened Wrappers
  import opened Decimal

  const IndexPath := "index.html"
  const HtmlType := "text/html; charset=UTF-8"
  const PlainType := "text/plain"

  /** `extension_map`: extension (without the dot, lower case only) to MIME type. */
  const Extensions: map<string, string> := map[
    "html" := "text/html", "htm" := "text/html", "css" := "text/css",
    "js" := "application/javascript", "json" := "application/json",
    "xml" := "application/xml", "txt" := "text/plain", "pdf" := "application/pdf",
    "png" := "image/png", "jpg" := "image/jpeg", "jpeg" := "image/jpeg",
    "gif" := "image/gif", "bmp" := "image/bmp", "ico" := "image/x-icon",
    "svg" := "image/svg+xml", "webp" := "image/webp", "mp4" := "video/mp4",
    "webm" := "video/webm", "ogg" := "video/ogg", "mp3" := "audio/mpeg",
    "wav" := "audio/wav", "flac" := "audio/flac", "aac" := "audio/aac"]

  /** The last index of c in s, or None: `std::string::rfind`. */
  function LastIndex(s: string, c: char): (r: Option<nat>)
    ensures r.Some? ==> r.value < |s| && s[r.value] == c && c !in s[r.value + 1..]
    ensures r.None? <==> c !in s
  {
    if s == [] then None
    else if s[|s| - 1] == c then Some(|s| - 1)
    else
      assert s == s[..|s| - 1] + [s[|s| - 1]];
      match LastIndex(s[..|s| - 1], c)
      case Some(i) => assert s[i + 1..] == s[..|s| - 1][i + 1..] + [s[|s| - 1]]; Some(i)
      case None => None
  }

  /**
   * `mime_type`: the type listed for the text after the last '.', compared
   * case-sensitively; "text/plain" without a dot or for an unlisted extension.
   */
  function MimeType(path: string): (t: string)
    ensures t == PlainType || t in Extensions.Values
    ensures '.' !in path ==> t == PlainType
  {
    match LastIndex(path, '.')
    case None => PlainType
    case Some(dot) =>
      var ext := path[dot + 1..];
      if ext in Extensions then Extensions[ext] else PlainType
  }

  /** rfind stops at the last occurrence. */
  lemma {:induction false} LastIndexAt(s: string, c: char, i: nat)
    requires i < |s| && s[i] == c && c !in s[i + 1..]
    ensures LastIndex(s, c) == Some(i)
  {
    if i < |s| - 1 {
      assert s[|s| - 1] in s[i + 1..];
      assert s[..|s| - 1][i + 1..] == s[i + 1..|s| - 1];
      LastIndexAt(s[..|s| - 1], c, i);
    }
  }

  /** The type of "stem.ext" is looked up by ext alone, whatever the stem holds. */
  lemma MimeTypeByExtension(stem: string, ext: string)
    requires '.' !in ext
    ensures MimeType(stem + "." + ext) == if ext in Extensions then Extensions[ext] else PlainType
  {
    var path := stem + "." + ext;
    assert path[|stem|] == '.';
    assert path[|stem| + 1..] == ext;
    LastIndexAt(path, '.', |stem|);
  }

  /** An extension with an upper-case letter. */
  predicate HasUpper(ext: string)
  {
    exists k :: 0 <= k < |ext| && 'A' <= ext[k] <= 'Z'
  }

  /** Every listed extension is lower case. */
  lemma ExtensionsLowerCase(ext: string)
    requires HasUpper(ext)
    ensures ext !in Extensions
  {
  }

  /**
   * The lookup is case-sensitive: a file whose extension has any upper-case
   * letter ("INDEX.HTML") is served as plain text.
   */
  lemma MimeTypeCaseSensitive(stem: string, ext: string)
    requires '.' !in ext && HasUpper(ext)
    ensures MimeType(stem + "." + ext) == PlainType
  {
    MimeTypeByExtension(stem, ext);
    ExtensionsLowerCase(ext);
  }

  /** What `default_handle_request` does with a target. */
  datatype Handling = Health | Serve(relative: string)

  /**
   * The target mapping: "/api/health" is the health check; "/" and
   * "/index.html" serve the index page; any other target loses one leading
   * '/' and is served relative to the web root.
   */
  function HandlingOf(target: string): (h: Handling)
    ensures h.Health? <==> target == "/api/health"
  {
    if target == "/api/health" then Health
    else if target == "/" || target == "/index.html" then Serve(IndexPath)
    else if target != [] && target[0] == '/' then Serve(target[1..])
    else Serve(target)
  }

  /**
   * A rooted target is served from the path after its slash: putting the
   * slash back gives the target again, except for "/" which is the index.
   */
  lemma HandlingOfRooted(path: string)
    requires "/" + path != "/api/health"
    ensures path != [] ==> HandlingOf("/" + path) == Serve(path)
    ensures path == [] ==> HandlingOf("/" + path) == Serve(IndexPath)
  {
    var t := "/" + path;
    assert t[1..] == path;
    if t == "/index.html" {
      assert path == t[1..] == IndexPath;
    }
  }

  /** Only "/", "/index.html" and "index.html" itself serve the index page among targets of at most one leading slash. */
  lemma IndexTargets(target: string)
    requires target == [] || target[0] != '/' || target[1..] == [] || target[1] != '/'
    ensures HandlingOf(target) == Serve(IndexPath) <==> target in {"/", "/index.html", "index.html"}
  {
  }

  /** A response as the server sends it: status, Content-Type, body, keep-alive and Content-Length. */
  datatype Response = Response(status: nat, contentType: Option<string>, body: string, keepAlive: bool,
                               contentLength: Option<string>)

  /** A page response with Content-Length the body's size in decimal. */
  function PageResponse(status: nat, contentType: string, body: string, keepAlive: bool): (r: Response)
    ensures r.status == status && r.contentType == Some(contentType) && r.body == body && r.keepAlive == keepAlive
    ensures r.contentLength.Some? && AllDigits(r.contentLength.value) && DigitsValue(r.contentLength.value) == |r.body|
  {
    DigitsValueOfNatToString(|body|);
    Response(status, Some(contentType), body, keepAlive, Some(NatToString(|body|)))
  }

  /** The cached error pages, read from 404.html and 500.html under the web root (empty when missing). */
  datatype ErrorPages = ErrorPages(notFound: string, serverError: string)

  /** `make_404_response`: status 404, HTML, the cached 404 page. */
  function NotFound(pages: ErrorPages, keepAlive: bool): (r: Response)
    ensures r.status == 404 && r.contentType == Some(HtmlType) && r.body == pages.notFound && r.keepAlive == keepAlive
    ensures r.contentLength.Some? && AllDigits(r.contentLength.value) && DigitsValue(r.contentLength.value) == |pages.notFound|
  {
    PageResponse(404, HtmlType, pages.notFound, keepAlive)
  }

  /** `make_500_response`: status 500, HTML, the cached 500 page. */
  function ServerError(pages: ErrorPages, keepAlive: bool): (r: Response)
    ensures r.status == 500 && r.contentType == Some(HtmlType) && r.body == pages.serverError && r.keepAlive == keepAlive
    ensures r.contentLength.Some? && AllDigits(r.contentLength.value) && DigitsValue(r.contentLength.value) == |pages.serverError|
  {
    PageResponse(500, HtmlType, pages.serverError, keepAlive)
  }

  /**
   * `make_static_response`: an empty or unreadable file is answered with the
   * 404 page; any other is served with the type of its extension.
   */
  function StaticResponse(path: string, contents: string, pages: ErrorPages, keepAlive: bool): (r: Response)
    ensures contents == [] ==> r == NotFound(pages, keepAlive)
    ensures contents != [] ==> r.status == 200 && r.body == contents && r.contentType == Some(MimeType(path))
  {
    if contents == [] then PageResponse(404, HtmlType, pages.notFound, keepAlive)
    else PageResponse(200, MimeType(path), contents, keepAlive)
  }

  /**
   * `default_handle_request`. `file` is what the server finds at the mapped
   * path: its full path and contents when the path stays inside the web root
   * and names a regular file, None otherwise. A request succeeds exactly for
   * the health check or a non-empty file; every other answer is the 404
   * page, which keeps the connection only when an empty file was found and
   * the client asked to keep it.
   */
  function HandleRequest(target: string, keepAlive: bool, file: Option<(string, string)>, pages: ErrorPages): (r: Response)
    ensures r.status == 200 <==> target == "/api/health" || (file.Some? && file.value.1 != [])
    ensures r.status != 200 ==> r == NotFound(pages, file.Some? && keepAlive)
  {
    match HandlingOf(target)
    case Health => Response(200, None, "", true, None)
    case Serve(_) =>
      match file
      case Some((full, contents)) => StaticResponse(full, contents, pages, keepAlive)
      case None => NotFound(pages, false)
  }
}
