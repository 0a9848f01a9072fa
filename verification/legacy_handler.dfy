/** The older error handler of rootfs/main.go. It differs from main.go in
    three ways: extensions come from the standard library's list for a
    type and carry their leading dot, `.htm` is served as `.html`, and the
    body is read from the file `{path}/{code}{ext}` or
    `{path}/{code/100}xx{ext}` when that file can be opened. The files
    that can be opened are a given map from path to contents. */
module LegacyHandler {
  import opened Wrappers
  import opened GoText
  import opened ResponseCorpus
  import opened StatusMapping
  import opened Http

  /** `mime.ExtensionsByType` reduced to what the handler uses of it: the
      list of extensions for a full media type, or `None` when the type
      does not parse. The standard library's tables are not part of this
      model; the handler is given the function. */
  type ExtensionsParser = string -> Option<seq<string>>

  datatype LegacyHandler = LegacyHandler(
    extensionsByType: ExtensionsParser,
    path: string,
    files: map<string, Bytes>,
    defaultFormat: string,
    defaultExt: string,
    mapping: map<int, int>,
    debugMode: bool)

  /** The default extension is the first one listed for the default
      format. */
  predicate Valid(h: LegacyHandler) {
    var exts := h.extensionsByType(h.defaultFormat);
    exts.Some? && |exts.value| > 0 && exts.value[0] == h.defaultExt
  }

  /** `errorHandler`: takes the first extension of the default format and
      panics when the default format does not parse or lists none. */
  function NewLegacyHandler(extensionsByType: ExtensionsParser, path: string, files: map<string, Bytes>,
                            defaultFormat: string, mapping: map<int, int>, debugMode: bool)
    : (r: Result<LegacyHandler, StartupError>)
    ensures r.Ok? <==> extensionsByType(defaultFormat).Some? && |extensionsByType(defaultFormat).value| > 0
    ensures r.Ok? ==> Valid(r.value)
    ensures r.Ok? ==> r.value.defaultFormat == defaultFormat && r.value.mapping == mapping && r.value.debugMode == debugMode
    ensures r.Ok? ==> r.value.extensionsByType == extensionsByType && r.value.path == path && r.value.files == files
    ensures r.Err? ==> r.error == NoDefaultExtension(defaultFormat)
  {
    match extensionsByType(defaultFormat)
    case None => Err(NoDefaultExtension(defaultFormat))
    case Some(defaultExts) =>
      if |defaultExts| == 0 then Err(NoDefaultExtension(defaultFormat))
      else Ok(LegacyHandler(extensionsByType, path, files, defaultFormat, defaultExts[0], mapping, debugMode))
  }

  /** The compatibility alias: `.htm` is looked up as `.html`, and every
      other extension as it is. */
  function HtmAlias(ext: string): (r: string)
    ensures r != ".htm"
    ensures ext == ".htm" ==> r == ".html"
    ensures ext != ".htm" ==> r == ext
  {
    if ext == ".htm" then ".html" else ext
  }

  /** The requested format is kept exactly when it lists an extension;
      otherwise the default format is announced with the default
      extension. The alias is applied to the extension either way, so it
      is never `.htm`; with a valid handler it is the aliased first
      extension listed for the announced format. */
  function Negotiate(h: LegacyHandler, req: Request): (r: Negotiated)
    ensures var wanted := RequestedFormat(req, h.defaultFormat);
            var found := h.extensionsByType(wanted);
            if found.Some? && |found.value| > 0 then r == Negotiated(wanted, HtmAlias(found.value[0]))
            else r == Negotiated(h.defaultFormat, HtmAlias(h.defaultExt))
    ensures r.ext != ".htm"
    ensures Valid(h) ==> var exts := h.extensionsByType(r.format);
                         exts.Some? && |exts.value| > 0 && r.ext == HtmAlias(exts.value[0])
  {
    var format := RequestedFormat(req, h.defaultFormat);
    match h.extensionsByType(format)
    case None => Negotiated(h.defaultFormat, HtmAlias(h.defaultExt))
    case Some(exts) =>
      if |exts| == 0 then Negotiated(h.defaultFormat, HtmAlias(h.defaultExt))
      else Negotiated(format, HtmAlias(exts[0]))
  }

  /** `fmt.Sprintf("%s/%d%s", path, code, ext)`. With a dotted extension
      it is the directory plus the name the newer handler looks up in its
      corpus. */
  function ExactPath(path: string, code: int, ext: string): (p: string)
    ensures |ext| > 0 && ext[0] == '.' ==> p == path + "/" + ExactKey(code, ext[1..])
  {
    assert |ext| > 0 && ext[0] == '.' ==> ext == "." + ext[1..];
    path + "/" + FormatInt(code) + ext
  }

  /** `fmt.Sprintf("%s/%dxx%s", path, code/100, ext)`, with Go's
      truncating division. */
  function ClassPath(path: string, code: int, ext: string): (p: string)
    ensures |ext| > 0 && ext[0] == '.' ==> p == path + "/" + ClassKey(code, ext[1..])
  {
    assert |ext| > 0 && ext[0] == '.' ==> ext == "." + ext[1..];
    path + "/" + FormatInt(Div100(code)) + "xx" + ext
  }

  /** What the handler does for a request: announce the negotiated
      format, then serve the file at the exact path for the working code
      and extension, else the file at the class path, else the plain
      404. */
  function Resolve(h: LegacyHandler, req: Request): (r: Resolution)
    ensures var n := Negotiate(h, req);
            var code := WorkingCode(h.mapping, Get(req, CodeHeader));
            && (r.Serve? ==> r.code == code && r.contentType == n.format)
            && (r.Serve? ==> r.file == ExactPath(h.path, code, n.ext) || r.file == ClassPath(h.path, code, n.ext))
            && (r.Serve? ==> r.file in h.files && r.body == h.files[r.file])
            && (ExactPath(h.path, code, n.ext) in h.files ==> r.Serve? && r.file == ExactPath(h.path, code, n.ext))
            && (r.NotFound? <==> ExactPath(h.path, code, n.ext) !in h.files && ClassPath(h.path, code, n.ext) !in h.files)
  {
    var n := Negotiate(h, req);
    var code := WorkingCode(h.mapping, Get(req, CodeHeader));
    var file := ExactPath(h.path, code, n.ext);
    if file in h.files then Serve(code, n.format, file, h.files[file])
    else
      var classFile := ClassPath(h.path, code, n.ext);
      if classFile in h.files then Serve(code, n.format, classFile, h.files[classFile])
      else NotFound
  }

  /** The format steps of the legacy closure: default an empty
      `X-Format`, start from the default extension, take the first listed
      extension of a usable format (or fall back to the default format),
      then apply the alias. */
  method ChooseFormat(h: LegacyHandler, req: Request) returns (format: string, ext: string)
    ensures Negotiated(format, ext) == Negotiate(h, req)
  {
    format := Get(req, FormatHeader);
    if format == "" {
      format := h.defaultFormat;
    }

    ext := h.defaultExt;
    var cext := h.extensionsByType(format);
    if cext.None? {
      format := h.defaultFormat;
    } else if |cext.value| == 0 {
      format := h.defaultFormat;
    } else {
      ext := cext.value[0];
    }
    if ext == ".htm" {
      ext := ".html";
    }
  }

  /** The handler closure of the legacy `errorHandler`, on a writer
      nothing has been committed to: the same header map as the newer
      handler, and the reply of the path probes. */
  method ServeHTTP(h: LegacyHandler, req: Request, w: ResponseWriter)
    requires w.reply == Pending
    modifies w
    ensures w.header == HandlerHeader(h.debugMode, req, old(w.header), Negotiate(h, req).format, Resolve(h, req))
    ensures w.reply == ReplyOf(Resolve(h, req))
  {
    if h.debugMode {
      w.EchoDiagnostics(req);
    }

    var format, ext := ChooseFormat(h, req);
    w.Set(ContentType, format);

    var code := ReadCode(h.mapping, Get(req, CodeHeader));

    var file := ExactPath(h.path, code, ext);
    if file !in h.files {
      file := ClassPath(h.path, code, ext);
      if file !in h.files {
        assert Resolve(h, req) == NotFound;
        w.NotFound();
        return;
      }
    }
    assert Resolve(h, req) == Serve(code, format, file, h.files[file]);

    w.WriteHeader(code);
    w.Write(h.files[file]);
  }

  // ---------------------------------------------------------------------
  // Properties of a request's resolution

  /** The two probes name different files, so the fallback never reopens
      the file that just failed: an `x` stands where the exact path has a
      digit, a sign or its extension. */
  lemma ProbePathsDiffer(path: string, code: int, ext: string)
    ensures ExactPath(path, code, ext) != ClassPath(path, code, ext)
  {
    var a, b := FormatInt(code), FormatInt(Div100(code));
    var exact, classPath := ExactPath(path, code, ext), ClassPath(path, code, ext);
    var k := |path| + 1;
    if |exact| == |classPath| {
      assert |a| == |b| + 2;
      assert exact[k + |b|] == a[|b|];
      assert classPath[k + |b|] == 'x';
    }
  }

  /** `text/html`, listed by the standard library as `.htm` before
      `.html`, is served from `.html` files. */
  lemma HtmlIsServedFromHtmlFiles(h: LegacyHandler, req: Request)
    requires Get(req, FormatHeader) == "text/html"
    requires h.extensionsByType("text/html") == Some([".htm", ".html"])
    ensures Negotiate(h, req) == Negotiated("text/html", ".html")
  {
  }

  /** The alias also applies to the default extension when the request's
      format is not usable. */
  lemma AliasAppliesToDefault(h: LegacyHandler, req: Request)
    requires h.defaultExt == ".htm"
    requires var found := h.extensionsByType(RequestedFormat(req, h.defaultFormat));
             found.None? || found == Some([])
    ensures Negotiate(h, req) == Negotiated(h.defaultFormat, ".html")
  {
  }

  /** A request without `X-Format` is handled exactly like one that asks
      for the default format. */
  lemma EmptyFormatIsDefault(h: LegacyHandler, req: Request)
    requires Get(req, FormatHeader) == ""
    ensures var asked := WithHeader(req, FormatHeader, h.defaultFormat);
            Resolve(h, req) == Resolve(h, asked)
            && Negotiate(h, req) == Negotiate(h, asked)
  {
    var asked := WithHeader(req, FormatHeader, h.defaultFormat);
    assert Get(asked, FormatHeader) == h.defaultFormat;
    assert Get(asked, CodeHeader) == Get(req, CodeHeader);
  }

  /** An `X-Code` that is not an integer, including a missing one, is
      handled exactly like `404`. */
  lemma UnparseableCodeIs404(h: LegacyHandler, req: Request)
    requires Atoi(Get(req, CodeHeader)).None?
    ensures Resolve(h, req) == Resolve(h, WithHeader(req, CodeHeader, "404"))
  {
    var asked := WithHeader(req, CodeHeader, "404");
    assert Get(asked, FormatHeader) == Get(req, FormatHeader);
    assert Get(asked, CodeHeader) == "404";
    UnparseableCodeWorksAs404(h.mapping, Get(req, CodeHeader));
  }

  /** Round trip: asking for a format that lists extensions and for a
      code that is not remapped serves the file `{path}/{code}{ext}`, with
      `ext` the aliased first extension. */
  lemma ExactFileIsServed(h: LegacyHandler, format: string, code: int)
    requires format != "" && InIntRange(code) && code !in h.mapping
    requires h.extensionsByType(format).Some? && |h.extensionsByType(format).value| > 0
    requires ExactPath(h.path, code, HtmAlias(h.extensionsByType(format).value[0])) in h.files
    ensures var file := ExactPath(h.path, code, HtmAlias(h.extensionsByType(format).value[0]));
            var req := Request(map[FormatHeader := format, CodeHeader := FormatInt(code)]);
            Resolve(h, req) == Serve(code, format, file, h.files[file])
  {
    var req := Request(map[FormatHeader := format, CodeHeader := FormatInt(code)]);
    assert Get(req, FormatHeader) == format && Get(req, CodeHeader) == FormatInt(code);
    WorkingCodeOfFormatted(h.mapping, code);
  }

  /** Fallback: when the exact file cannot be opened, the class file
      `{path}/{code/100}xx{ext}` is served. */
  lemma ClassFileIsServed(h: LegacyHandler, format: string, code: int)
    requires format != "" && InIntRange(code) && code !in h.mapping
    requires h.extensionsByType(format).Some? && |h.extensionsByType(format).value| > 0
    requires ExactPath(h.path, code, HtmAlias(h.extensionsByType(format).value[0])) !in h.files
    requires ClassPath(h.path, code, HtmAlias(h.extensionsByType(format).value[0])) in h.files
    ensures var file := ClassPath(h.path, code, HtmAlias(h.extensionsByType(format).value[0]));
            var req := Request(map[FormatHeader := format, CodeHeader := FormatInt(code)]);
            Resolve(h, req) == Serve(code, format, file, h.files[file])
  {
    var req := Request(map[FormatHeader := format, CodeHeader := FormatInt(code)]);
    assert Get(req, FormatHeader) == format && Get(req, CodeHeader) == FormatInt(code);
    WorkingCodeOfFormatted(h.mapping, code);
  }

  /** The paths probed in the `/www` example. */
  lemma WwwPaths()
    ensures ExactPath("/www", 404, ".html") == "/www/404.html"
    ensures ExactPath("/www", 503, ".html") == "/www/503.html" && ClassPath("/www", 503, ".html") == "/www/5xx.html"
    ensures ExactPath("/www", 418, ".html") == "/www/418.html" && ClassPath("/www", 418, ".html") == "/www/4xx.html"
  {
    assert FormatInt(404) == "404" && FormatInt(503) == "503" && FormatInt(418) == "418";
    assert FormatInt(5) == "5" && FormatInt(4) == "4";
  }

  /** An example on the `/www` directory: with `404.html` and
      `5xx.html` there and `text/html` listing `.htm` first, 404 is served
      from `/www/404.html`, 503 from `/www/5xx.html`, and 418 gets the
      plain 404. */
  lemma WwwExample(h: LegacyHandler, notFoundPage: Bytes, serverErrorPage: Bytes)
    requires h.path == "/www" && h.defaultFormat == "text/html" && h.mapping == map[]
    requires h.extensionsByType("text/html") == Some([".htm", ".html"])
    requires h.files == map["/www/404.html" := notFoundPage, "/www/5xx.html" := serverErrorPage]
    ensures Resolve(h, Request(map[CodeHeader := "404"])) == Serve(404, "text/html", "/www/404.html", notFoundPage)
    ensures Resolve(h, Request(map[CodeHeader := "503"])) == Serve(503, "text/html", "/www/5xx.html", serverErrorPage)
    ensures Resolve(h, Request(map[CodeHeader := "418"])) == NotFound
  {
    WwwPaths();
    assert FormatInt(404) == "404" && FormatInt(503) == "503" && FormatInt(418) == "418";
    WorkingCodeOfFormatted(h.mapping, 404);
    WorkingCodeOfFormatted(h.mapping, 503);
    WorkingCodeOfFormatted(h.mapping, 418);
    var req404, req503, req418 := Request(map[CodeHeader := "404"]), Request(map[CodeHeader := "503"]), Request(map[CodeHeader := "418"]);
    assert Get(req404, FormatHeader) == "" && Get(req404, CodeHeader) == "404";
    assert Get(req503, FormatHeader) == "" && Get(req503, CodeHeader) == "503";
    assert Get(req418, FormatHeader) == "" && Get(req418, CodeHeader) == "418";
    assert Negotiate(h, req404) == Negotiate(h, req503) == Negotiate(h, req418) == Negotiated("text/html", ".html");
  }
}
