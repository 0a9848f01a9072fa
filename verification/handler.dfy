/** The error handler of main.go: `errorHandler` checks once that the
    default format has an extension, and the handler it returns picks a
    format and extension, a status code and a stored body for each
    request. The handler's configuration is immutable after construction,
    so it is a value; only the response writer is changed in place. */
module ErrorHandler {
  import opened Wrappers
  import opened GoText
  import opened Mime
  import opened ResponseCorpus
  import opened StatusMapping
  import opened Http

  /** The configuration captured by the closure, together with the
      process-wide tables it reads: the MIME table of mime.go and the
      corpus of response.go. */
  datatype Handler = Handler(
    parse: MediaTypeParser,
    table: map<string, string>,
    responses: map<string, Bytes>,
    defaultFormat: string,
    defaultExt: string,
    mapping: map<int, int>,
    debugMode: bool)

  /** The default extension is the non-empty one the table gives the
      default format. */
  predicate Valid(h: Handler) {
    ExtensionByType(h.parse, h.table, h.defaultFormat) == Ok(h.defaultExt) && h.defaultExt != ""
  }

  /** `errorHandler`: resolves the default extension once and panics when
      the default format does not parse or has no extension. */
  function NewErrorHandler(parse: MediaTypeParser, table: map<string, string>, responses: map<string, Bytes>,
                           defaultFormat: string, mapping: map<int, int>, debugMode: bool)
    : (r: Result<Handler, StartupError>)
    ensures r.Ok? <==> ExtensionByType(parse, table, defaultFormat).Ok? && ExtensionByType(parse, table, defaultFormat).value != ""
    ensures r.Ok? ==> Valid(r.value)
    ensures r.Ok? ==> r.value.defaultFormat == defaultFormat && r.value.mapping == mapping && r.value.debugMode == debugMode
    ensures r.Ok? ==> r.value.parse == parse && r.value.table == table && r.value.responses == responses
    ensures r.Err? ==> r.error == NoDefaultExtension(defaultFormat)
  {
    match ExtensionByType(parse, table, defaultFormat)
    case Err(_) => Err(NoDefaultExtension(defaultFormat))
    case Ok(defaultExt) =>
      if defaultExt == "" then Err(NoDefaultExtension(defaultFormat))
      else Ok(Handler(parse, table, responses, defaultFormat, defaultExt, mapping, debugMode))
  }

  /** The requested format is kept exactly when the table gives it a
      non-empty extension; otherwise the default format and extension
      are used together. With a valid handler the announced format
      always maps back to the extension chosen. */
  function Negotiate(h: Handler, req: Request): (r: Negotiated)
    ensures var wanted := RequestedFormat(req, h.defaultFormat);
            var found := ExtensionByType(h.parse, h.table, wanted);
            if found.Ok? && found.value != "" then r == Negotiated(wanted, found.value)
            else r == Negotiated(h.defaultFormat, h.defaultExt)
    ensures Valid(h) ==> ExtensionByType(h.parse, h.table, r.format) == Ok(r.ext) && r.ext != ""
  {
    var format := RequestedFormat(req, h.defaultFormat);
    match ExtensionByType(h.parse, h.table, format)
    case Err(_) => Negotiated(h.defaultFormat, h.defaultExt)
    case Ok(ext) => if ext == "" then Negotiated(h.defaultFormat, h.defaultExt) else Negotiated(format, ext)
  }

  /** What the handler does for a request: announce the negotiated
      format, then serve the body stored under the exact or the class name
      for the working code and negotiated extension, or the plain 404. */
  function Resolve(h: Handler, req: Request): (r: Resolution)
    ensures var n := Negotiate(h, req);
            var code := WorkingCode(h.mapping, Get(req, CodeHeader));
            && (r.Serve? ==> r.code == code && r.contentType == n.format)
            && (r.Serve? ==> r.file == ExactKey(code, n.ext) || r.file == ClassKey(code, n.ext))
            && (r.Serve? ==> r.file in h.responses && r.body == h.responses[r.file])
            && (ExactKey(code, n.ext) in h.responses ==> r.Serve? && r.file == ExactKey(code, n.ext))
            && (r.NotFound? <==> ExactKey(code, n.ext) !in h.responses && ClassKey(code, n.ext) !in h.responses)
  {
    var n := Negotiate(h, req);
    var code := WorkingCode(h.mapping, Get(req, CodeHeader));
    match GetResponseReader(h.responses, code, n.ext)
    case Missing => NotFound
    case Found(body, file) => Serve(code, n.format, file, body)
  }

  /** The format steps of the handler closure: default an empty
      `X-Format`, then fall back to the default format and extension when
      the requested one does not parse or has no extension. */
  method ChooseFormat(h: Handler, req: Request) returns (format: string, ext: string)
    ensures Negotiated(format, ext) == Negotiate(h, req)
  {
    format := Get(req, FormatHeader);
    if format == "" {
      format := h.defaultFormat;
    }

    var found := ExtensionByType(h.parse, h.table, format);
    if found.Err? {
      ext := h.defaultExt;
      format := h.defaultFormat;
    } else if found.value == "" {
      ext := h.defaultExt;
      format := h.defaultFormat;
    } else {
      ext := found.value;
    }
  }

  /** The handler closure of `errorHandler`, on a writer nothing has been
      committed to. Its header map ends with the debug echo and the
      negotiated content type (rewritten by `http.NotFound` on a miss),
      and its reply is the resolution's: the plain 404 without a status
      line of its own, or the working code followed by the stored
      body. */
  method ServeHTTP(h: Handler, req: Request, w: ResponseWriter)
    requires w.reply == Pending
    modifies w
    ensures w.header == HandlerHeader(h.debugMode, req, old(w.header), Negotiate(h, req).format, Resolve(h, req))
    ensures w.reply == ReplyOf(Resolve(h, req))
  {
    if h.debugMode {
      w.EchoDiagnostics(req);
    }

    var format, ext := ChooseFormat(h, req);
    w.Set(ContentType, format);

    var code := ReadCode(h.mapping, Get(req, CodeHeader));

    var response := GetResponseReader(h.responses, code, ext);
    if response.Missing? {
      w.NotFound();
      return;
    }

    w.WriteHeader(code);
    w.Write(response.body);
  }

  // ---------------------------------------------------------------------
  // Properties of a request's resolution

  /** Whatever is served, the announced content type is a format the
      table maps to the extension of the body's name. */
  lemma ContentTypeMatchesBody(h: Handler, req: Request)
    requires Valid(h)
    requires Resolve(h, req).Serve?
    ensures var r := Resolve(h, req);
            exists ext :: ExtensionByType(h.parse, h.table, r.contentType) == Ok(ext) && ext != ""
                          && (r.file == ExactKey(r.code, ext) || r.file == ClassKey(r.code, ext))
  {
    var n := Negotiate(h, req);
    assert ExtensionByType(h.parse, h.table, n.format) == Ok(n.ext);
  }

  /** A request without `X-Format` is handled exactly like one that asks
      for the default format. */
  lemma EmptyFormatIsDefault(h: Handler, req: Request)
    requires Get(req, FormatHeader) == ""
    ensures var asked := WithHeader(req, FormatHeader, h.defaultFormat);
            Resolve(h, req) == Resolve(h, asked)
            && Negotiate(h, req) == Negotiate(h, asked)
  {
    var asked := WithHeader(req, FormatHeader, h.defaultFormat);
    assert Get(asked, FormatHeader) == h.defaultFormat;
    assert Get(asked, CodeHeader) == Get(req, CodeHeader);
  }

  /** A request whose format is unknown to the table, or does not parse,
      is answered in the default format with the default extension. */
  lemma UnknownFormatFallsBack(h: Handler, req: Request)
    requires var wanted := RequestedFormat(req, h.defaultFormat);
             ExtensionByType(h.parse, h.table, wanted).Err? || ExtensionByType(h.parse, h.table, wanted) == Ok("")
    ensures Negotiate(h, req) == Negotiated(h.defaultFormat, h.defaultExt)
  {
  }

  /** An `X-Code` that is not an integer, including a missing one, is
      handled exactly like `404`. */
  lemma UnparseableCodeIs404(h: Handler, req: Request)
    requires Atoi(Get(req, CodeHeader)).None?
    ensures Resolve(h, req) == Resolve(h, WithHeader(req, CodeHeader, "404"))
  {
    var asked := WithHeader(req, CodeHeader, "404");
    assert Get(asked, FormatHeader) == Get(req, FormatHeader);
    assert Get(asked, CodeHeader) == "404";
    UnparseableCodeWorksAs404(h.mapping, Get(req, CodeHeader));
  }

  /** Round trip: asking for a format whose extension is `ext` and for a
      code that is not remapped serves the body stored as `{code}.{ext}`,
      under that name, with that code and format. */
  lemma ExactEntryIsServed(h: Handler, format: string, code: int)
    requires format != "" && InIntRange(code) && code !in h.mapping
    requires ExtensionByType(h.parse, h.table, format).Ok? && ExtensionByType(h.parse, h.table, format).value != ""
    requires ExactKey(code, ExtensionByType(h.parse, h.table, format).value) in h.responses
    ensures var ext := ExtensionByType(h.parse, h.table, format).value;
            var req := Request(map[FormatHeader := format, CodeHeader := FormatInt(code)]);
            Resolve(h, req) == Serve(code, format, ExactKey(code, ext), h.responses[ExactKey(code, ext)])
  {
    var req := Request(map[FormatHeader := format, CodeHeader := FormatInt(code)]);
    assert Get(req, FormatHeader) == format && Get(req, CodeHeader) == FormatInt(code);
    WorkingCodeOfFormatted(h.mapping, code);
  }

  /** Fallback: without an exact entry, the body stored as
      `{code/100}xx.{ext}` is served under that name. */
  lemma ClassEntryIsServed(h: Handler, format: string, code: int)
    requires format != "" && InIntRange(code) && code !in h.mapping
    requires ExtensionByType(h.parse, h.table, format).Ok? && ExtensionByType(h.parse, h.table, format).value != ""
    requires ExactKey(code, ExtensionByType(h.parse, h.table, format).value) !in h.responses
    requires ClassKey(code, ExtensionByType(h.parse, h.table, format).value) in h.responses
    ensures var ext := ExtensionByType(h.parse, h.table, format).value;
            var req := Request(map[FormatHeader := format, CodeHeader := FormatInt(code)]);
            Resolve(h, req) == Serve(code, format, ClassKey(code, ext), h.responses[ClassKey(code, ext)])
  {
    var req := Request(map[FormatHeader := format, CodeHeader := FormatInt(code)]);
    assert Get(req, FormatHeader) == format && Get(req, CodeHeader) == FormatInt(code);
    WorkingCodeOfFormatted(h.mapping, code);
  }

  /** An example: a corpus with `404.html` and `5xx.html`, the
      default format `text/html` and no remapping. Without `X-Format`,
      404 is served from `404.html`, 503 from `5xx.html`, and 418 gets the
      plain 404. */
  lemma HtmlCorpusResolution(h: Handler, notFoundPage: Bytes, serverErrorPage: Bytes)
    requires Valid(h) && h.defaultFormat == "text/html" && h.defaultExt == "html" && h.mapping == map[]
    requires h.responses == map["404.html" := notFoundPage, "5xx.html" := serverErrorPage]
    ensures Resolve(h, Request(map[CodeHeader := "404"])) == Serve(404, "text/html", "404.html", notFoundPage)
    ensures Resolve(h, Request(map[CodeHeader := "503"])) == Serve(503, "text/html", "5xx.html", serverErrorPage)
    ensures Resolve(h, Request(map[CodeHeader := "418"])) == NotFound
  {
    HtmlCorpusExample(notFoundPage, serverErrorPage);
    assert FormatInt(404) == "404" && FormatInt(503) == "503" && FormatInt(418) == "418";
    WorkingCodeOfFormatted(h.mapping, 404);
    WorkingCodeOfFormatted(h.mapping, 503);
    WorkingCodeOfFormatted(h.mapping, 418);
    var req404, req503, req418 := Request(map[CodeHeader := "404"]), Request(map[CodeHeader := "503"]), Request(map[CodeHeader := "418"]);
    assert Get(req404, FormatHeader) == "" && Get(req404, CodeHeader) == "404";
    assert Get(req503, FormatHeader) == "" && Get(req503, CodeHeader) == "503";
    assert Get(req418, FormatHeader) == "" && Get(req418, CodeHeader) == "418";
  }

  /** The documented remap `494:400,529:503`, which parses to this map
      by `DocumentedExample`: a request for 494 is looked up and answered
      as 400. */
  lemma DocumentedRemapResolution(h: Handler, req: Request)
    requires h.mapping == map[494 := 400, 529 := 503]
    requires Get(req, CodeHeader) == "494"
    ensures WorkingCode(h.mapping, Get(req, CodeHeader)) == 400
    ensures Resolve(h, req) == Resolve(h, WithHeader(req, CodeHeader, "400"))
  {
    assert FormatInt(494) == "494" && FormatInt(400) == "400";
    WorkingCodeOfFormatted(h.mapping, 494);
    WorkingCodeOfFormatted(h.mapping, 400);
    var asked := WithHeader(req, CodeHeader, "400");
    assert Get(asked, FormatHeader) == Get(req, FormatHeader);
  }
}
