/** The part of net/http that both error handlers touch: the request's
    header map, read with `Header.Get`, and a response writer whose header
    map is changed with `Header().Set` before the reply is committed, either
    by `http.NotFound` or by `WriteHeader(code)` followed by the body. */
module Http {
  import opened GoText

  const FormatHeader: string := "X-Format"
  const CodeHeader: string := "X-Code"
  const OriginalURI: string := "X-Original-URI"
  const Namespace: string := "X-Namespace"
  const IngressName: string := "X-Ingress-Name"
  const ServiceName: string := "X-Service-Name"
  const ServicePort: string := "X-Service-Port"
  const RequestID: string := "X-Request-ID"
  const ContentType: string := "Content-Type"
  const ContentLength: string := "Content-Length"
  const ContentTypeOptions: string := "X-Content-Type-Options"

  /** The content type `http.NotFound` announces for its fixed text. */
  const PlainText: string := "text/plain; charset=utf-8"

  /** The headers echoed back in debug mode, in the order they are set. */
  const DiagnosticHeaders: seq<string> :=
    [FormatHeader, CodeHeader, OriginalURI, Namespace, IngressName, ServiceName, ServicePort, RequestID]

  /** The panic of either `errorHandler` when the default format has no
      extension. */
  datatype StartupError = NoDefaultExtension(defaultFormat: string)

  datatype Request = Request(header: map<string, string>)

  /** `r.Header.Get(name)`: the empty string for a header that is absent. */
  function Get(req: Request, name: string): string {
    if name in req.header then req.header[name] else ""
  }

  /** The format a request asks for: its `X-Format`, or the configured
      default when that is empty. */
  function RequestedFormat(req: Request, defaultFormat: string): string {
    if Get(req, FormatHeader) == "" then defaultFormat else Get(req, FormatHeader)
  }

  /** The format a handler announces as the content type and the
      extension of the body it looks for. */
  datatype Negotiated = Negotiated(format: string, ext: string)

  /** The request with one header set, as a client would send it. */
  function WithHeader(req: Request, name: string, value: string): Request {
    Request(req.header[name := value])
  }

  /** The response writer's header map after the debug echo: each of the
      diagnostic headers holds the request's value for it (empty when the
      request lacks it) and every other header is as it was. */
  function Echo(header: map<string, string>, req: Request): (h: map<string, string>)
    ensures forall name | name in DiagnosticHeaders :: name in h && h[name] == Get(req, name)
    ensures forall name | name !in DiagnosticHeaders ::
              (name in h <==> name in header) && (name in header ==> h[name] == header[name])
  {
    header[FormatHeader := Get(req, FormatHeader)]
          [CodeHeader := Get(req, CodeHeader)]
          [OriginalURI := Get(req, OriginalURI)]
          [Namespace := Get(req, Namespace)]
          [IngressName := Get(req, IngressName)]
          [ServiceName := Get(req, ServiceName)]
          [ServicePort := Get(req, ServicePort)]
          [RequestID := Get(req, RequestID)]
  }

  /** What has been committed on the connection: nothing yet, the standard
      library's plain 404 reply, or a status line with the body copied after
      it. */
  datatype Reply = Pending | PlainNotFound | Status(code: int, body: Bytes)

  /** What a handler decided to send: the plain 404, or a status, the
      content type announced for it, and the stored body with the name it
      was found under. */
  datatype Resolution = NotFound | Serve(code: int, contentType: string, file: string, body: Bytes)

  /** net/http's `bodyAllowedForStatus`: a 1xx, 204 or 304 status line
      is sent without a body. */
  predicate BodyAllowed(code: int) {
    !(100 <= code <= 199 || code == 204 || code == 304)
  }

  /** The reply a resolution commits: the plain 404, or the status line
      followed by the stored body when the status allows one. */
  function ReplyOf(r: Resolution): (reply: Reply)
    ensures r.NotFound? <==> reply == PlainNotFound
    ensures r.Serve? ==> reply.Status? && reply.code == r.code
    ensures r.Serve? && BodyAllowed(r.code) ==> reply.body == r.body
    ensures r.Serve? && !BodyAllowed(r.code) ==> reply.body == []
  {
    match r
    case NotFound => PlainNotFound
    case Serve(code, _, _, body) => Status(code, if BodyAllowed(code) then body else [])
  }

  /** The header map as `http.NotFound` leaves it: no length, the plain
      text content type in place of whatever was set, and no sniffing. */
  function PlainHeader(header: map<string, string>): (h: map<string, string>)
    ensures ContentLength !in h
    ensures ContentType in h && h[ContentType] == PlainText
    ensures ContentTypeOptions in h && h[ContentTypeOptions] == "nosniff"
    ensures forall name | name != ContentLength && name != ContentType && name != ContentTypeOptions ::
              (name in h <==> name in header) && (name in header ==> h[name] == header[name])
  {
    (header - {ContentLength})[ContentType := PlainText][ContentTypeOptions := "nosniff"]
  }

  /** The header map a handler leaves behind: the echo in debug mode, then
      the content type, which is set whatever the resolution, and finally
      the rewrite of `http.NotFound` when nothing is served. */
  function HandlerHeader(debugMode: bool, req: Request, header: map<string, string>,
                         contentType: string, r: Resolution): map<string, string>
  {
    var announced := (if debugMode then Echo(header, req) else header)[ContentType := contentType];
    if r.NotFound? then PlainHeader(announced) else announced
  }

  class ResponseWriter {
    var header: map<string, string>
    var reply: Reply

    constructor ()
      ensures header == map[] && reply == Pending
    {
      header := map[];
      reply := Pending;
    }

    /** `w.Header().Set(name, value)`. */
    method Set(name: string, value: string)
      modifies this
      ensures header == old(header)[name := value] && reply == old(reply)
    {
      header := header[name := value];
    }

    /** The debug echo: `Set` of each diagnostic header to the request's
        value for it. */
    method EchoDiagnostics(req: Request)
      modifies this
      ensures header == Echo(old(header), req) && reply == old(reply)
    {
      Set(FormatHeader, Get(req, FormatHeader));
      Set(CodeHeader, Get(req, CodeHeader));
      Set(OriginalURI, Get(req, OriginalURI));
      Set(Namespace, Get(req, Namespace));
      Set(IngressName, Get(req, IngressName));
      Set(ServiceName, Get(req, ServiceName));
      Set(ServicePort, Get(req, ServicePort));
      Set(RequestID, Get(req, RequestID));
    }

    /** `http.NotFound(w, r)`: rewrites the header map for its plain text
        and commits the 404 when nothing was committed yet. */
    method NotFound()
      modifies this
      ensures header == PlainHeader(old(header))
      ensures reply == if old(reply).Pending? then PlainNotFound else old(reply)
    {
      header := (header - {ContentLength})[ContentType := PlainText];
      header := header[ContentTypeOptions := "nosniff"];
      if reply.Pending? {
        reply := PlainNotFound;
      }
    }

    /** `w.WriteHeader(code)`: commits the status line; a second call is
        superfluous and changes nothing. */
    method WriteHeader(code: int)
      modifies this
      ensures header == old(header)
      ensures reply == if old(reply).Pending? then Status(code, []) else old(reply)
    {
      if reply.Pending? {
        reply := Status(code, []);
      }
    }

    /** `w.Write(data)`, as `io.Copy` calls it: appends to the body, and
        commits status 200 first when nothing was committed yet. After a
        status line that allows no body the data is refused
        (`ErrBodyNotAllowed`) and nothing changes. */
    method Write(data: Bytes)
      modifies this
      ensures header == old(header)
      ensures old(reply).Pending? ==> reply == Status(200, data)
      ensures old(reply).Status? && BodyAllowed(old(reply).code) ==>
                reply == Status(old(reply).code, old(reply).body + data)
      ensures old(reply).Status? && !BodyAllowed(old(reply).code) ==> reply == old(reply)
      ensures old(reply).PlainNotFound? ==> reply == old(reply)
    {
      match reply
      case Pending => reply := Status(200, data);
      case Status(code, body) =>
        if BodyAllowed(code) {
          reply := Status(code, body + data);
        }
      case PlainNotFound =>
    }
  }

  /** The content type of the reply is the negotiated format when a body
      is served, and the plain text of `http.NotFound` otherwise: the
      format set before the lookup does not survive a miss. */
  lemma ContentTypeOfReply(debugMode: bool, req: Request, header: map<string, string>,
                           contentType: string, r: Resolution)
    ensures var h := HandlerHeader(debugMode, req, header, contentType, r);
            && ContentType in h
            && (r.Serve? ==> h[ContentType] == contentType)
            && (r.NotFound? ==> h[ContentType] == PlainText && h[ContentTypeOptions] == "nosniff")
  {
  }

  /** With debug mode on, each diagnostic header reaches the response
      verbatim; with it off, none is set. Either way no other header but
      the three that `http.NotFound` rewrites and the content type
      changes. */
  lemma DiagnosticsEchoedOnlyInDebug(debugMode: bool, req: Request, header: map<string, string>,
                                     contentType: string, r: Resolution)
    ensures var h := HandlerHeader(debugMode, req, header, contentType, r);
            && (debugMode ==> forall name | name in DiagnosticHeaders :: name in h && h[name] == Get(req, name))
            && (!debugMode ==> forall name | name != ContentType && name != ContentLength && name != ContentTypeOptions ::
                                 (name in h <==> name in header) && (name in header ==> h[name] == header[name]))
  {
    assert ContentType !in DiagnosticHeaders && ContentLength !in DiagnosticHeaders;
    assert ContentTypeOptions !in DiagnosticHeaders;
  }
}
