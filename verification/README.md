# nginx-errors in Dafny

This project models the request-resolution core of `nginx-errors`. That program is the default backend that an NGINX ingress controller asks for custom error pages. Each request carries the error's status code in `X-Code` and the wanted media type in `X-Format`. The backend answers with one of these:

- a stored error page, with a status line and a `Content-Type`;
- the standard library's plain 404.

Two variants of the handler are modelled:

- **main.go with mime.go and response.go.** A MIME table is built from the lines of a `mime.types` file. A media type maps to an undotted extension. The bodies are a corpus of files named `{code}.{ext}` or `{class}xx.{ext}`. The status code can be remapped by a `SRC:DST,...` configuration.
- **rootfs/main.go.** This is the older handler. It uses the standard library's dotted extension lists and serves `.htm` as `.html`. It opens `{path}/{code}{ext}` and then `{path}/{code/100}xx{ext}`.

The modules:

- `Wrappers`: `Option` and `Result`.
- `GoText`: the Go text primitives the handlers rely on, stated exactly:
  - `strconv.Atoi` with 64-bit range;
  - `%d`;
  - division truncating toward zero;
  - `strings.Split`, `strings.Cut` and `strings.HasPrefix`;
  - `strings.Fields` over `unicode.IsSpace`.
- `Assoc`: a Go map filled by a loop that writes, skips or panics per item. The last write to a key wins and the first panic stops the loop. It has lemmas about the result. Both the MIME table and the status mapping are built this way.
- `Mime`: `ExtensionByType`, and the `init` loop over the lines of `mime.types`. The loop is written as a method proved against the function `TableOf`.
- `StatusMapping`: `parseStatusCodeMapping`, written as a method proved against `MappingOf`. The module also holds the single-step remap and the parse-then-remap of `X-Code` shared by both handlers. The legacy file carries a textually identical copy of the parser, so this module models both copies.
- `ResponseCorpus`: `GetResponseReader`, a lookup of the exact name, then the class name.
- `Http`:
  - the request header map and `Header.Get`;
  - a `ResponseWriter` class whose header map and committed reply change in place;
  - the debug echo of the eight diagnostic headers;
  - the header rewrite done by `http.NotFound`.
- `ErrorHandler`: the constructor check and the handler closure of main.go.
- `LegacyHandler`: the same for rootfs/main.go.

In both handler modules, the closure is a method `ServeHTTP` that reassigns `format`, `ext` and `code` as the source does. Its result is proved equal to a pure function `Resolve`. The properties are proved about `Resolve`.

Three behaviours of the code are easy to miss:

- A remap rule keyed on 404 fires for every request whose `X-Code` is not an integer. The 404 fallback comes before the remap, so the remap sees 404 (`StatusMapping.UnparseableCodeWorksAs404`).
- The plain 404 is `http.NotFound`. It replaces the `Content-Type` the handler set before the lookup with `text/plain; charset=utf-8` and adds `X-Content-Type-Options: nosniff` (`Http.ContentTypeOfReply`). It also writes a short fixed text, so the body is not empty; that text is not modelled.
- For a negative code, the class name uses Go's truncating division. For `-150` it is `-1xx.{ext}` (`ResponseCorpus.ClassKeyOfNegativeCode`).

## Model

| member | source | states |
|---|---|---|
| GoText.Atoi | main.go:136-141 | an accepted header is an optional sign then at least one digit, nothing else, and its value fits in a 64-bit int |
| GoText.AtoiOfSignedDigits | main.go:136-141 | conversely, every optional sign followed by digits is accepted with its signed decimal value when that fits in a 64-bit int, and rejected when it does not |
| GoText.AtoiIgnoresPlus | main.go:136-141 | a `+` sign reads the same as no sign, so `+404` selects 404 |
| GoText.AtoiIgnoresLeadingZero | main.go:136-141 | a leading zero changes nothing, whatever the sign, so `0404` selects 404 |
| GoText.AtoiMinusZero | main.go:136-141 | `-0` reads as 0 |
| GoText.FormatInt | response.go:37 | `%d` prints digits, with a leading `-` exactly when the value is negative, no leading zero except for 0 itself, and never `-0` |
| GoText.AtoiFormatInt | main.go:170-177 | what `%d` prints, `strconv.Atoi` reads back as the same int |
| GoText.FormatIntInjective | response.go:37 | different codes print differently |
| GoText.Div100 | response.go:44 | `code/100` truncates toward zero: the quotient times 100 is within 99 of the code and on the code's side of zero |
| GoText.Div100TruncatesTowardZero | rootfs/main.go:160 | `-150/100` is `-1` in Go, where Euclidean division gives `-2` |
| GoText.Split | main.go:165 | splitting gives at least one piece, and no piece holds the separator |
| GoText.JoinSplit | main.go:165 | the pieces joined with the separator give back the string |
| GoText.SplitJoin | main.go:165 | separator-free pieces joined and split again give back the pieces |
| GoText.Cut | main.go:166 | `Cut` finds a separator exactly when there is one; the text is then before + `:` + after, with none in before; otherwise before is the text and after is empty |
| GoText.CutAt | main.go:166 | the cut is at the first separator |
| GoText.HasPrefix | mime.go:23 | defines `strings.HasPrefix`: the text starts with the prefix |
| GoText.Fields | mime.go:26 | every field is non-empty and holds no white space; `FieldsOfSpaced` and `FieldsEmptyIffBlank` pin down which fields a line has |
| GoText.FieldsEmptyIffBlank | mime.go:26-29 | a line has no fields exactly when it is all white space |
| GoText.FieldsSkipsLeadingSpace | mime.go:26 | leading white space does not change the fields |
| GoText.WordLengthOfWord | mime.go:26 | a word ends at the first white space after it, or at the end of the line |
| GoText.FieldsOfSpaced | mime.go:26 | words separated by runs of white space of any length and kind (tabs included), with any white space before and after, split back into exactly those words |
| GoText.IsSpace | mime.go:26 | defines `unicode.IsSpace`, the white space `strings.Fields` separates on: tab, newline, vertical tab, form feed, carriage return, space, U+0085, U+00A0 and the Unicode `White_Space` code points above them |
| Assoc.Collect | mime.go:21-31 | defines the map-filling loop shared by mime.go:21-31 and main.go:164-180: each item writes a key, is skipped, or panics; the result is the map or the first panic |
| Assoc.CollectErrorSticks | mime.go:27-29 | after a panic, later lines do not change the outcome |
| Assoc.CollectSucceeds | main.go:165-179 | the fill loop completes exactly when no item panics |
| Assoc.CollectFirstError | mime.go:21-31 | the loop panics with the first item that panics |
| Assoc.CollectKeys | main.go:178 | after the loop, a key is present exactly when some item writes it |
| Assoc.CollectLastWins | mime.go:30 | a key holds the value of the last item that writes it |
| Assoc.CollectAllWrites | main.go:164-180 | a loop whose items all write builds the map of those writes in order |
| Mime.ExtensionByType | mime.go:41-47 | error exactly when the media type does not parse; otherwise the table's value for the bare type, verbatim, or `""` when it has none |
| Mime.LineStep | mime.go:22-30 | one line is skipped exactly when its first character is `#`; an entry is two non-empty words free of white space; any other line stops loading with that line as the error |
| Mime.TableOf | mime.go:21-31 | defines the table the loop builds, or the panic it stops at, as a fold of `LineStep` over the lines |
| Mime.LoadTable | mime.go:21-31 | the `init` loop returns the table that `TableOf` builds from the lines, or the panic it stops at |
| Mime.TableOfSucceeds | mime.go:23-29 | loading succeeds exactly when every line is a `#` comment or has exactly two fields |
| Mime.TableOfFirstInvalid | mime.go:26-29 | loading panics with the first line that is neither |
| Mime.TableKeys | mime.go:30 | a type is in the table exactly when some non-comment line names it as first field |
| Mime.TableLastEntryWins | mime.go:30 | a later line for a type overwrites an earlier one |
| Mime.TableExtensionsNonEmpty | mime.go:26-30 | every extension in a loaded table is non-empty |
| Mime.BlankLineIsInvalid | mime.go:26-29 | a blank or all-space line stops loading |
| Mime.IndentedHashIsAnEntry | mime.go:23-25 | only a `#` in the first column makes a comment: ` #x y` is an entry |
| Mime.ExtensionOfLoadedTable | mime.go:39-46 | with a loaded table, `""` means exactly that the parsed type is not registered |
| StatusMapping.ParsePair | main.go:166-178 | defines one piece: cut at its first `:`, a missing `:` is the configuration's panic, and each side must be read by `strconv.Atoi` |
| StatusMapping.MappingOf | main.go:160-181 | defines the result of `parseStatusCodeMapping`: the empty map for `""`, otherwise the fold of `ParsePair` over the comma-separated pieces |
| StatusMapping.ParseStatusCodeMapping | main.go:160-181 | the loop returns the map `MappingOf` gives, or the panic it stops at; rootfs/main.go:176-197 is the same code |
| StatusMapping.EmptyConfigIsIdentity | main.go:161-163 | an empty configuration remaps nothing |
| StatusMapping.MappingSucceeds | main.go:165-177 | a non-empty configuration parses exactly when every piece has a `:` with an integer on both sides |
| StatusMapping.MissingColonFails | main.go:167-169 | a piece without `:` fails the whole configuration |
| StatusMapping.BadSourceFails | main.go:170-173 | a piece whose source is not an integer fails the whole configuration |
| StatusMapping.LastDuplicateWins | rootfs/main.go:194 | for a repeated source, the last pair wins |
| StatusMapping.MappingKeys | main.go:178 | a code is remapped exactly when some piece names it as source |
| StatusMapping.ParsePairOfFormatted | main.go:166-177 | a pair written as `SRC:DST` parses back to itself |
| StatusMapping.ParseFormattedPair | main.go:165-178 | a written pair has no comma and the loop writes it |
| StatusMapping.MappingOfFormatted | main.go:160-181 | round trip: any list of pairs written as `SRC:DST,...` parses to the map that writes them in order; no pairs give the empty configuration and the empty map |
| StatusMapping.DocumentedExample | main.go:64-66 | `494:400,529:503` parses to {494: 400, 529: 503} |
| StatusMapping.Remap | main.go:142-145 | the mapped code when the code has an entry, the code itself otherwise |
| StatusMapping.RemapDoesNotChain | rootfs/main.go:149-152 | the remap is one lookup: with `1:2,2:3`, 1 becomes 2, not 3 |
| StatusMapping.ReadCode | main.go:136-145 | the closure's code steps compute `WorkingCode`: Atoi, else 404, then one remap; rootfs/main.go:143-152 is the same code |
| StatusMapping.WorkingCode | main.go:136-145 | defines the working status code: `X-Code` read by `strconv.Atoi`, 404 when that fails, then one lookup in the mapping |
| StatusMapping.WorkingCodeOfFormatted | main.go:136-145 | an integer header is used as written, then remapped once |
| StatusMapping.UnparseableCodeWorksAs404 | main.go:137-145 | a non-integer or missing header works like `404`, so a `404:DST` rule rewrites it |
| ResponseCorpus.ExactKey | response.go:37 | defines the exact corpus name `fmt.Sprintf("%d.%s", code, ext)` |
| ResponseCorpus.ClassKey | response.go:44 | defines the class corpus name `fmt.Sprintf("%dxx.%s", code/100, ext)` with truncating division |
| ResponseCorpus.ExactKeyReadsBack | response.go:37 | the exact name cuts at its first `.` into the printed code and the extension, and `strconv.Atoi` reads the code back |
| ResponseCorpus.ClassKeyReadsBack | response.go:44 | the class name cuts at its first `x` into the printed class and `x.{ext}`, and `strconv.Atoi` reads the class back |
| ResponseCorpus.GetResponseReader | response.go:36-50 | a found body is the corpus entry of its returned name; that name is the exact name when present, else the class name; nothing is found exactly when neither is present |
| ResponseCorpus.ExactAndClassKeysDiffer | response.go:37-44 | the fallback name is never the exact name |
| ResponseCorpus.ExactKeyInjective | response.go:37-39 | the name a body is served under determines its code and extension |
| ResponseCorpus.ClassKeyOfStatus | response.go:44 | for codes 100..999 the class is the hundreds digit |
| ResponseCorpus.ClassKeyOfNegativeCode | response.go:44 | code -150 falls back to `-1xx.{ext}` |
| ResponseCorpus.HtmlCorpusExample | response.go:33-35 | with `404.html` and `5xx.html`: 404 finds `404.html`, 503 finds `5xx.html`, 418 finds nothing |
| Http.Get | main.go:112 | defines `r.Header.Get`: the request's value for the header, or `""` when it is absent |
| Http.RequestedFormat | main.go:112-118 | defines the requested format: `X-Format`, or the default format when that is empty |
| Http.Echo | main.go:101-110 | the debug echo sets each of the eight diagnostic headers to the request's value, or `""` when absent, and leaves every other header as it was |
| Http.HandlerHeader | main.go:101-110 | defines the header map a request leaves behind: the debug echo of main.go:101-110, the `Content-Type` of main.go:134, then the `http.NotFound` rewrite of main.go:149 when nothing is served |
| Http.ReplyOf | main.go:148-156 | the committed reply of main.go:148-156: the plain 404 exactly when nothing is served, otherwise the working code's status line, followed by the stored body unless the code is 1xx, 204 or 304, which net/http sends without a body |
| Http.PlainHeader | main.go:149 | `http.NotFound` drops the length, sets `text/plain; charset=utf-8` and `nosniff`, and leaves the rest |
| Http.ResponseWriter.constructor | main.go:100 | a fresh writer has no headers and nothing committed |
| Http.ResponseWriter.Set | main.go:134 | `Header().Set` replaces one header and commits nothing |
| Http.ResponseWriter.EchoDiagnostics | rootfs/main.go:104-113 | the eight `Set` calls leave the header map `Echo` describes |
| Http.ResponseWriter.NotFound | main.go:148-150 | commits the plain 404 unless something is committed, with the header rewrite of `PlainHeader` |
| Http.ResponseWriter.WriteHeader | main.go:154 | commits the status line once; a later call changes nothing |
| Http.ResponseWriter.Write | main.go:156 | appends to the committed body, committing 200 first when nothing was committed; after a 1xx, 204 or 304 status line the data is refused and nothing changes |
| Http.ContentTypeOfReply | main.go:134-150 | a served reply carries the negotiated content type; a miss carries plain text and `nosniff` |
| Http.DiagnosticsEchoedOnlyInDebug | main.go:101-110 | in debug mode each diagnostic header is echoed verbatim; otherwise only the content-type headers change |
| ErrorHandler.NewErrorHandler | main.go:94-98 | construction fails exactly when the default format does not parse or has no extension; a built handler keeps the configuration and its default extension is the default format's |
| ErrorHandler.Negotiate | main.go:112-133 | the requested format (the default when `X-Format` is empty) is kept exactly when it has a non-empty extension; otherwise both default format and extension are used; with a valid handler the announced format maps back to the extension |
| ErrorHandler.ChooseFormat | main.go:112-133 | the closure's format steps compute `Negotiate` |
| ErrorHandler.Resolve | main.go:134-156 | a served body has the working code, the negotiated format, and the corpus entry of the exact or class name; the exact name wins; the plain 404 exactly when neither name is stored |
| ErrorHandler.ServeHTTP | main.go:100-157 | the closure leaves the header map of echo, content type and any `NotFound` rewrite, and commits the reply of `Resolve`: the plain 404 without `WriteHeader(code)`, or the working code and the stored body, which is dropped for 1xx, 204 and 304 |
| ErrorHandler.ContentTypeMatchesBody | main.go:120-134 | the announced content type maps to the extension in the served body's name |
| ErrorHandler.EmptyFormatIsDefault | main.go:112-118 | a request without `X-Format` is handled exactly like one asking for the default format |
| ErrorHandler.UnknownFormatFallsBack | main.go:120-133 | an unparseable or unregistered format is answered in the default format and extension |
| ErrorHandler.UnparseableCodeIs404 | main.go:136-141 | a request with a non-integer or missing `X-Code` is handled exactly like `X-Code: 404` |
| ErrorHandler.ExactEntryIsServed | response.go:37-40 | round trip, for every handler: a format with extension `ext` and an unmapped code serve `{code}.{ext}` under that name |
| ErrorHandler.ClassEntryIsServed | response.go:44-47 | without an exact entry, `{code/100}xx.{ext}` is served |
| ErrorHandler.HtmlCorpusResolution | main.go:112-156 | with `404.html` and `5xx.html` and default `text/html`: 404 and 503 are served from them, 418 gets the plain 404 |
| ErrorHandler.DocumentedRemapResolution | main.go:142-145 | with the mapping `494:400,529:503`, a request for 494 is looked up and answered as 400 |
| LegacyHandler.NewLegacyHandler | rootfs/main.go:96-101 | construction fails exactly when the default format does not parse or lists no extension; the default extension is the first listed |
| LegacyHandler.HtmAlias | rootfs/main.go:137-140 | `.htm` becomes `.html`, and any other extension is unchanged |
| LegacyHandler.Negotiate | rootfs/main.go:115-140 | the requested format is kept exactly when it lists an extension; the extension is the aliased first listed one, or the aliased default; never `.htm` |
| LegacyHandler.ChooseFormat | rootfs/main.go:115-140 | the legacy closure's format steps compute `Negotiate` |
| LegacyHandler.ExactPath | rootfs/main.go:154 | `fmt.Sprintf("%s/%d%s", path, code, ext)`; with a dotted extension it is the directory plus the exact corpus name of response.go |
| LegacyHandler.ClassPath | rootfs/main.go:160 | `fmt.Sprintf("%s/%dxx%s", path, code/100, ext)`; with a dotted extension it is the directory plus the class corpus name of response.go |
| LegacyHandler.Resolve | rootfs/main.go:154-172 | a served file has the working code, the negotiated format, and is the exact path when it exists, else the class path; the plain 404 exactly when neither exists |
| LegacyHandler.ServeHTTP | rootfs/main.go:103-173 | the legacy closure leaves the same header map as the newer one and commits the reply of its path probes |
| LegacyHandler.ProbePathsDiffer | rootfs/main.go:154-161 | the fallback never reopens the path that just failed |
| LegacyHandler.HtmlIsServedFromHtmlFiles | rootfs/main.go:135-140 | `text/html` listed as `.htm`, `.html` is served from `.html` files |
| LegacyHandler.AliasAppliesToDefault | rootfs/main.go:123-140 | a `.htm` default extension is also served as `.html` |
| LegacyHandler.EmptyFormatIsDefault | rootfs/main.go:115-121 | a request without `X-Format` is handled like one asking for the default |
| LegacyHandler.UnparseableCodeIs404 | rootfs/main.go:143-148 | a non-integer or missing `X-Code` is handled like `404` |
| LegacyHandler.ExactFileIsServed | rootfs/main.go:154-155 | round trip: an unmapped code serves `{path}/{code}{ext}` |
| LegacyHandler.ClassFileIsServed | rootfs/main.go:156-161 | when the exact file cannot be opened, `{path}/{code/100}xx{ext}` is served |
| LegacyHandler.WwwExample | rootfs/main.go:154-167 | on `/www`, 404 and 503 are served from `/www/404.html` and `/www/5xx.html`; 418 gets the plain 404 |

## Left out

- `main()` of both files is not modelled: reading the environment, the built-in `text/html` default, route registration, `ListenAndServe` and `/healthz`. The handlers take the configuration as values.
- Loading the corpus from disk is not modelled (response.go:16-31). It is a given map from file name to contents.
- The legacy file probes are a map from path to contents, and a path opens exactly when it is a key. Opening a directory, permission errors and `io.Copy` failures are not modelled.
- Opening `mime.types` and splitting it into lines with `bufio.Scanner` are not modelled; the loader takes the lines. A line over the scanner's 64 KiB limit silently ends the loop in the source, and that is not modelled.
- `mime.ParseMediaType` and `mime.ExtensionsByType` are function parameters (`Mime.MediaTypeParser`, `LegacyHandler.ExtensionsParser`). Their grammar (section 5.1 of RFC 2045) and the standard library's built-in type list are not modelled.
- Header names are map keys as written. `http.Header` canonicalises names on `Get` and `Set`, so `X-Request-ID` is stored as `X-Request-Id`, and a request header may carry several values of which `Get` returns the first. Neither is modelled.
- `Http.ResponseWriter.WriteHeader`: does not model net/http's panic for a code outside 100..999, nor the informational 1xx codes other than 101, which leave the reply uncommitted in net/http.
- `ErrorHandler.ServeHTTP`: inherits the `WriteHeader` gap. For a working code outside 100..999, net/http panics. For a 1xx code other than 101, net/http commits nothing at `WriteHeader`; the body write then sends 200 with the body. The contract gives `Status(code, body)` for an out-of-range code and `Status(code, [])` for an informational one. For 101, 204 and 304 the contract matches net/http: the status line is committed and the body is refused.
- `LegacyHandler.ServeHTTP`: inherits the same `WriteHeader` gap, with the same outcome as `ErrorHandler.ServeHTTP`.
- The request method is not modelled. net/http sends no body in reply to `HEAD`, whereas both `ServeHTTP` contracts give the stored body whatever the method.
- `Http.ResponseWriter.NotFound`: the fixed text that `http.NotFound` writes as the body is not modelled; the reply is the abstract `PlainNotFound`. On a writer that already committed a status, net/http appends that text to the body; the model leaves the committed reply as it was. Neither handler calls it after committing.
- `Http.ResponseWriter.Write`: after the plain 404, net/http appends the data after the 404 text; the model drops it, because `PlainNotFound` carries no body. Neither handler writes after the plain 404.
- Header changes after the reply is committed still change the modelled map; net/http would not send them. The handlers make no such changes.
- The `debugMode` argument of `GetResponseReader` and every `log.Printf` only log, and they are not modelled.
- Concurrent requests are not modelled. The tables are read-only after startup, so each request is modelled as an independent call.
- Strings are sequences of code points; Go's byte view of invalid UTF-8 in headers and `mime.types` lines is not modelled.
- A parse failure of the configuration or the MIME table, and a default format without an extension, are `Err` results rather than process panics.
