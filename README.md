# go-server HTTP/1.1 core, modelled in Dafny

A model of the HTTP/1.1 core of go-server, a small server that reads one request per
connection, routes it by method and target prefix, and writes one response. The modelled
parts are:

- the case-insensitive header map;
- request decoding (`Request.From`) and response writing (`httpResponse`);
- the "gzip" content-coding switch;
- the six handlers (`rootGet`, `handleNotFound`, `echoGet`, `userAgentGet`, `filesGet`,
  `filesPost`);
- the two route tables (`server` and `router`);
- the per-connection step (`handleConn`).

Strings are sequences of `char`, one character per byte. The source converts between
`[]byte` and `string` without decoding, and the model does the same.

Modules, one file each:

- `Wrappers` (`wrappers.dfy`): `Option` and `Result`.
- `Text` (`text.dfy`): the parts of Go's `strings`, `strconv` and `http.CanonicalHeaderKey`
  the core relies on, as specification functions with their properties.
- `HeaderMap` (`headers.dfy`): the `Headers` map type as a class over a `map` field, with
  `Set`, `Get` and `NewResponseHeaders`.
  - `Stored` is the value-level meaning of one `Set`.
  - `Lookup` is the meaning of `Get`.
  - `WellFormed` is the invariant `Set` keeps: one key per case-folded name, no empty value.
- `HttpRequest` (`request.dfy`): the `Request` class and `From`.
  - `Parse` is the value-level decoder that `From` is proved against.
  - A run-time panic of the source (an index out of range) is the `Panic` value it yields.
  - `RequestBytes` is a request encoder; the round-trip lemmas relate it to `Parse`.
- `HttpResponse` (`response.dfy`): `httpResponse` as `Respond` over a `Writer` that
  collects what is written.
  - `Message` is the exact byte layout `Respond` produces.
  - `ReadResponse` is a client-side reader, and `ReadMessage` proves it recovers the status,
    the header fields and the body.
- `Encoding` (`encoding.dfy`): `encoderFromRequest` and the gzip encoder.
- `Handlers` (`handlers.dfy`): the handlers, over a `Disk` object that stands for the file
  system.
  - `Expected` gives, for each handler, the reply it must send.
  - `Delivered` says that exactly that reply reached the writer, or that the write failed
    and nothing was written.
- `Routing` (`routing.dfy`): first-match route selection, shared by both route tables.
- `HttpServer` (`server.dfy`): `server` with `NewServer`, `Register`, `Route` and
  `handleConn`.
- `HttpRouter` (`router.dfy`): the stand-alone `router` type.

### Where the code and its documentation or tests disagree

The model follows the code in each case below.

- **Accept-Encoding is compared, not negotiated.** `encoderFromRequest` selects gzip only
  when the whole Accept-Encoding value is exactly `gzip`. Lists such as `deflate, gzip, br`
  and padded values such as ` gzip , deflate` select nothing, although app/encoding_test.go
  and app/handlers_test.go expect them to select gzip. A quality value such as
  `gzip;q=0.8, deflate;q=0.6` also selects nothing, and there the tests agree
  (app/encoding_test.go:30-32). See section 12.5.3 of RFC 9110 for the negotiated form.
  `Encoding.ListsAreNotNegotiated` states this.
- **The encoder is an identity.** The gzip encoder's `Encode` and `Decode` return their
  input. `Decode` never fails, although app/encoding_test.go expects compression and a
  decode error on bad input.
- **Malformed requests panic.** `From` never returns an error; it indexes past the end of a
  slice instead. This happens for:
  - a request line with fewer than three space-separated tokens;
  - input without any CRLF;
  - a non-empty middle line without a colon.

  Nothing recovers the panic. app/integration_test.go expects an error for `"\r\n"` and a
  graceful skip of a header line without a colon. The model yields `Crashed(panic)` from
  `HandleConn`, and nothing is written.
- **A blank line does not end the header section.** `From` splits the whole input on CRLF.
  The body is only the text after the last CRLF, and every line in between is read as a
  header field, including lines after the blank one. `HttpRequest.ParseLineAfterBlank` and
  `HttpRequest.ParseKeepsBodyVerbatim` state this.
- **An empty value deletes only the exact key.** `Set` with an empty value deletes exactly
  the key given. A stored case variant of it survives (`HeaderMap.StoredEmptyDeletesExactKey`).
- **Empty request-line tokens are accepted.** The request's method, target and version are
  described as the non-empty words of the request line. The code splits on every single
  space and only trims the pieces, so a request line of two blanks (`"  \r\n\r\n"`) gives
  three empty tokens. It decodes to an empty method, target and version without any error
  (`HttpRequest.BlankRequestLineDecodes`).
- **An empty body gets no blank line.** A response without a body ends right after its
  last header line, with no empty line after the headers.
- **router.go does not compile with the rest of the package.** It redeclares `match` and
  `handleFunc`, and it names `handleNotFound` as a plain function where only the method
  `(*server).handleNotFound` exists. The model gives `router` its evident meaning: a route
  table whose not-found handler is the not-found handler.
- **app/main.go registers handlers that do not exist.** It registers methods the server
  type does not have. The model lets a server register any `Handlers.Handler` value.

## Model

| member | source | states |
|---|---|---|
| Text.TrimLeft | app/http.go:68 | the result drops only white space from the front and starts with a non-space |
| Text.TrimRight | app/http.go:68 | the result drops only white space from the end and ends with a non-space |
| Text.TrimLeftIsSuffix | app/http.go:68 | what TrimLeft keeps is a suffix of its input |
| Text.TrimRightIsPrefix | app/http.go:68 | what TrimRight keeps is a prefix of its input |
| Text.TrimSpace | app/http.go:68 | strings.TrimSpace: the result has no white space at either end and is no longer than the input |
| Text.TrimSpaceKeepsMiddle | app/http.go:68 | strings.TrimSpace keeps a contiguous middle stretch of its input, and everything it drops before and after that stretch is white space |
| Text.TrimSpaceOfTrimmed | app/http.go:99 | TrimSpace leaves a string without outer white space unchanged |
| Text.TrimSpaceIdempotent | app/http.go:99 | trimming twice is trimming once, so Set's own trim of an already trimmed name changes nothing |
| Text.TrimSpaceAfterBlank | app/http.go:97-99 | the blank after a field's colon is dropped from a trimmed value |
| Text.EqualFoldEquivalence | app/http.go:51-58 | strings.EqualFold is reflexive, symmetric and transitive |
| Text.CanonicalCase | app/http.go:75 | canonicalising keeps the length, changes letter case only, and puts the result in canonical case: the first letter and each letter after a hyphen upper case, every other letter lower case |
| Text.CanonicalHeaderKey | app/http.go:75 | the canonical key case-folds to the name; a name of token bytes comes out in canonical case, and a name holding a non-token byte is returned unchanged |
| Text.CanonicalCaseFixed | app/http.go:75 | a name already in canonical case is its own canonical form |
| Text.CanonicalKeyFixed | app/http.go:75 | a token name in canonical case is its own canonical header key |
| Text.CanonicalCaseUnique | app/http.go:75 | two names in canonical case that case-fold alike are equal, so the canonical form of a name is unique |
| Text.CanonicalContentType | app/http.go:75 | "content-type" is stored under the key "Content-Type" |
| Text.EqualFold | app/http.go:53 | strings.EqualFold as a definition: same length and the same letters up to ASCII case; its partner is Text.EqualFoldEquivalence |
| Text.HasPrefix | app/server.go:41 | strings.HasPrefix: true means the input is the prefix followed by the rest, and the empty prefix always matches |
| Text.TrimPrefix | app/handlers.go:24 | with the prefix present the result is what follows it; otherwise the input is returned unchanged |
| Text.FindFrom | app/http.go:80 | the first occurrence of the separator at or after a position, or none anywhere after it |
| Text.Find | app/http.go:80 | the first occurrence of the separator, or proof that it does not occur |
| Text.Split | app/http.go:80 | strings.Split yields at least one piece |
| Text.JoinSplit | app/http.go:80 | joining the pieces of Split with the separator rebuilds the input |
| Text.SplitPiecesAvoidSeparator | app/http.go:80 | no piece of Split contains the separator |
| Text.SplitJoin | app/http.go:80 | splitting a join of separator-free pieces gives the pieces back |
| Text.SplitCons | app/http.go:80 | Split cuts at the first separator and continues on the rest |
| Text.LastPiece | app/http.go:103 | the last piece of Split is the input's text after its last separator |
| Text.SplitOnce | app/http.go:97 | strings.SplitN(s, sep, 2): one or two pieces; one, equal to s, exactly when sep is absent; otherwise two, the text before the first sep and everything after it |
| Text.SplitOnceAt | app/http.go:97 | SplitN cuts at the first separator when the head holds none |
| Text.NatToString | app/http.go:119-121 | the decimal spelling of a code or length is non-empty, all digits, with no leading zero |
| Text.ParseNatToString | app/http.go:141 | reading a decimal spelling back gives the number |
| HeaderMap.Stored | app/http.go:60-76 | the map after one Set, as a definition; its properties are stated by HeaderMap.StoredOverwrites, StoredInserts, StoredWellFormed, StoredThenLookup and StoredKeepsOthers |
| HeaderMap.StoredAsWritten | app/http.go:10-23 | a canonical, trimmed token name is stored exactly as written |
| HeaderMap.ConnectionAsWritten | app/http.go:37 | the Connection name is stored under its own spelling |
| HeaderMap.Lookup | app/http.go:51-58 | Get finds a value exactly when some stored key case-folds to the name, and returns "" otherwise |
| HeaderMap.LookupFinds | app/http.go:52-55 | with one key per folded name, Get returns that key's value |
| HeaderMap.LookupIgnoresCase | app/http.go:51-58 | names that case-fold alike get the same answer from Get |
| HeaderMap.LookupEmptyName | app/http.go:51-58 | Get of the empty name finds only an empty key |
| HeaderMap.StoredOverwrites | app/http.go:68-73 | Set overwrites the existing case variant in place and keeps its stored spelling |
| HeaderMap.StoredInserts | app/http.go:75 | with no case variant stored, Set adds the trimmed name under its canonical key, a key not yet present |
| HeaderMap.StoredWellFormed | app/http.go:60-76 | Set keeps one key per case-folded name and no empty value |
| HeaderMap.StoredThenLookup | app/http.go:60-76 | after Set(k, v) with non-empty k and v, Get of the trimmed k returns v |
| HeaderMap.StoredKeepsOthers | app/http.go:60-76 | Set leaves Get of every other name unchanged |
| HeaderMap.StoredEmptyDeletesExactKey | app/http.go:63-65 | an empty value deletes exactly the key given and keeps every other entry; a stored key is then no longer found |
| HeaderMap.BlankNameStoresEmptyKey | app/http.go:61-75 | a name of blanks passes the empty check, trims to "" and is stored under the empty key |
| HeaderMap.StoredAllWellFormed | app/http.go:93-100 | any sequence of Set calls keeps the map well formed |
| HeaderMap.CaseVariantsKeepLastValue | app/http.go:69-73 | after several fields whose names differ only in case, Get returns the last value |
| HeaderMap.StoredAllFindsEach | app/http.go:93-100 | storing fields with distinct names finds each under its own name |
| HeaderMap.FoundAfterSet | app/http.go:60-76 | a trimmed name is found with its new value after Set |
| HeaderMap.StillFoundAfterSet | app/http.go:60-76 | Set of a trimmed name leaves Get of every other name unchanged |
| HeaderMap.Headers.constructor | app/http.go:40 | make(Headers): the empty, well-formed map |
| HeaderMap.Headers.Set | app/http.go:60-76 | Set, loop included, updates the map to Stored of the old map and keeps it well formed |
| HeaderMap.Get | app/http.go:49-58 | the loop over the map returns a value of a key that case-folds to the name, or ("", false); a nil map finds nothing |
| HeaderMap.StoredIntoEmpty | app/http.go:40-44 | Set of a canonical name into an empty map stores it as written, or stores nothing for an empty value |
| HeaderMap.ResponseHeadersCopyConnectionOnly | app/http.go:35-47 | the response headers hold the request's Connection value under "Connection" when there is one, and nothing else |
| HeaderMap.NewResponseHeaders | app/http.go:35-47 | builds a fresh, well-formed map by copying the listed names from the request's headers (nil allowed) |
| HttpRequest.Parse | app/http.go:78-106 | input without a CRLF never decodes, and a decoded method, target and version carry no outer white space; its round trip is HttpRequest.ParseRequestBytes |
| HttpRequest.FieldOf | app/http.go:94-99 | a field line yields a field exactly when it holds a colon |
| HttpRequest.FieldOfSplitsAtFirstColon | app/http.go:97-99 | a line splits at its first colon into a trimmed name and a trimmed value that may hold colons |
| HttpRequest.FieldsSucceed | app/http.go:93-100 | the middle lines decode without a panic exactly when each is empty or holds a colon |
| HttpRequest.FieldsStep | app/http.go:93-100 | the header loop succeeds on one more line exactly when it succeeded before and that line is acceptable |
| HttpRequest.FieldsAppend | app/http.go:97-99 | a further field line adds its field at the end |
| HttpRequest.FieldsSkipEmpty | app/http.go:94-96 | empty lines are skipped |
| HttpRequest.FieldsStopAt | app/http.go:97-98 | the first line without a colon panics, whatever follows it |
| HttpRequest.FieldsKeepPanic | app/http.go:93-100 | once the loop has panicked, later lines change nothing |
| HttpRequest.ParseKeepsBodyVerbatim | app/http.go:103 | the body is the input after its last CRLF, verbatim, and holds no CRLF |
| HttpRequest.FieldLineReadsBack | app/http.go:97-99 | "name: value" decodes to the name and value, whatever colons the value holds |
| HttpRequest.FieldLinesReadBack | app/http.go:93-100 | a sequence of field lines decodes to its fields, in order |
| HttpRequest.RequestLineSplits | app/http.go:83-87 | a request line of blank-free tokens splits back into them |
| HttpRequest.ParseJoined | app/http.go:78-106 | input made of a request line and CR-free lines decodes to the tokens, the middle lines' fields and the last line as body |
| HttpRequest.ParseRequestBytes | app/http.go:78-106 | decoding the encoded request (request line, field lines, blank line, body) gives back its method, target, version, fields and body |
| HttpRequest.ParseMiddleLines | app/http.go:93-103 | any decodable middle lines before the blank line give their fields, and the last line is the body |
| HttpRequest.FieldAfterBlankLine | app/http.go:93-100 | a field line after the blank line is still read as a header |
| HttpRequest.ParseLineAfterBlank | app/http.go:93-103 | any line with a colon after the blank line becomes a field and not part of the body |
| HttpRequest.EmptyRequestLinePanics | app/http.go:86 | an empty request line panics for want of a target |
| HttpRequest.BlankRequestLineDecodes | app/http.go:83-87 | a request line of two blanks decodes to an empty method, target and version |
| HttpRequest.TwoTokensPanic | app/http.go:87 | a request line with two tokens panics for want of a version |
| HttpRequest.NoCRLFPanics | app/http.go:93 | input without CRLF panics when the header lines are sliced |
| HttpRequest.FirstBadLinePanics | app/http.go:97-98 | the first middle line without a colon decides the panic |
| HttpRequest.ParsePanicking | app/http.go:93-100 | a panic in the header loop is the panic of the whole decode |
| HttpRequest.Request.constructor | app/server.go:112 | &Request{}: empty fields and a nil header map |
| HttpRequest.Request.From | app/http.go:78-106 | From panics exactly as Parse does; otherwise it sets method, target, version and body to Parse's, and its header map (created when nil) to the old entries with every field Set in order |
| HttpRequest.SetFields | app/http.go:93-100 | the header loop Sets every decoded field in order, or stops with the panic of the first line without a colon |
| HttpResponse.StatusText | app/http.go:121 | http.StatusText: a non-empty reason phrase exactly for 200, 201, 404 and 500, never holding CR or LF |
| HttpResponse.Message | app/http.go:117-142 | the bytes httpResponse writes, as a definition; HttpResponse.ReadMessage proves a client reads them back |
| HttpResponse.WithConnectionDefault | app/http.go:129-133 | keep-alive is added exactly when no name case-folds to Connection, and an existing value such as "close" is kept; the result stays well formed |
| HttpResponse.WithConnectionAdds | app/http.go:131-132 | without a Connection entry, exactly "Connection: keep-alive" is added |
| HttpResponse.Writer.Write | app/http.go:144 | a healthy writer appends the bytes; a failing one appends nothing and returns its error |
| HttpResponse.DefaultConnection | app/http.go:129-133 | the map becomes WithConnection of the old map and stays well formed |
| HttpResponse.EmitHeaders | app/http.go:135-137 | the loop visits every key of the map once, in some order, and emits one "name: value" line per key |
| HttpResponse.Respond | app/http.go:117-149 | one write: status line, the headers with the Connection default in map order, then Content-Length, a blank line and the body when the body is non-empty; a write error becomes "failed to write response: ..." and nothing is written |
| HttpResponse.Pairs | app/http.go:135-137 | the entries of the map as name and value pairs in visiting order |
| HttpResponse.StatusLineReadsBack | app/http.go:118-122 | the status line reads back as the code and its reason phrase |
| HttpResponse.ReadFieldLine | app/http.go:136 | a header line reads back as its field |
| HttpResponse.ReadHeaderBlock | app/http.go:135-137 | the header lines read back as the map's entries in visiting order |
| HttpResponse.ReadBodySection | app/http.go:139-142 | a non-empty body is preceded by Content-Length and a blank line; an empty body adds nothing |
| HttpResponse.ReadMessage | app/http.go:117-149 | a client reads back the code, the reason, every header entry, Content-Length equal to the body's length, and the body |
| Encoding.EncoderFromRequest | app/encoding.go:12-23 | gzip is selected exactly when the request's Accept-Encoding value, found case-insensitively, is "gzip" |
| Encoding.ListsAreNotNegotiated | app/encoding.go:18-22 | a list, a parameter or blanks select no encoder |
| Encoding.Encode | app/encoding.go:31-33 | encoding never fails |
| Encoding.Decode | app/encoding.go:35-37 | decoding never fails, whatever the input |
| Encoding.DecodeEncode | app/encoding.go:31-37 | decoding what was encoded gives the input back |
| Handlers.ReadResult | app/handlers.go:51-52 | os.ReadFile: NotExist exactly for a path that is neither stored nor failing; stored contents are returned as they are |
| Handlers.JoinPath | app/handlers.go:51 | path.Join: the directory, then the file name at the end, at most one separator between them |
| Handlers.Disk.Write | app/handlers.go:66 | os.WriteFile: replaces or creates the file, or leaves the files alone and returns the failure |
| Handlers.WriteThenRead | app/handlers.go:51-66 | a file that was written reads back as what was written |
| Handlers.CopiedConnection | app/http.go:35-47 | the response headers hold the request's Connection value exactly when the request has one |
| Handlers.TypedHeaders | app/handlers.go:44-46 | copied headers plus a Content-Type, after the default, are Connection and Content-Type only |
| Handlers.EncodedHeaders | app/handlers.go:25-36 | the gzip echo carries Connection, Content-Type text/plain and Content-Encoding gzip, nothing else |
| Handlers.NoHeadersGetDefault | app/http.go:125-133 | a nil header map is sent as "Connection: keep-alive" only |
| Handlers.CloseIsKept | app/http.go:131 | a request's "Connection: close", in any case, is echoed and not replaced by keep-alive |
| Handlers.KeepAliveByDefault | app/http.go:131-132 | without a Connection header the response says keep-alive |
| Handlers.TypedPlain | app/http.go:135-137 | typed reply headers are plain fields a client can read back |
| Handlers.BareBytes | app/http.go:117-149 | a reply with no headers and no body is the status line and the keep-alive line, with no blank line |
| Handlers.RootGetBytes | app/handlers.go:15-17 | GET / sends exactly "HTTP/1.1 200 OK\r\nConnection: keep-alive\r\n" |
| Handlers.NotFoundBytes | app/handlers.go:19-21 | an unmatched request gets exactly "HTTP/1.1 404 Not Found\r\nConnection: keep-alive\r\n" |
| Handlers.ClientReadsEcho | app/handlers.go:23-39 | without gzip, a client reads 200 OK and the echoed text from the echo response |
| Handlers.RootGet | app/handlers.go:15-17 | writes 200 with only the keep-alive header and no body, or reports the write error |
| Handlers.HandleNotFound | app/handlers.go:19-21 | writes 404 with only the keep-alive header and no body, or reports the write error |
| Handlers.EchoGet | app/handlers.go:23-40 | writes 200, text/plain, the target after "/echo/", with Content-Encoding gzip exactly when Accept-Encoding is "gzip" |
| Handlers.RespondTyped | app/handlers.go:44-46 | copied request headers plus a Content-Type go out with the code and body |
| Handlers.UserAgentGet | app/handlers.go:42-47 | writes 200, text/plain, the request's User-Agent value, or nothing when there is none |
| Handlers.FilesGet | app/handlers.go:49-62 | writes 404 for a missing file, 500 with the error text for another read failure, and 200 application/octet-stream with the contents otherwise |
| Handlers.FilesPost | app/handlers.go:64-72 | writes the body to the file under the directory, then 201 without a body, or 500 with the error text when the write fails |
| Handlers.Serve | app/handlers.go:13 | calling a handler sends its expected reply; only filesPost changes the disk |
| Routing.FirstMatch | app/server.go:40-45 | the first route whose method equals the request's and whose prefix starts the target; none when no route matches |
| Routing.FirstMatchAt | app/server.go:40-44 | a matching route with no match before it is the one chosen |
| Routing.Select | app/server.go:40-47 | the loop picks the first matching route's handler, else the not-found handler |
| Routing.ChosenAfterRegister | app/server.go:35-37 | registering a route never changes an earlier decision; it only takes requests nothing matched |
| Routing.EarlierRouteWins | app/server.go:40-44 | of two matching routes the later one is never chosen |
| Routing.NoMatchFallsBack | app/server.go:46-47 | with no matching route the not-found handler answers |
| Routing.SlashMatchesEveryPath | app/server.go:41 | a "/" prefix matches every target that starts with "/" |
| HttpServer.FirstRead | app/server.go:105-111 | one read of a 1024-byte buffer yields at most 1024 leading bytes of what was sent, and all of a shorter request |
| HttpServer.Server.constructor | app/server.go:26-33 | NewServer: the directory and no routes |
| HttpServer.Server.Register | app/server.go:35-37 | appends the route at the end |
| HttpServer.Server.Route | app/server.go:39-48 | runs the first matching route's handler, else handleNotFound, and sends its expected reply |
| HttpServer.Server.HandleConn | app/server.go:94-124 | decodes the first read into a fresh request; a malformed request panics before anything is written; otherwise the routed handler's reply is sent and a write error comes back as "failed to handle request: ..." |
| HttpRouter.Router.constructor | app/router.go:21-23 | NewRouter: no routes, not-found as the fallback |
| HttpRouter.Router.Register | app/router.go:27-29 | appends the route at the end and keeps the fallback |
| HttpRouter.Router.Route | app/router.go:31-40 | runs the first matching route's handler, else the fallback, and sends its expected reply |

## Left out

- Listening, accepting and the shutdown signal (`Start`, app/server.go:50-92) are left out, because they are network I/O and goroutines.
- The 30-second context and `SetDeadline` are left out, because they are clocks.
- `conn.Close` and log output are left out; they have no effect on the bytes exchanged.
- A failing `conn.Read` is left out. The bytes the client sent are a parameter, and one read returns the first 1024 of them (`HttpServer.FirstRead`); a client whose bytes arrive across several reads is not modelled.
- Nothing in the model recovers a panic. A panic in `From` is the outcome `Crashed` and ends the model of the connection; the real process would crash.
- `Request.String` (app/http.go:108-115) is left out, because it is only used for logging.
- The wiring in app/main.go is not part of this model.
- Real gzip compression is left out. The source's encoder is an identity stub, and `Encoding.Encode` and `Encoding.Decode` model that stub.
- The 500 reply for a failed encoding (app/handlers.go:31-34) is unreachable, because the stub's `Encode` never fails. `Handlers.EchoGet` proves that branch dead instead of modelling its reply.
- `HttpResponse.Writer.Write`: a failing write is modelled as writing nothing. A real `io.Writer` such as a `net.Conn` may write part of the bytes and then fail; `Handlers.Delivered` promises only `before` in that case, which the real connection may not keep.
- `Handlers.Disk.Write`: a failing `os.WriteFile` is modelled as leaving every file alone. The real call may already have created or truncated the file, leaving it empty or partial. One `faults` map decides both reads and writes, so a path that reads as NotExist but fails to write cannot be expressed.
- The file system is the abstract `Handlers.Disk`. It is a map from paths to contents plus a map of paths whose access fails with a given message; permissions and directories are not modelled.
- `path.Join` is modelled without `path.Clean` (`Handlers.JoinPath`). Names holding "..", "." or repeated slashes are not normalised as Go would normalise them.
- `http.StatusText` is modelled only for the codes the handlers send: 200, 201, 404 and 500. Any other code gets an empty reason phrase.
- `Text.EqualFold`: case folding and canonical keys are ASCII only. Go's `strings.EqualFold` decodes UTF-8 and uses Unicode simple folding. A name whose multi-byte UTF-8 letters fold to ASCII, such as `Uſer-Agent` with U+017F, is found by Go's `Get` but not by the model's `Lookup`.
- `Text.TrimSpace`: white space is the ASCII set only. Go's `strings.TrimSpace` also trims Unicode white space such as U+00A0 and U+2028; the model keeps those bytes.
- `HeaderMap.Get`: which of several case-variant keys Go's random map order returns is not modelled. The model promises some matching key's value, and exactly `Lookup` on a well-formed map, where there is only one.
- `HttpResponse.EmitHeaders`: Go's random map iteration order is an unspecified `order`. Every contract holds for every order.
- `HttpRequest.Request.From`: the error return is always nil in the source. The model returns the panic instead of an error.
- Integer widths are left out. Lengths and codes are unbounded naturals; Go's `int` cannot overflow at a 1024-byte request.
