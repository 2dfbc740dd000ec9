/**
  The request handlers of app/handlers.go. Each builds its response headers with
  NewResponseHeaders and Set and answers with a single httpResponse. The file handlers go
  through an abstract disk: a map from path to contents, plus the paths whose reads and writes
  fail and the error text they fail with.
*/
module Handlers {
  import opened Wrappers
  import opened Text
  import opened HeaderMap
  import opened HttpRequest
  import opened HttpResponse
  import opened Encoding

  /** What a handler answers: status code, header entries, body. */
  datatype Reply = Reply(code: int, headers: Entries, body: string)

  /**
    `w` holds `before` followed by the message for `reply`, its header lines in `order`, or,
    when its write fails, still only `before`, and the wrapped write error is returned.
  */
  ghost predicate Delivered(w: Writer, before: string, reply: Reply, order: seq<string>, err: Option<string>)
    reads w
  {
    && Enumerates(order, reply.headers)
    && (w.fault.None? ==> err == None && w.data == before + Message(reply.code, reply.headers, order, reply.body))
    && (w.fault.Some? ==> err == Some(WriteError(w.fault.value)) && w.data == before)
  }

  // ---------------------------------------------------------------------------
  // The replies the handlers promise

  /** Only the default Connection header and no body. */
  function Bare(code: int): Reply {
    Reply(code, map[HeaderConnection := ConnectionKeepAlive], "")
  }

  /** The Connection value a response carries: the request's own, else keep-alive. */
  ghost function ConnectionOf(req: Entries): string {
    var (v, found) := Lookup(req, HeaderConnection);
    if found then v else ConnectionKeepAlive
  }

  /** Connection as above and a Content-Type, nothing else. */
  ghost function Typed(req: Entries, contentType: string): Entries {
    map[HeaderConnection := ConnectionOf(req), HeaderContentType := contentType]
  }

  const EchoPrefix: string := "/echo/"
  const FilesPrefix: string := "/files/"

  /** The text echoGet sends back: the target after a leading "/echo/", or the whole target when it lacks that prefix. */
  function EchoText(target: string): string {
    TrimPrefix(target, EchoPrefix)
  }

  /** echoGet: 200, text/plain, the echoed text; Content-Encoding gzip on top when the request asks for exactly "gzip". */
  ghost function EchoReply(req: Entries, target: string): Reply {
    var h := Typed(req, ContentTypeTextPlain);
    if Lookup(req, HeaderAcceptEncoding) == (EncodingGzip, true) then
      Reply(200, h[HeaderContentEncoding := EncodingGzip], EchoText(target))
    else
      Reply(200, h, EchoText(target))
  }

  /** userAgentGet: 200, text/plain, the request's User-Agent value or nothing. */
  ghost function UserAgentReply(req: Entries): Reply {
    Reply(200, Typed(req, ContentTypeTextPlain), Lookup(req, HeaderUserAgent).0)
  }

  // ---------------------------------------------------------------------------
  // The disk

  /** What os.ReadFile yields: the contents, an error os.IsNotExist recognises, or another error's text. */
  datatype ReadOutcome = Contents(data: string) | NotExist | Failed(msg: string)

  /** Reading `path`: a failing path fails, a stored one gives its contents, any other does not exist. */
  function ReadResult(files: map<string, string>, faults: map<string, string>, path: string): (r: ReadOutcome)
    ensures r.NotExist? <==> path !in files && path !in faults
    ensures r.Contents? ==> path in files && r.data == files[path]
  {
    if path in faults then Failed(faults[path])
    else if path in files then Contents(files[path])
    else NotExist
  }

  /** The error writing to `path` returns, if any. */
  function WriteResult(faults: map<string, string>, path: string): Option<string> {
    if path in faults then Some(faults[path]) else None
  }

  /** The files after writing `data` to `path`: replaced or created, unless the write fails. */
  function Written(files: map<string, string>, faults: map<string, string>, path: string, data: string): map<string, string> {
    if path in faults then files else files[path := data]
  }

  class Disk {
    var files: map<string, string>
    const faults: map<string, string>

    constructor (files: map<string, string>, faults: map<string, string>)
      ensures this.files == files && this.faults == faults
    {
      this.files, this.faults := files, faults;
    }

    /** os.ReadFile */
    function Read(path: string): ReadOutcome
      reads this
    {
      ReadResult(files, faults, path)
    }

    /** os.WriteFile */
    method Write(path: string, data: string) returns (err: Option<string>)
      modifies this
      ensures err == WriteResult(faults, path)
      ensures files == Written(old(files), faults, path, data)
    {
      if path in faults {
        return Some(faults[path]);
      }
      files := files[path := data];
      return None;
    }
  }

  /** path.Join of the server directory and a file name, without the lexical clean-up of ".", ".." and repeated slashes. */
  function JoinPath(dir: string, name: string): (r: string)
    ensures HasPrefix(r, dir)
    ensures |name| <= |r| && r[|r| - |name|..] == name
    ensures |r| <= |dir| + 1 + |name|
  {
    if dir == "" then name
    else if name == "" then dir
    else if dir[|dir| - 1] == '/' then dir + name
    else dir + "/" + name
  }

  /** The path filesGet and filesPost use: the target after a leading "/files/", under the server directory. */
  function FilePath(dir: string, target: string): string {
    JoinPath(dir, TrimPrefix(target, FilesPrefix))
  }

  /** filesGet: 404 for a missing file, 500 with the error text for another failure, 200 with the contents otherwise. */
  ghost function FilesGetReply(req: Entries, outcome: ReadOutcome): Reply {
    match outcome
    case NotExist => Bare(404)
    case Failed(msg) => Reply(500, Typed(req, ContentTypeTextPlain), msg)
    case Contents(data) => Reply(200, Typed(req, ContentTypeApplicationOctetStream), data)
  }

  /** filesPost: 201 without a body once written, 500 with the error text otherwise. */
  ghost function FilesPostReply(req: Entries, err: Option<string>): Reply {
    match err
    case Some(msg) => Reply(500, Typed(req, ContentTypeTextPlain), msg)
    case None => Bare(201)
  }

  // ---------------------------------------------------------------------------
  // How the handlers' header maps come out

  /** The request's Connection entry is copied exactly when there is one. */
  lemma CopiedConnection(req: Entries)
    requires WellFormed(req)
    ensures Folded(req, HeaderConnection) ==> ResponseHeaders(req) == map[HeaderConnection := ConnectionOf(req)]
    ensures !Folded(req, HeaderConnection) ==> ResponseHeaders(req) == map[]
    ensures ConnectionOf(req) != ""
  {
    ResponseHeadersCopyConnectionOnly(req);
    if Folded(req, HeaderConnection) {
      var hk :| hk in req && EqualFold(hk, HeaderConnection);
      LookupFinds(req, HeaderConnection, hk);
    }
  }

  /** A name stored as written goes in unchanged next to keys of other lengths. */
  lemma StoredBeside(m: Entries, name: string, v: string)
    requires name != "" && v != "" && CanonicalHeaderKey(name) == name && TrimSpace(name) == name
    requires forall k :: k in m ==> |k| != |name|
    ensures Stored(m, name, v) == m[name := v]
  {
    assert !Folded(m, name);
    StoredInserts(m, name, v);
  }

  lemma NameLengths()
    ensures |HeaderConnection| == 10 && |HeaderContentType| == 12 && |HeaderContentEncoding| == 16
  {
  }

  /** Content-Type and Content-Encoding are Set exactly as written. */
  lemma ContentTypeAsWritten()
    ensures CanonicalHeaderKey(HeaderContentType) == HeaderContentType && TrimSpace(HeaderContentType) == HeaderContentType
  {
    NamesAreTokens();
    ContentTypeCase();
    StoredAsWritten(HeaderContentType);
  }

  lemma ContentEncodingAsWritten()
    ensures CanonicalHeaderKey(HeaderContentEncoding) == HeaderContentEncoding
    ensures TrimSpace(HeaderContentEncoding) == HeaderContentEncoding
  {
    NamesAreTokens();
    ContentEncodingCase();
    StoredAsWritten(HeaderContentEncoding);
  }

  lemma NamesAreTokens()
    ensures forall i :: 0 <= i < |HeaderContentType| ==> IsTokenChar(HeaderContentType[i])
    ensures forall i :: 0 <= i < |HeaderContentEncoding| ==> IsTokenChar(HeaderContentEncoding[i])
    ensures Trimmed(HeaderContentType) && Trimmed(HeaderContentEncoding)
  {
  }

  lemma ContentTypeCase()
    ensures IsCanonicalCase(HeaderContentType, true)
  {
  }

  lemma ContentEncodingCase()
    ensures IsCanonicalCase(HeaderContentEncoding, true)
  {
  }

  /** A map already holding the copied Connection entry is left alone by httpResponse's default. */
  lemma KeepsConnection(m: Entries)
    requires HeaderConnection in m
    ensures WithConnection(m) == m
  {
    assert EqualFold(HeaderConnection, HeaderConnection);
  }

  /** A map whose names are all of another length than "Connection" has none that case-folds to it. */
  lemma NoConnection(m: Entries)
    requires forall k :: k in m ==> |k| != |HeaderConnection|
    ensures !Folded(m, HeaderConnection)
  {
  }

  lemma TypedKept(c: string, contentType: string)
    requires c != "" && contentType != ""
    ensures WithConnection(Stored(map[HeaderConnection := c], HeaderContentType, contentType))
            == map[HeaderConnection := c, HeaderContentType := contentType]
  {
    ContentTypeAsWritten();
    NameLengths();
    StoredBeside(map[HeaderConnection := c], HeaderContentType, contentType);
    KeepsConnection(map[HeaderConnection := c, HeaderContentType := contentType]);
  }

  lemma TypedAdded(contentType: string)
    requires contentType != ""
    ensures WithConnection(Stored(map[], HeaderContentType, contentType))
            == map[HeaderConnection := ConnectionKeepAlive, HeaderContentType := contentType]
  {
    ContentTypeAsWritten();
    StoredIntoEmpty(HeaderContentType, contentType);
    var m := map[HeaderContentType := contentType];
    assert m.Keys == {HeaderContentType};
    NameLengths();
    NoConnection(m);
    WithConnectionAdds(m);
  }

  lemma EncodedKept(c: string)
    requires c != ""
    ensures WithConnection(Stored(Stored(map[HeaderConnection := c], HeaderContentType, ContentTypeTextPlain), HeaderContentEncoding, EncodingGzip))
            == map[HeaderConnection := c, HeaderContentType := ContentTypeTextPlain, HeaderContentEncoding := EncodingGzip]
  {
    var typed := map[HeaderConnection := c, HeaderContentType := ContentTypeTextPlain];
    assert Stored(map[HeaderConnection := c], HeaderContentType, ContentTypeTextPlain) == typed by {
      ContentTypeAsWritten();
      StoredBeside(map[HeaderConnection := c], HeaderContentType, ContentTypeTextPlain);
    }
    var encoded := typed[HeaderContentEncoding := EncodingGzip];
    assert Stored(typed, HeaderContentEncoding, EncodingGzip) == encoded by {
      ContentEncodingAsWritten();
      StoredBeside(typed, HeaderContentEncoding, EncodingGzip);
    }
    KeepsConnection(encoded);
  }

  lemma EncodedAdded()
    ensures WithConnection(Stored(Stored(map[], HeaderContentType, ContentTypeTextPlain), HeaderContentEncoding, EncodingGzip))
            == map[HeaderConnection := ConnectionKeepAlive, HeaderContentType := ContentTypeTextPlain, HeaderContentEncoding := EncodingGzip]
  {
    PlainTextIntoEmpty();
    GzipBesidePlainText();
    KeepAliveBesideGzip(Stored(Stored(map[], HeaderContentType, ContentTypeTextPlain), HeaderContentEncoding, EncodingGzip));
  }

  lemma KeepAliveBesideGzip(m: Entries)
    requires m == map[HeaderContentType := ContentTypeTextPlain, HeaderContentEncoding := EncodingGzip]
    ensures WithConnection(m)
            == map[HeaderConnection := ConnectionKeepAlive, HeaderContentType := ContentTypeTextPlain, HeaderContentEncoding := EncodingGzip]
  {
    assert m.Keys == {HeaderContentType, HeaderContentEncoding};
    NameLengths();
    NoConnection(m);
    WithConnectionAdds(m);
  }

  lemma PlainTextIntoEmpty()
    ensures Stored(map[], HeaderContentType, ContentTypeTextPlain) == map[HeaderContentType := ContentTypeTextPlain]
  {
    ContentTypeAsWritten();
    StoredBeside(map[], HeaderContentType, ContentTypeTextPlain);
  }

  lemma GzipBesidePlainText()
    ensures Stored(map[HeaderContentType := ContentTypeTextPlain], HeaderContentEncoding, EncodingGzip)
            == map[HeaderContentType := ContentTypeTextPlain, HeaderContentEncoding := EncodingGzip]
  {
    ContentEncodingAsWritten();
    StoredBeside(map[HeaderContentType := ContentTypeTextPlain], HeaderContentEncoding, EncodingGzip);
  }

  /** The copied headers plus a Content-Type, after httpResponse's Connection default, are exactly Typed. */
  lemma TypedHeaders(req: Entries, contentType: string)
    requires WellFormed(req) && contentType != ""
    ensures WithConnection(Stored(ResponseHeaders(req), HeaderContentType, contentType)) == Typed(req, contentType)
  {
    CopiedConnection(req);
    if Folded(req, HeaderConnection) {
      TypedKept(ConnectionOf(req), contentType);
    } else {
      TypedAdded(contentType);
    }
  }

  /** The same with Content-Encoding: gzip added. */
  lemma EncodedHeaders(req: Entries)
    requires WellFormed(req)
    ensures WithConnection(Stored(Stored(ResponseHeaders(req), HeaderContentType, ContentTypeTextPlain), HeaderContentEncoding, EncodingGzip))
            == Typed(req, ContentTypeTextPlain)[HeaderContentEncoding := EncodingGzip]
  {
    CopiedConnection(req);
    if Folded(req, HeaderConnection) {
      EncodedKept(ConnectionOf(req));
    } else {
      EncodedAdded();
    }
  }

  /** A response with no headers of its own carries only Connection: keep-alive. */
  lemma NoHeadersGetDefault()
    ensures WithConnection(map[]) == map[HeaderConnection := ConnectionKeepAlive]
  {
    WithConnectionAdds(map[]);
  }

  // ---------------------------------------------------------------------------
  // What the replies hold

  /** A one-entry map has one iteration order. */
  lemma SingleOrder(k: string, v: string, order: seq<string>)
    requires Enumerates(order, map[k := v])
    ensures order == [k]
  {
    assert k in order;
    forall i | 0 <= i < |order| ensures order[i] == k {
      assert order[i] in map[k := v];
    }
    if |order| >= 2 {
      FirstTwoDiffer(order, map[k := v]);
      assert false;
    }
  }

  lemma FirstTwoDiffer(order: seq<string>, m: Entries)
    requires Enumerates(order, m) && |order| >= 2
    ensures order[0] != order[1]
  {
  }

  /**
    A bare reply is the status line and the Connection line and nothing more: no
    Content-Length and no blank line after the header section.
  */
  lemma BareBytes(code: int, order: seq<string>)
    requires Enumerates(order, Bare(code).headers)
    ensures Message(code, Bare(code).headers, order, "") == StatusLine(code) + HeaderLine(HeaderConnection, ConnectionKeepAlive)
  {
    var m := Bare(code).headers;
    var line := HeaderLine(HeaderConnection, ConnectionKeepAlive);
    SingleOrder(HeaderConnection, ConnectionKeepAlive, order);
    assert order[..0] == [];
    assert HeaderBlock(m, order) == "" + line == line;
    assert BodySection("") == "";
    assert Message(code, m, order, "") == StatusLine(code) + line + "";
  }

  lemma KeepAliveLine()
    ensures HeaderLine(HeaderConnection, ConnectionKeepAlive) == "Connection: keep-alive\r\n"
  {
  }

  /** rootGet writes exactly these bytes, whatever the request. */
  lemma RootGetBytes(order: seq<string>)
    requires Enumerates(order, Bare(200).headers)
    ensures Message(200, Bare(200).headers, order, "") == "HTTP/1.1 200 OK\r\nConnection: keep-alive\r\n"
  {
    BareBytes(200, order);
    StatusLineOK();
    KeepAliveLine();
    JoinedOK(StatusLine(200), HeaderLine(HeaderConnection, ConnectionKeepAlive));
  }

  /** Helper of RootGetBytes: the status line of 200, kept apart so that proof stays small. */
  lemma StatusLineOK()
    ensures StatusLine(200) == "HTTP/1.1 200 OK\r\n"
  {
    assert NatToString(200) == "200" by {
      assert NatToString(2) == "2";
      assert NatToString(20) == NatToString(2) + "0";
    }
  }

  /** Helper of RootGetBytes: the concatenation of the two literals, kept apart for the same reason. */
  lemma JoinedOK(a: string, b: string)
    requires a == "HTTP/1.1 200 OK\r\n" && b == "Connection: keep-alive\r\n"
    ensures a + b == "HTTP/1.1 200 OK\r\nConnection: keep-alive\r\n"
  {
  }

  /** handleNotFound writes exactly these bytes, whatever the request. */
  lemma NotFoundBytes(order: seq<string>)
    requires Enumerates(order, Bare(404).headers)
    ensures Message(404, Bare(404).headers, order, "") == "HTTP/1.1 404 Not Found\r\nConnection: keep-alive\r\n"
  {
    BareBytes(404, order);
    StatusLineNotFound();
    KeepAliveLine();
    JoinedNotFound(StatusLine(404), HeaderLine(HeaderConnection, ConnectionKeepAlive));
  }

  /** Helper of NotFoundBytes: the status line of 404, kept apart so that proof stays small. */
  lemma StatusLineNotFound()
    ensures StatusLine(404) == "HTTP/1.1 404 Not Found\r\n"
  {
    assert NatToString(404) == "404" by {
      assert NatToString(4) == "4";
      assert NatToString(40) == NatToString(4) + "0";
    }
  }

  /** Helper of NotFoundBytes: the concatenation of the two literals, kept apart for the same reason. */
  lemma JoinedNotFound(a: string, b: string)
    requires a == "HTTP/1.1 404 Not Found\r\n" && b == "Connection: keep-alive\r\n"
    ensures a + b == "HTTP/1.1 404 Not Found\r\nConnection: keep-alive\r\n"
  {
  }

  /** A request's "Connection: close", under any spelling of the name, is carried into the typed replies. */
  lemma CloseIsKept(req: Entries, hk: string, contentType: string)
    requires WellFormed(req) && hk in req && EqualFold(hk, HeaderConnection) && req[hk] == ConnectionClose
    ensures Typed(req, contentType)[HeaderConnection] == ConnectionClose
  {
    LookupFinds(req, HeaderConnection, hk);
  }

  /** Without a Connection entry in the request, the typed replies say keep-alive. */
  lemma KeepAliveByDefault(req: Entries, contentType: string)
    requires !Folded(req, HeaderConnection)
    ensures Typed(req, contentType)[HeaderConnection] == ConnectionKeepAlive
  {
  }

  /** Typed replies hold field lines that read back, when the request's Connection value does. */
  lemma TypedPlain(req: Entries, contentType: string)
    requires '\r' !in ConnectionOf(req) && Trimmed(ConnectionOf(req))
    requires '\r' !in contentType && Trimmed(contentType)
    ensures PlainEntries(Typed(req, contentType))
  {
    NameLengths();
    assert ':' !in HeaderConnection && '\r' !in HeaderConnection && Trimmed(HeaderConnection);
    assert ':' !in HeaderContentType && '\r' !in HeaderContentType && Trimmed(HeaderContentType);
  }

  /**
    A client reading echoGet's response gets status 200 and exactly the echoed text as the
    body, whatever CRLFs it holds, and Content-Length with its length when it is non-empty.
  */
  lemma ClientReadsEcho(req: Entries, target: string, order: seq<string>)
    requires Lookup(req, HeaderAcceptEncoding) != (EncodingGzip, true)
    requires '\r' !in ConnectionOf(req) && Trimmed(ConnectionOf(req))
    requires Enumerates(order, EchoReply(req, target).headers)
    ensures var r := EchoReply(req, target);
            var read := ReadResponse(Message(r.code, r.headers, order, r.body));
            && read.Some? && read.value.code == 200 && read.value.reason == "OK"
            && read.value.body == EchoText(target)
  {
    var r := EchoReply(req, target);
    assert '\r' !in ContentTypeTextPlain && Trimmed(ContentTypeTextPlain);
    TypedPlain(req, ContentTypeTextPlain);
    ReadMessage(200, r.headers, order, r.body);
  }

  /** After a successful write, reading the same path gives back exactly the bytes written. */
  lemma WriteThenRead(files: map<string, string>, faults: map<string, string>, path: string, data: string)
    requires WriteResult(faults, path) == None
    ensures ReadResult(Written(files, faults, path, data), faults, path) == Contents(data)
  {
  }

  // ---------------------------------------------------------------------------
  // The handlers

  /** rootGet (app/handlers.go:15-17) */
  method RootGet(req: Request, w: Writer) returns (err: Option<string>, ghost order: seq<string>)
    modifies w
    ensures w.writes == old(w.writes) + 1
    ensures Delivered(w, old(w.data), Bare(200), order, err)
  {
    NoHeadersGetDefault();
    err, order := Respond(w, 200, null, "");
  }

  /** handleNotFound (app/handlers.go:19-21) */
  method HandleNotFound(req: Request, w: Writer) returns (err: Option<string>, ghost order: seq<string>)
    modifies w
    ensures w.writes == old(w.writes) + 1
    ensures Delivered(w, old(w.data), Bare(404), order, err)
  {
    NoHeadersGetDefault();
    err, order := Respond(w, 404, null, "");
  }

  /** echoGet (app/handlers.go:23-40) */
  method EchoGet(req: Request, w: Writer) returns (err: Option<string>, ghost order: seq<string>)
    requires req.headers != null ==> req.headers.Valid()
    modifies w
    ensures w.writes == old(w.writes) + 1
    ensures Delivered(w, old(w.data), EchoReply(old(EntriesOf(req.headers)), req.target), order, err)
  {
    ghost var entries := EntriesOf(req.headers);
    var echo := TrimPrefix(req.target, EchoPrefix);
    var headers := NewResponseHeaders(req.headers);
    headers.Set(HeaderContentType, ContentTypeTextPlain);
    var encoder := EncoderFromRequest(req);
    if encoder.Some? {
      var encoded := Encode(encoder.value, echo);
      if encoded.Err? {
        // The 500 reply for a failed encoding is unreachable: Encode never fails.
        assert false;
      }
      headers.Set(HeaderContentEncoding, EncodingGzip);
      EncodedHeaders(entries);
      err, order := Respond(w, 200, headers, encoded.value);
    } else {
      TypedHeaders(entries, ContentTypeTextPlain);
      err, order := Respond(w, 200, headers, echo);
    }
  }

  /**
    The three statements every handler with a Content-Type ends with: NewResponseHeaders,
    Set of the Content-Type, httpResponse.
  */
  method RespondTyped(req: Request, w: Writer, code: int, contentType: string, body: string) returns (err: Option<string>, ghost order: seq<string>)
    requires req.headers != null ==> req.headers.Valid()
    requires contentType != ""
    modifies w
    ensures w.writes == old(w.writes) + 1
    ensures Delivered(w, old(w.data), Reply(code, Typed(old(EntriesOf(req.headers)), contentType), body), order, err)
  {
    ghost var entries := EntriesOf(req.headers);
    var headers := NewResponseHeaders(req.headers);
    headers.Set(HeaderContentType, contentType);
    TypedHeaders(entries, contentType);
    err, order := Respond(w, code, headers, body);
  }

  /** userAgentGet (app/handlers.go:42-47) */
  method UserAgentGet(req: Request, w: Writer) returns (err: Option<string>, ghost order: seq<string>)
    requires req.headers != null ==> req.headers.Valid()
    modifies w
    ensures w.writes == old(w.writes) + 1
    ensures Delivered(w, old(w.data), UserAgentReply(old(EntriesOf(req.headers))), order, err)
  {
    var userAgent, _ := Get(req.headers, HeaderUserAgent);
    err, order := RespondTyped(req, w, 200, ContentTypeTextPlain, userAgent);
  }

  /** filesGet (app/handlers.go:49-62) */
  method FilesGet(dir: string, disk: Disk, req: Request, w: Writer) returns (err: Option<string>, ghost order: seq<string>)
    requires req.headers != null ==> req.headers.Valid()
    modifies w
    ensures w.writes == old(w.writes) + 1
    ensures Delivered(w, old(w.data), FilesGetReply(old(EntriesOf(req.headers)), ReadResult(old(disk.files), disk.faults, FilePath(dir, req.target))), order, err)
  {
    var fileName := TrimPrefix(req.target, FilesPrefix);
    var outcome := disk.Read(JoinPath(dir, fileName));
    assert outcome == ReadResult(disk.files, disk.faults, FilePath(dir, req.target));
    if outcome.NotExist? {
      NoHeadersGetDefault();
      err, order := Respond(w, 404, null, "");
    } else if outcome.Failed? {
      err, order := RespondTyped(req, w, 500, ContentTypeTextPlain, outcome.msg);
    } else {
      err, order := RespondTyped(req, w, 200, ContentTypeApplicationOctetStream, outcome.data);
    }
  }

  /** filesPost (app/handlers.go:64-72) */
  method FilesPost(dir: string, disk: Disk, req: Request, w: Writer) returns (err: Option<string>, ghost order: seq<string>)
    requires req.headers != null ==> req.headers.Valid()
    modifies w, disk
    ensures w.writes == old(w.writes) + 1
    ensures disk.files == Written(old(disk.files), disk.faults, FilePath(dir, req.target), req.body)
    ensures Delivered(w, old(w.data), FilesPostReply(old(EntriesOf(req.headers)), WriteResult(disk.faults, FilePath(dir, req.target))), order, err)
  {
    var fileName := TrimPrefix(req.target, FilesPrefix);
    var writeErr := disk.Write(JoinPath(dir, fileName), req.body);
    if writeErr.Some? {
      err, order := RespondTyped(req, w, 500, ContentTypeTextPlain, writeErr.value);
    } else {
      NoHeadersGetDefault();
      err, order := Respond(w, 201, null, "");
    }
  }

  // ---------------------------------------------------------------------------
  // Handler values

  /**
    The handleFunc values a route can hold: the handlers above, the file handlers bound to
    the directory of the server they belong to.
  */
  datatype Handler = Root | NotFound | Echo | UserAgent | FilesRead(dir: string) | FilesWrite(dir: string)

  /** The reply handler `h` gives, on the disk contents `files`. */
  ghost function Expected(h: Handler, files: map<string, string>, faults: map<string, string>, req: Entries, target: string): Reply {
    match h
    case Root => Bare(200)
    case NotFound => Bare(404)
    case Echo => EchoReply(req, target)
    case UserAgent => UserAgentReply(req)
    case FilesRead(dir) => FilesGetReply(req, ReadResult(files, faults, FilePath(dir, target)))
    case FilesWrite(dir) => FilesPostReply(req, WriteResult(faults, FilePath(dir, target)))
  }

  /** The disk contents after handler `h` ran: only filesPost writes. */
  function FilesAfter(h: Handler, files: map<string, string>, faults: map<string, string>, target: string, body: string): map<string, string> {
    if h.FilesWrite? then Written(files, faults, FilePath(h.dir, target), body) else files
  }

  /** Calling a handleFunc value. */
  method Serve(h: Handler, disk: Disk, req: Request, w: Writer) returns (err: Option<string>, ghost order: seq<string>)
    requires req.headers != null ==> req.headers.Valid()
    modifies w, disk
    ensures w.writes == old(w.writes) + 1
    ensures disk.files == FilesAfter(h, old(disk.files), disk.faults, req.target, req.body)
    ensures Delivered(w, old(w.data), Expected(h, old(disk.files), disk.faults, old(EntriesOf(req.headers)), req.target), order, err)
  {
    match h {
      case Root =>
        err, order := RootGet(req, w);
      case NotFound =>
        err, order := HandleNotFound(req, w);
      case Echo =>
        err, order := EchoGet(req, w);
      case UserAgent =>
        err, order := UserAgentGet(req, w);
      case FilesRead(dir) =>
        err, order := FilesGet(dir, disk, req, w);
      case FilesWrite(dir) =>
        err, order := FilesPost(dir, disk, req, w);
        return;
    }
    assert disk.files == old(disk.files);
  }
}
