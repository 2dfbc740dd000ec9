/**
  The server of app/server.go: its directory and its route list, registration, dispatch, and
  the handling of one connection: a single read of at most 1024 bytes, decoded with
  Request.From and routed, after which the connection is closed.
*/
module HttpServer {
  import opened Wrappers
  import opened HeaderMap
  import opened HttpRequest
  import opened HttpResponse
  import opened Handlers
  import opened Routing

  /** The size of handleConn's read buffer. */
  const BufferSize: nat := 1024

  /** The bytes a single read into the buffer takes from what the client sent. */
  function FirstRead(sent: string): (b: string)
    ensures |b| <= BufferSize && |b| <= |sent|
    ensures b == sent[..|b|]
    ensures |sent| <= BufferSize ==> b == sent
  {
    if |sent| <= BufferSize then sent else sent[..BufferSize]
  }

  /** How handling a connection ends. */
  datatype Outcome =
    | Handled(err: Option<string>)  // handleConn's returned error, if any
    | Crashed(panic: Panic)         // a panic inside Request.From

  class Server {
    const dir: string
    var routes: seq<Match>

    /** NewServer: the directory is kept and there are no routes yet. */
    constructor (dir: string)
      ensures this.dir == dir && routes == []
    {
      this.dir := dir;
      routes := [];
    }

    /** Register: one more route, after all earlier ones. */
    method Register(verb: string, prefix: string, handler: Handler)
      modifies this
      ensures routes == old(routes) + [Match(verb, prefix, handler)]
    {
      routes := routes + [Match(verb, prefix, handler)];
    }

    /** Route: the reply of the first matching route's handler, or of handleNotFound. */
    method Route(disk: Disk, req: Request, w: Writer) returns (err: Option<string>, ghost order: seq<string>)
      requires req.headers != null ==> req.headers.Valid()
      modifies w, disk
      ensures w.writes == old(w.writes) + 1
      ensures var h := Chosen(routes, req.verb, req.target, NotFound);
              && disk.files == FilesAfter(h, old(disk.files), disk.faults, req.target, req.body)
              && Delivered(w, old(w.data), Expected(h, old(disk.files), disk.faults, old(EntriesOf(req.headers)), req.target), order, err)
    {
      var h := Select(routes, req.verb, req.target, NotFound);
      err, order := Serve(h, disk, req, w);
    }

    /**
      handleConn after the read: decode the bytes read and route the request. A failed write
      comes back wrapped twice.
    */
    method HandleConn(sent: string, disk: Disk, w: Writer) returns (outcome: Outcome, ghost order: seq<string>)
      modifies w, disk
      ensures var b := FirstRead(sent);
              && (Parse(b).Err? ==> outcome == Crashed(Parse(b).error) && unchanged(w, disk))
              && (Parse(b).Ok? ==>
                    var r := Parse(b).value;
                    var h := Chosen(routes, r.verb, r.target, NotFound);
                    var req := StoredAll(map[], r.fields);
                    && w.writes == old(w.writes) + 1
                    && disk.files == FilesAfter(h, old(disk.files), disk.faults, r.target, r.body)
                    && exists err ::
                         && Delivered(w, old(w.data), Expected(h, old(disk.files), disk.faults, req, r.target), order, err)
                         && outcome == Handled(if err.Some? then Some("failed to handle request: " + err.value) else None))
    {
      var b := FirstRead(sent);
      var req := new Request();
      var crash := req.From(b);
      if crash.Some? {
        return Crashed(crash.value), [];
      }
      var err;
      err, order := Route(disk, req, w);
      if err.Some? {
        return Handled(Some("failed to handle request: " + err.value)), order;
      }
      return Handled(None), order;
    }
  }
}
