/**
  The router of app/router.go: the same route list and first-match rule as the server, with
  the not-found handler kept in a field.
*/
module HttpRouter {
  import opened Wrappers
  import opened HeaderMap
  import opened HttpRequest
  import opened HttpResponse
  import opened Handlers
  import opened Routing

  class Router {
    var routes: seq<Match>
    var notFound: Handler

    /** NewRouter: no routes, handleNotFound as the fallback. */
    constructor ()
      ensures routes == [] && notFound == NotFound
    {
      routes, notFound := [], NotFound;
    }

    /** register: one more route, after all earlier ones; the fallback stays. */
    method Register(verb: string, prefix: string, handler: Handler)
      modifies this
      ensures routes == old(routes) + [Match(verb, prefix, handler)] && notFound == old(notFound)
    {
      routes := routes + [Match(verb, prefix, handler)];
    }

    /** Route: the reply of the first matching route's handler, or of the notFound handler. */
    method Route(disk: Disk, req: Request, w: Writer) returns (err: Option<string>, ghost order: seq<string>)
      requires req.headers != null ==> req.headers.Valid()
      modifies w, disk
      ensures w.writes == old(w.writes) + 1
      ensures var h := Chosen(routes, req.verb, req.target, notFound);
              && disk.files == FilesAfter(h, old(disk.files), disk.faults, req.target, req.body)
              && Delivered(w, old(w.data), Expected(h, old(disk.files), disk.faults, old(EntriesOf(req.headers)), req.target), order, err)
    {
      var h := Select(routes, req.verb, req.target, notFound);
      err, order := Serve(h, disk, req, w);
    }
  }
}
