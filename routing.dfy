/**
  Route selection, as app/server.go and app/router.go both do it: routes are kept in
  registration order, and a request goes to the first route whose method equals the request
  method exactly and whose prefix starts the request target, byte for byte; otherwise to the
  not-found handler.
*/
module Routing {
  import opened Wrappers
  import opened Text
  import opened Handlers

  /** A registered route (the match struct): method, target prefix, handler. */
  datatype Match = Match(verb: string, prefix: string, handler: Handler)

  predicate Matches(m: Match, verb: string, target: string) {
    verb == m.verb && HasPrefix(target, m.prefix)
  }

  /** The position of the first route that matches, if any. */
  function FirstMatch(routes: seq<Match>, verb: string, target: string): (r: Option<nat>)
    ensures r.Some? ==> r.value < |routes| && Matches(routes[r.value], verb, target)
    ensures r.Some? ==> forall j :: 0 <= j < r.value ==> !Matches(routes[j], verb, target)
    ensures r.None? ==> forall j :: 0 <= j < |routes| ==> !Matches(routes[j], verb, target)
  {
    if routes == [] then None
    else if Matches(routes[0], verb, target) then Some(0)
    else
      match FirstMatch(routes[1..], verb, target)
      case None => None
      case Some(i) => Some(i + 1)
  }

  /** The handler a request is dispatched to: the first match's, else `fallback`. */
  function Chosen(routes: seq<Match>, verb: string, target: string, fallback: Handler): Handler {
    match FirstMatch(routes, verb, target)
    case Some(i) => routes[i].handler
    case None => fallback
  }

  /** A matching route with no match before it is the first match. */
  lemma FirstMatchAt(routes: seq<Match>, verb: string, target: string, i: nat)
    requires i < |routes| && Matches(routes[i], verb, target)
    requires forall j :: 0 <= j < i ==> !Matches(routes[j], verb, target)
    ensures FirstMatch(routes, verb, target) == Some(i)
  {
  }

  /** The scan of Route (app/server.go:40-47, app/router.go:32-39): the first matching route's handler, else `fallback`. */
  method Select(routes: seq<Match>, verb: string, target: string, fallback: Handler) returns (h: Handler)
    ensures h == Chosen(routes, verb, target, fallback)
  {
    for i := 0 to |routes|
      invariant forall j :: 0 <= j < i ==> !Matches(routes[j], verb, target)
    {
      if verb == routes[i].verb && HasPrefix(target, routes[i].prefix) {
        FirstMatchAt(routes, verb, target, i);
        return routes[i].handler;
      }
    }
    return fallback;
  }

  /**
    Registering a route never changes where a request that already matched goes; a request
    that matched nothing goes to the new route exactly when it matches it.
  */
  lemma ChosenAfterRegister(routes: seq<Match>, m: Match, verb: string, target: string, fallback: Handler)
    ensures FirstMatch(routes, verb, target).Some? ==>
              Chosen(routes + [m], verb, target, fallback) == Chosen(routes, verb, target, fallback)
    ensures FirstMatch(routes, verb, target).None? ==>
              Chosen(routes + [m], verb, target, fallback) == if Matches(m, verb, target) then m.handler else fallback
  {
    var all := routes + [m];
    match FirstMatch(routes, verb, target)
    case Some(i) =>
      FirstMatchAt(all, verb, target, i);
    case None =>
      if Matches(m, verb, target) {
        FirstMatchAt(all, verb, target, |routes|);
      } else {
        assert forall j :: 0 <= j < |all| ==> !Matches(all[j], verb, target) by {
          forall j | 0 <= j < |all| ensures !Matches(all[j], verb, target) {
            if j < |routes| {
              assert all[j] == routes[j];
            }
          }
        }
      }
  }

  /** A route is never taken while an earlier one also matches. */
  lemma EarlierRouteWins(routes: seq<Match>, verb: string, target: string, i: nat, k: nat, fallback: Handler)
    requires i < k < |routes| && Matches(routes[i], verb, target)
    ensures FirstMatch(routes, verb, target).Some? && FirstMatch(routes, verb, target).value <= i
    ensures FirstMatch(routes, verb, target).value != k
  {
  }

  /** A request whose method or target no route matches goes to the fallback. */
  lemma NoMatchFallsBack(routes: seq<Match>, verb: string, target: string, fallback: Handler)
    requires forall j :: 0 <= j < |routes| ==> !Matches(routes[j], verb, target)
    ensures Chosen(routes, verb, target, fallback) == fallback
  {
  }

  /** A route with prefix "/" matches every target that starts with "/", whatever follows. */
  lemma SlashMatchesEveryPath(verb: string, handler: Handler, target: string)
    ensures Matches(Match(verb, "/", handler), verb, target) <==> (|target| > 0 && target[0] == '/')
  {
    if |target| > 0 {
      assert target[..1] == [target[0]];
    }
  }
}
