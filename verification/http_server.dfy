/**
  The routing decision of core/HttpServer.cpp. A request is reduced to its query
  string; the user callbacks and the response object are reduced to the outcome
  the server chooses: which status line it starts, and which single action runs.
*/
module HttpServer {

  /** A registered callback together with the opaque argument passed to it. */
  datatype Route = Route(callback: nat, arg: nat)

  /** The null callback and argument a default-constructed pair holds. */
  const NullRoute := Route(0, 0)

  /** Routing state: calls_, error_ and errflag_. */
  datatype Server = Server(calls: map<string, Route>, errorRoute: Route, errflag: bool)

  /** What process() does for one request, after initResponse(status). */
  datatype Action = RunRoute(route: Route) | RunError(route: Route) | NotFound
  datatype Outcome = Outcome(status: int, action: Action)

  /** A new server: no routes and no error handler. */
  function NewServer(): (srv: Server)
    ensures srv.calls == map[] && !srv.errflag
  {
    Server(map[], NullRoute, false)
  }

  /** add: routes `url` to `route`, replacing any earlier route for it. */
  function Add(srv: Server, url: string, route: Route): (r: Server)
    ensures url in r.calls && r.calls[url] == route
    ensures r.calls.Keys == srv.calls.Keys + {url}
    ensures forall u :: u in srv.calls && u != url ==> r.calls[u] == srv.calls[u]
    ensures r.errorRoute == srv.errorRoute && r.errflag == srv.errflag
  {
    srv.(calls := srv.calls[url := route])
  }

  /** error: installs the handler for unrouted queries, replacing any earlier one. */
  function Error(srv: Server, route: Route): (r: Server)
    ensures r.errflag && r.errorRoute == route
    ensures r.calls == srv.calls
  {
    srv.(errorRoute := route, errflag := true)
  }

  /**
    process: a routed query gets 200 and its route's callback; any other query
    gets 404 and then either the error handler or notFound().
  */
  function Process(srv: Server, query: string): (o: Outcome)
    ensures o.status == 200 <==> query in srv.calls
    ensures o.status == 404 <==> query !in srv.calls
    ensures o.action.RunRoute? <==> query in srv.calls
    ensures o.action.RunRoute? ==> o.action.route == srv.calls[query]
    ensures o.action.RunError? <==> query !in srv.calls && srv.errflag
    ensures o.action.RunError? ==> o.action.route == srv.errorRoute
    ensures o.action.NotFound? <==> query !in srv.calls && !srv.errflag
  {
    if query !in srv.calls then
      Outcome(404, if srv.errflag then RunError(srv.errorRoute) else NotFound)
    else
      Outcome(200, RunRoute(srv.calls[query]))
  }

  /** After add(url, ...), a request for url runs exactly that route with status 200. */
  lemma AddThenProcess(srv: Server, url: string, route: Route)
    ensures Process(Add(srv, url, route), url) == Outcome(200, RunRoute(route))
  {
  }

  /** A later add for the same url overwrites the earlier route. */
  lemma AddOverwrites(srv: Server, url: string, first: Route, second: Route)
    ensures Process(Add(Add(srv, url, first), url, second), url) == Outcome(200, RunRoute(second))
  {
  }

  /** Adding a route leaves the outcome of every other query unchanged. */
  lemma AddKeepsOtherQueries(srv: Server, url: string, route: Route, query: string)
    requires query != url
    ensures Process(Add(srv, url, route), query) == Process(srv, query)
  {
  }

  /** A miss after error(...) runs the latest error handler with its argument, and never notFound. */
  lemma ErrorThenMiss(srv: Server, first: Route, second: Route, query: string)
    requires query !in srv.calls
    ensures Process(Error(srv, second), query) == Outcome(404, RunError(second))
    ensures Process(Error(Error(srv, first), second), query) == Outcome(404, RunError(second))
  {
  }

  /** Without an error handler, every query of a new server with only some routes added misses into notFound. */
  lemma FreshServerMiss(urls: seq<string>, routes: seq<Route>, query: string)
    requires |urls| == |routes|
    requires forall i :: 0 <= i < |urls| ==> urls[i] != query
    ensures Process(AddAll(NewServer(), urls, routes), query) == Outcome(404, NotFound)
  {
    AddAllKeepsError(NewServer(), urls, routes);
  }

  /** A sequence of add calls, in order. */
  function AddAll(srv: Server, urls: seq<string>, routes: seq<Route>): (r: Server)
    requires |urls| == |routes|
    decreases |urls|
    ensures r.calls.Keys == srv.calls.Keys + set i | 0 <= i < |urls| :: urls[i]
  {
    if |urls| == 0 then srv
    else
      var r := AddAll(Add(srv, urls[0], routes[0]), urls[1..], routes[1..]);
      assert (set i | 0 <= i < |urls| :: urls[i]) == {urls[0]} + set i | 0 <= i < |urls[1..]| :: urls[1..][i];
      r
  }

  /** add never touches the error handler. */
  lemma {:induction false} AddAllKeepsError(srv: Server, urls: seq<string>, routes: seq<Route>)
    requires |urls| == |routes|
    decreases |urls|
    ensures AddAll(srv, urls, routes).errflag == srv.errflag
    ensures AddAll(srv, urls, routes).errorRoute == srv.errorRoute
  {
    if |urls| > 0 {
      AddAllKeepsError(Add(srv, urls[0], routes[0]), urls[1..], routes[1..]);
    }
  }
}
