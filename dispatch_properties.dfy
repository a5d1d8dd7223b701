/**
  What dispatch promises: the error taxonomy and its responses, and the
  order in which composed middleware runs around the handler.
 */
module DispatchProperties {
  import opened Paths
  import opened RouteTree
  import opened TreeProperties
  import opened Routers

  /** A request that Search rejects gets handleErr's status and body and
      invokes nothing; a request it accepts invokes exactly the node's
      composed handler. */
  lemma DispatchOutcomes(nodes: seq<Node>, req: Request)
    requires ValidArena(nodes)
    ensures Dispatch(nodes, req).Respond? <==> SearchSpec(nodes, req.httpMethod, req.path).Failed?
    ensures Dispatch(nodes, req) == Respond(404, Some("page not found")) <==>
      SearchSpec(nodes, req.httpMethod, req.path) == Failed(ErrNotFound)
    ensures Dispatch(nodes, req) == Respond(405, Some("method not allowed")) <==>
      SearchSpec(nodes, req.httpMethod, req.path) == Failed(ErrMethodNotAllowed)
  {
  }

  /** One step of running a composed handler. */
  datatype Event = Enter(mw: MiddlewareId) | Run(handler: HttpHandler) | Leave(mw: MiddlewareId)

  /** The events of invoking a composed handler, assuming each middleware
      runs its pre-logic, calls the handler it wraps once, then runs its
      post-logic. */
  function Trace(c: Composed): seq<Event>
  {
    match c
    case Base(h) => [Run(h)]
    case Wrap(m, inner) => [Enter(m)] + Trace(inner) + [Leave(m)]
  }

  /** The pre-logic of `mws`, first to last. */
  function Entries(mws: seq<MiddlewareId>): (r: seq<Event>)
    ensures |r| == |mws|
  {
    seq(|mws|, i requires 0 <= i < |mws| => Enter(mws[i]))
  }

  /** The post-logic of `mws`, last to first. */
  function Exits(mws: seq<MiddlewareId>): (r: seq<Event>)
    ensures |r| == |mws|
  {
    seq(|mws|, i requires 0 <= i < |mws| => Leave(mws[|mws| - 1 - i]))
  }

  /** Composition order: the first middleware is outermost, so the
      middleware enter in registration order, the handler runs once, and
      they leave in reverse order. */
  lemma {:induction false} ComposeTrace(mws: seq<MiddlewareId>, h: HttpHandler)
    ensures Trace(Compose(mws, h)) == Entries(mws) + [Run(h)] + Exits(mws)
    decreases |mws|
  {
    if mws != [] {
      var rest := mws[1..];
      ComposeTrace(rest, h);
      assert Entries(mws) == [Enter(mws[0])] + Entries(rest);
      assert Exits(mws) == Exits(rest) + [Leave(mws[0])];
    }
  }

  /** With middleware A then B and handler H: A-pre, B-pre, H, B-post,
      A-post. */
  lemma TwoMiddlewareOrder(a: MiddlewareId, b: MiddlewareId, h: HttpHandler)
    ensures Trace(Compose([a, b], h)) == [Enter(a), Enter(b), Run(h), Leave(b), Leave(a)]
  {
    ComposeTrace([a, b], h);
  }

  /** A registered route is served: after inserting method `m` at `path`
      with handler `h` and middleware `mws`, a request for it invokes `h`
      wrapped in the node's earlier middleware followed by `mws`. */
  lemma ServeRegistered(nodes: seq<Node>, m: Method, path: string, h: HttpHandler, mws: seq<MiddlewareId>)
    requires ValidArena(nodes) && (path == PathRoot || Segments(path) != [])
    ensures Dispatch(InsertSpec(nodes, [m], path, h, mws), Request(m, path))
              == Invoke(Compose(PriorMiddlewares(nodes, path) + mws, h))
  {
    InsertThenSearch(nodes, [m], path, h, mws, m);
  }
}
