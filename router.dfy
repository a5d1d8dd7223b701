/**
  The router of router.go: route registration through a pending route
  (`tmpRoute`) that is inserted into the tree and reset, and request
  dispatch that searches the tree and either answers with an error status
  or wraps the handler in its middleware.
 */
module Routers {
  import opened Paths
  import opened RouteTree
  import opened TreeProperties

  // The method names of net/http used by the verb helpers.
  const MethodGet: Method := "GET"
  const MethodPost: Method := "POST"
  const MethodDelete: Method := "DELETE"
  const MethodPatch: Method := "PATCH"
  const MethodPut: Method := "PUT"
  const MethodHead: Method := "HEAD"
  const MethodOptions: Method := "OPTIONS"

  const StatusNotFound: int := 404
  const StatusMethodNotAllowed: int := 405
  const Http404Response: string := "page not found"
  const Http405Response: string := "method not allowed"

  /** A route being built: the methods gathered so far, the path, the
      handler and the middleware. */
  datatype Route = Route(
    methods: seq<Method>,
    path: string,
    handler: HttpHandler,
    middleware: seq<MiddlewareId>)

  /** `&route{}`: no methods, the empty path, a nil handler, no middleware. */
  const EmptyRoute: Route := Route([], "", NilHandler, [])

  /** The parts of an http.Request that dispatch looks at. */
  datatype Request = Request(httpMethod: Method, path: string)

  /** A handler with middleware applied to it, as a term: Wrap(m, inner)
      is the handler that middleware m returns when given inner. */
  datatype Composed = Base(handler: HttpHandler) | Wrap(mw: MiddlewareId, inner: Composed)

  /** What ServeHTTP does with a request: write a status and a body (a nil
      body is None), or invoke one composed handler. */
  datatype Response = Respond(status: int, body: Option<string>) | Invoke(handler: Composed)

  /** handleErr: the status and body written for a search error. The two
      routing errors are told apart by status and each gets its fixed body;
      any other error gets status 0 and a nil body. */
  function HandleErr(err: Error): (r: (int, Option<string>))
    ensures r.0 == StatusNotFound <==> err == ErrNotFound
    ensures r.0 == StatusMethodNotAllowed <==> err == ErrMethodNotAllowed
    ensures err == ErrNotFound ==> r.1 == Some(Http404Response)
    ensures err == ErrMethodNotAllowed ==> r.1 == Some(Http405Response)
    ensures err.OtherError? <==> r == (0, None)
  {
    match err
    case ErrMethodNotAllowed => (StatusMethodNotAllowed, Some(Http405Response))
    case ErrNotFound => (StatusNotFound, Some(Http404Response))
    case OtherError(_) => (0, None)
  }

  /** The middleware of a composed handler, outermost first. */
  function Layers(c: Composed): seq<MiddlewareId>
  {
    match c
    case Base(_) => []
    case Wrap(m, inner) => [m] + Layers(inner)
  }

  /** The handler at the centre of a composed handler. */
  function Innermost(c: Composed): HttpHandler
  {
    match c
    case Base(h) => h
    case Wrap(_, inner) => Innermost(inner)
  }

  /** The handler `h` with `mws` applied so that the first middleware is
      the outermost: M0(M1(...Mn-1(h))). The result holds every middleware
      once, in order, around `h`. */
  function Compose(mws: seq<MiddlewareId>, h: HttpHandler): (r: Composed)
    ensures Layers(r) == mws && Innermost(r) == h
  {
    if mws == [] then Base(h) else Wrap(mws[0], Compose(mws[1..], h))
  }

  /** What ServeHTTP does for a request on a tree: the only responses it
      writes are 404 "page not found" and 405 "method not allowed" (never
      404 for "/"), and what it invokes is the found handler wrapped in
      exactly the node's middleware. */
  function Dispatch(nodes: seq<Node>, req: Request): (r: Response)
    requires ValidArena(nodes)
    ensures r.Respond? ==>
      r == Respond(StatusNotFound, Some(Http404Response)) ||
      r == Respond(StatusMethodNotAllowed, Some(Http405Response))
    ensures req.path == PathRoot ==> r.Respond? ==> r.status == StatusMethodNotAllowed
    ensures r.Invoke? ==>
      var found := SearchSpec(nodes, req.httpMethod, req.path);
      found.Found? && Innermost(r.handler) == found.action && Layers(r.handler) == found.middlewares
  {
    match SearchSpec(nodes, req.httpMethod, req.path)
    case Failed(e) => Respond(HandleErr(e).0, HandleErr(e).1)
    case Found(h, mws) => Invoke(Compose(mws, h))
  }

  class Router {
    const tree: Tree
    var tmpRoute: Route

    ghost predicate Valid()
      reads this, tree
    {
      tree.Valid()
    }

    /** NewRouter: a router over a new tree, nothing pending. */
    constructor ()
      ensures Valid() && fresh(tree)
      ensures tree.nodes == [EmptyNode(PathRoot)] && tmpRoute == EmptyRoute
    {
      tree := new Tree();
      tmpRoute := EmptyRoute;
    }

    /** Methods: add methods to the pending route; they accumulate. */
    method Methods(ms: seq<Method>) returns (r: Router)
      modifies this
      ensures r == this
      ensures tmpRoute == old(tmpRoute).(methods := old(tmpRoute.methods) + ms)
    {
      tmpRoute := tmpRoute.(methods := tmpRoute.methods + ms);
      r := this;
    }

    /** Handle: insert the pending route into the tree, then reset it. */
    method Handle()
      requires Valid()
      modifies this, tree
      ensures Valid()
      ensures tree.nodes == InsertSpec(old(tree.nodes), old(tmpRoute.methods), old(tmpRoute.path),
                                       old(tmpRoute.handler), old(tmpRoute.middleware))
      ensures tmpRoute == EmptyRoute
    {
      tree.Insert(tmpRoute.methods, tmpRoute.path, tmpRoute.handler, tmpRoute.middleware);
      tmpRoute := EmptyRoute;
    }

    /** Handler: complete the pending route with a path, a handler and more
        middleware, and register it. */
    method Handler(path: string, h: HttpHandler, mws: seq<MiddlewareId>)
      requires Valid()
      modifies this, tree
      ensures Valid()
      ensures tree.nodes == InsertSpec(old(tree.nodes), old(tmpRoute.methods), path, h,
                                       old(tmpRoute.middleware) + mws)
      ensures tmpRoute == EmptyRoute
    {
      tmpRoute := tmpRoute.(handler := h, path := path, middleware := tmpRoute.middleware + mws);
      Handle();
    }

    /** createMethodHandle: add the method, register through Handler, then
        call Handle once more; that second call inserts the reset route at
        path "", which leaves the tree as it is. */
    method CreateMethodHandle(path: string, httpMethod: Method, h: HttpHandler, mws: seq<MiddlewareId>)
      requires Valid()
      modifies this, tree
      ensures Valid()
      ensures tree.nodes == InsertSpec(old(tree.nodes), old(tmpRoute.methods) + [httpMethod], path, h,
                                       old(tmpRoute.middleware) + mws)
      ensures tmpRoute == EmptyRoute
    {
      var _ := Methods([httpMethod]);
      Handler(path, h, mws);
      ghost var registered := tree.nodes;
      Handle();
      InsertEmptyPath(registered, [], NilHandler, []);
    }

    method Get(path: string, h: HttpHandler, mws: seq<MiddlewareId>)
      requires Valid()
      modifies this, tree
      ensures Valid()
      ensures tree.nodes == InsertSpec(old(tree.nodes), old(tmpRoute.methods) + [MethodGet], path, h,
                                       old(tmpRoute.middleware) + mws)
      ensures tmpRoute == EmptyRoute
    {
      CreateMethodHandle(path, MethodGet, h, mws);
    }

    method Post(path: string, h: HttpHandler, mws: seq<MiddlewareId>)
      requires Valid()
      modifies this, tree
      ensures Valid()
      ensures tree.nodes == InsertSpec(old(tree.nodes), old(tmpRoute.methods) + [MethodPost], path, h,
                                       old(tmpRoute.middleware) + mws)
      ensures tmpRoute == EmptyRoute
    {
      CreateMethodHandle(path, MethodPost, h, mws);
    }

    method Delete(path: string, h: HttpHandler, mws: seq<MiddlewareId>)
      requires Valid()
      modifies this, tree
      ensures Valid()
      ensures tree.nodes == InsertSpec(old(tree.nodes), old(tmpRoute.methods) + [MethodDelete], path, h,
                                       old(tmpRoute.middleware) + mws)
      ensures tmpRoute == EmptyRoute
    {
      CreateMethodHandle(path, MethodDelete, h, mws);
    }

    method Patch(path: string, h: HttpHandler, mws: seq<MiddlewareId>)
      requires Valid()
      modifies this, tree
      ensures Valid()
      ensures tree.nodes == InsertSpec(old(tree.nodes), old(tmpRoute.methods) + [MethodPatch], path, h,
                                       old(tmpRoute.middleware) + mws)
      ensures tmpRoute == EmptyRoute
    {
      CreateMethodHandle(path, MethodPatch, h, mws);
    }

    method Put(path: string, h: HttpHandler, mws: seq<MiddlewareId>)
      requires Valid()
      modifies this, tree
      ensures Valid()
      ensures tree.nodes == InsertSpec(old(tree.nodes), old(tmpRoute.methods) + [MethodPut], path, h,
                                       old(tmpRoute.middleware) + mws)
      ensures tmpRoute == EmptyRoute
    {
      CreateMethodHandle(path, MethodPut, h, mws);
    }

    method Head(path: string, h: HttpHandler, mws: seq<MiddlewareId>)
      requires Valid()
      modifies this, tree
      ensures Valid()
      ensures tree.nodes == InsertSpec(old(tree.nodes), old(tmpRoute.methods) + [MethodHead], path, h,
                                       old(tmpRoute.middleware) + mws)
      ensures tmpRoute == EmptyRoute
    {
      CreateMethodHandle(path, MethodHead, h, mws);
    }

    method Option(path: string, h: HttpHandler, mws: seq<MiddlewareId>)
      requires Valid()
      modifies this, tree
      ensures Valid()
      ensures tree.nodes == InsertSpec(old(tree.nodes), old(tmpRoute.methods) + [MethodOptions], path, h,
                                       old(tmpRoute.middleware) + mws)
      ensures tmpRoute == EmptyRoute
    {
      CreateMethodHandle(path, MethodOptions, h, mws);
    }

    /** ServeHTTP: search the tree; on an error write handleErr's status and
        body, otherwise wrap the handler in the node's middleware from the
        last to the first and invoke the result. */
    method ServeHTTP(req: Request) returns (resp: Response)
      requires Valid()
      ensures resp == Dispatch(tree.nodes, req)
    {
      var result := tree.Search(req.httpMethod, req.path);
      if result.Failed? {
        var (status, body) := HandleErr(result.err);
        return Respond(status, body);
      }
      var mws := result.middlewares;
      var finalHandler := Base(result.action);
      var i := |mws| - 1;
      while i >= 0
        invariant -1 <= i < |mws|
        invariant finalHandler == Compose(mws[i + 1..], result.action)
        decreases i
      {
        assert mws[i..][1..] == mws[i + 1..];
        finalHandler := Wrap(mws[i], finalHandler);
        i := i - 1;
      }
      assert mws[0..] == mws;
      resp := Invoke(finalHandler);
    }
  }
}
