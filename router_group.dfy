/**
  Route groups of router-group.go: a prefix and a middleware list that are
  put in front of the path and the middleware of every route registered
  through the group.
 */
module Groups {
  import opened Paths
  import opened RouteTree
  import opened Routers

  /** A group registers at `prefix + path` with `middleware + mws`. */
  datatype RouterGroup = RouterGroup(prefix: string, middleware: seq<MiddlewareId>, router: Router) {

    method Get(path: string, h: HttpHandler, mws: seq<MiddlewareId>)
      requires router.Valid()
      modifies router, router.tree
      ensures router.Valid()
      ensures router.tree.nodes ==
        InsertSpec(old(router.tree.nodes), old(router.tmpRoute.methods) + [MethodGet], prefix + path, h,
                   old(router.tmpRoute.middleware) + (middleware + mws))
      ensures router.tmpRoute == EmptyRoute
    {
      var fullPath := prefix + path;
      var allMiddleware := middleware + mws;
      router.Get(fullPath, h, allMiddleware);
    }

    method Post(path: string, h: HttpHandler, mws: seq<MiddlewareId>)
      requires router.Valid()
      modifies router, router.tree
      ensures router.Valid()
      ensures router.tree.nodes ==
        InsertSpec(old(router.tree.nodes), old(router.tmpRoute.methods) + [MethodPost], prefix + path, h,
                   old(router.tmpRoute.middleware) + (middleware + mws))
      ensures router.tmpRoute == EmptyRoute
    {
      var fullPath := prefix + path;
      var allMiddleware := middleware + mws;
      router.Post(fullPath, h, allMiddleware);
    }

    method Delete(path: string, h: HttpHandler, mws: seq<MiddlewareId>)
      requires router.Valid()
      modifies router, router.tree
      ensures router.Valid()
      ensures router.tree.nodes ==
        InsertSpec(old(router.tree.nodes), old(router.tmpRoute.methods) + [MethodDelete], prefix + path, h,
                   old(router.tmpRoute.middleware) + (middleware + mws))
      ensures router.tmpRoute == EmptyRoute
    {
      var fullPath := prefix + path;
      var allMiddleware := middleware + mws;
      router.Delete(fullPath, h, allMiddleware);
    }

    method Patch(path: string, h: HttpHandler, mws: seq<MiddlewareId>)
      requires router.Valid()
      modifies router, router.tree
      ensures router.Valid()
      ensures router.tree.nodes ==
        InsertSpec(old(router.tree.nodes), old(router.tmpRoute.methods) + [MethodPatch], prefix + path, h,
                   old(router.tmpRoute.middleware) + (middleware + mws))
      ensures router.tmpRoute == EmptyRoute
    {
      var fullPath := prefix + path;
      var allMiddleware := middleware + mws;
      router.Patch(fullPath, h, allMiddleware);
    }

    method Put(path: string, h: HttpHandler, mws: seq<MiddlewareId>)
      requires router.Valid()
      modifies router, router.tree
      ensures router.Valid()
      ensures router.tree.nodes ==
        InsertSpec(old(router.tree.nodes), old(router.tmpRoute.methods) + [MethodPut], prefix + path, h,
                   old(router.tmpRoute.middleware) + (middleware + mws))
      ensures router.tmpRoute == EmptyRoute
    {
      var fullPath := prefix + path;
      var allMiddleware := middleware + mws;
      router.Put(fullPath, h, allMiddleware);
    }

    method Head(path: string, h: HttpHandler, mws: seq<MiddlewareId>)
      requires router.Valid()
      modifies router, router.tree
      ensures router.Valid()
      ensures router.tree.nodes ==
        InsertSpec(old(router.tree.nodes), old(router.tmpRoute.methods) + [MethodHead], prefix + path, h,
                   old(router.tmpRoute.middleware) + (middleware + mws))
      ensures router.tmpRoute == EmptyRoute
    {
      var fullPath := prefix + path;
      var allMiddleware := middleware + mws;
      router.Head(fullPath, h, allMiddleware);
    }
  }

  /** Router.Group: a group over `r` that keeps the prefix and the
      middleware exactly as given. */
  function Group(r: Router, prefix: string, mws: seq<MiddlewareId>): (g: RouterGroup)
    ensures g.prefix == prefix && g.middleware == mws && g.router == r
  {
    RouterGroup(prefix, mws, r)
  }

  /** The path a group registers at is the plain concatenation; when a
      separator stands at the seam, the route lands on the node of any path
      `q` whose segments are the prefix's followed by the path's, so
      `/api/` + `/users`, `/api` + `/users` and `/api/` + `users` all
      register `/api/users`. */
  lemma GroupRouteNode(nodes: seq<Node>, ms: seq<Method>, prefix: string, path: string, q: string,
                       h: HttpHandler, mws: seq<MiddlewareId>)
    requires ValidArena(nodes)
    requires (|prefix| > 0 && prefix[|prefix| - 1] == '/') || (|path| > 0 && path[0] == '/')
    requires prefix + path != PathRoot && q != PathRoot
    requires Segments(q) == Segments(prefix) + Segments(path)
    ensures InsertSpec(nodes, ms, prefix + path, h, mws) == InsertSpec(nodes, ms, q, h, mws)
  {
    SegmentsConcat(prefix, path);
  }

  /** A trailing-slash prefix: a group at `/x/` registering `/y` reaches
      the node of `/x/y`, the same as a group at `/x` would. */
  lemma TrailingSlashPrefix(x: string, y: string)
    requires IsSegment(x) && IsSegment(y)
    ensures Segments("/" + x + "/" + "/" + y) == Segments("/" + x + "/" + y) == [x, y]
  {
    SegmentsOfRootedWord(x);
    SegmentsOfRootedWord(y);
    SegmentsOfPair(x, y);
    assert "/" + x + "/" + "/" + y == ("/" + x) + "/" + ("/" + y);
    SegmentsAtSeparator("/" + x, "/" + y);
  }

  /** "//" has no segment. */
  lemma SegmentsOfDoubleSlash()
    ensures Segments("//") == []
  {
    SegmentsOfWord("");
    assert "/" == "" + "/" + "";
    SegmentsAtSeparator("", "");
    assert "//" == "" + "/" + "/";
    SegmentsAtSeparator("", "/");
  }

  /** A group with prefix "/" registering at "/" uses the path "//", which
      is not "/" and has no segment, so it registers nothing. */
  lemma RootGroupRootRouteIgnored(nodes: seq<Node>, ms: seq<Method>, h: HttpHandler, mws: seq<MiddlewareId>)
    requires ValidArena(nodes)
    ensures InsertSpec(nodes, ms, "/" + "/", h, mws) == nodes
  {
    assert "/" + "/" == "//";
    SegmentsOfDoubleSlash();
    assert "//" != PathRoot;
  }
}
