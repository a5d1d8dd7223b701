/**
  The route tree of tree.go: a trie keyed by literal path segments whose
  nodes hold a method -> handler table and a middleware list.

  The tree's nodes live in an arena, the field `nodes` of class Tree; a
  pointer to a node is its index there and the root is index 0. A node
  record keeps the fields of the Go node: label (here `tag`, as `label` is a
  Dafny keyword), actions, children (now
  segment -> index) and middlewares.
 */
module RouteTree {
  import opened Paths

  type Method = string

  /** Middleware is opaque: only its identity and its position matter. */
  type MiddlewareId = nat

  /** An http.Handler, opaque; NilHandler stands for Go's nil interface. */
  datatype HttpHandler = NilHandler | HandlerRef(id: nat)

  datatype Option<T> = None | Some(value: T)

  const PathRoot: string := "/"

  datatype Node = Node(
    tag: string,  // the Go node's label
    actions: map<Method, HttpHandler>,
    children: map<string, nat>,
    middlewares: seq<MiddlewareId>)

  /** The errors Search reports; OtherError is any other Go `error`. */
  datatype Error = ErrNotFound | ErrMethodNotAllowed | OtherError(message: string)

  /** What Search returns: the action's handler and the node's middleware,
      or an error. */
  datatype SearchResult =
    | Found(action: HttpHandler, middlewares: seq<MiddlewareId>)
    | Failed(err: Error)

  /** A node as Insert creates it: no actions, no children, no middleware. */
  function EmptyNode(tag: string): Node
  {
    Node(tag, map[], map[], [])
  }

  /** The arena is a tree as NewTree and Insert build it: a root labelled
      "/", every child labelled with the segment it is keyed by and stored
      after its parent (so no edge leads back to the root and there is no
      cycle), and no node with two parents. */
  predicate ValidArena(nodes: seq<Node>)
  {
    && |nodes| >= 1
    && nodes[0].tag == PathRoot
    && (forall i, k :: 0 <= i < |nodes| && k in nodes[i].children ==>
          i < nodes[i].children[k] < |nodes| && nodes[nodes[i].children[k]].tag == k)
    && SingleParent(nodes)
  }

  /** The node that the edge `k` of node `i` leads to. */
  function Edge(nodes: seq<Node>, i: nat, k: string): nat
    requires i < |nodes| && k in nodes[i].children
  {
    nodes[i].children[k]
  }

  /** Two child edges that lead to the same node leave the same parent. */
  predicate SingleParent(nodes: seq<Node>)
  {
    forall i, j, k, l {:trigger Edge(nodes, i, k), Edge(nodes, j, l)} ::
      (0 <= i < |nodes| && 0 <= j < |nodes| && k in nodes[i].children && l in nodes[j].children &&
       Edge(nodes, i, k) == Edge(nodes, j, l)) ==> i == j
  }

  /** Follows literal children from `cur`, one per segment. */
  function Walk(nodes: seq<Node>, cur: nat, segs: seq<string>): (r: Option<nat>)
    requires ValidArena(nodes) && cur < |nodes|
    ensures r.Some? ==> r.value < |nodes|
    decreases |segs|
  {
    if segs == [] then Some(cur)
    else if segs[0] in nodes[cur].children then
      Walk(nodes, nodes[cur].children[segs[0]], segs[1..])
    else None
  }

  /** The walk Search makes: like Walk, except that a missing child whose
      segment equals the current node's label stops the walk at that node
      and the remaining segments are ignored. */
  function Resolve(nodes: seq<Node>, cur: nat, segs: seq<string>): (r: Option<nat>)
    requires ValidArena(nodes) && cur < |nodes|
    ensures r.Some? ==> r.value < |nodes|
    decreases |segs|
  {
    if segs == [] then Some(cur)
    else if segs[0] in nodes[cur].children then
      Resolve(nodes, nodes[cur].children[segs[0]], segs[1..])
    else if segs[0] == nodes[cur].tag then Some(cur)
    else None
  }

  /** The node Search evaluates for `path`: the root for "/" without any
      traversal, otherwise the result of Resolve over the segments. */
  function ResolvePath(nodes: seq<Node>, path: string): (r: Option<nat>)
    requires ValidArena(nodes)
    ensures r.Some? ==> r.value < |nodes|
  {
    if path == PathRoot then Some(0) else Resolve(nodes, 0, Segments(path))
  }

  /** The outcome of Search on a tree. */
  function SearchSpec(nodes: seq<Node>, httpMethod: Method, path: string): (r: SearchResult)
    requires ValidArena(nodes)
    ensures r.Failed? ==> r.err == ErrNotFound || r.err == ErrMethodNotAllowed
    ensures path == PathRoot ==> r != Failed(ErrNotFound)
  {
    match ResolvePath(nodes, path)
    case None => Failed(ErrNotFound)
    case Some(c) =>
      if httpMethod in nodes[c].actions
      then Found(nodes[c].actions[httpMethod], nodes[c].middlewares)
      else Failed(ErrMethodNotAllowed)
  }

  /** The action table after binding each method of `ms` to `h`, in order. */
  function BindAll(actions: map<Method, HttpHandler>, ms: seq<Method>, h: HttpHandler)
    : (r: map<Method, HttpHandler>)
    ensures r.Keys == actions.Keys + set m | m in ms
    ensures forall m :: m in ms ==> r[m] == h
    ensures forall m :: m in actions && m !in ms ==> r[m] == actions[m]
    decreases |ms|
  {
    if ms == [] then actions
    else BindAll(actions, ms[..|ms| - 1], h)[ms[|ms| - 1] := h]
  }

  /** The node after Insert's final step: label set, methods bound to `h`,
      `mws` appended to its middleware. */
  function Bind(n: Node, tag: string, ms: seq<Method>, h: HttpHandler, mws: seq<MiddlewareId>): Node
  {
    n.(tag := tag, actions := BindAll(n.actions, ms, h), middlewares := n.middlewares + mws)
  }

  /** Bind applied to node `c` of the arena. The label it sets is the one
      the node already has, so the arena stays well formed. */
  function BindNode(nodes: seq<Node>, c: nat, tag: string, ms: seq<Method>, h: HttpHandler,
                    mws: seq<MiddlewareId>): (r: seq<Node>)
    requires ValidArena(nodes) && c < |nodes| && nodes[c].tag == tag
    ensures ValidArena(r) && |r| == |nodes|
  {
    var r := nodes[c := Bind(nodes[c], tag, ms, h, mws)];
    SameEdgesSingleParent(nodes, r);
    r
  }

  /** Rewriting tables without touching any edge keeps one parent per node. */
  lemma SameEdgesSingleParent(nodes: seq<Node>, r: seq<Node>)
    requires SingleParent(nodes) && |r| == |nodes|
    requires forall i :: 0 <= i < |r| ==> r[i].children == nodes[i].children
    ensures SingleParent(r)
  {
    forall i, j, k, l |
      0 <= i < |r| && 0 <= j < |r| && k in r[i].children && l in r[j].children &&
      Edge(r, i, k) == Edge(r, j, l)
      ensures i == j
    {
      assert Edge(r, i, k) == Edge(nodes, i, k) && Edge(r, j, l) == Edge(nodes, j, l);
    }
  }

  /** The arena after Insert creates the child `p` of `cur`: the new node
      goes at the end and `cur` gets an edge to it. */
  function AddChild(nodes: seq<Node>, cur: nat, p: string): (r: seq<Node>)
    requires ValidArena(nodes) && cur < |nodes| && p !in nodes[cur].children
    ensures ValidArena(r) && |r| == |nodes| + 1
    ensures r[cur].children == nodes[cur].children[p := |nodes|]
  {
    var r := nodes[cur := nodes[cur].(children := nodes[cur].children[p := |nodes|])] + [EmptyNode(p)];
    AddChildSingleParent(nodes, cur, p, r);
    r
  }

  /** The edge AddChild adds is the only one into the new node. */
  lemma AddChildSingleParent(nodes: seq<Node>, cur: nat, p: string, r: seq<Node>)
    requires ValidArena(nodes) && cur < |nodes| && p !in nodes[cur].children
    requires r == nodes[cur := nodes[cur].(children := nodes[cur].children[p := |nodes|])] + [EmptyNode(p)]
    ensures SingleParent(r)
  {
    forall i, j, k, l |
      0 <= i < |r| && 0 <= j < |r| && k in r[i].children && l in r[j].children &&
      Edge(r, i, k) == Edge(r, j, l)
      ensures i == j
    {
      if Edge(r, i, k) == |nodes| {
        assert i == cur && k == p;
        assert j == cur && l == p;
      } else {
        assert i < |nodes| && k in nodes[i].children && Edge(r, i, k) == Edge(nodes, i, k);
        assert j < |nodes| && l in nodes[j].children && Edge(r, j, l) == Edge(nodes, j, l);
      }
    }
  }

  /** Insert's walk from `cur` over `segs`: reuse or create one child per
      segment, then bind at the node of the last segment. */
  function InsertFrom(nodes: seq<Node>, cur: nat, segs: seq<string>, ms: seq<Method>,
                      h: HttpHandler, mws: seq<MiddlewareId>): (r: seq<Node>)
    requires ValidArena(nodes) && cur < |nodes|
    ensures ValidArena(r) && |r| >= |nodes|
    decreases |segs|
  {
    if segs == [] then nodes
    else
      var p := segs[0];
      var grown := if p in nodes[cur].children then nodes else AddChild(nodes, cur, p);
      var next := grown[cur].children[p];
      if |segs| == 1 then BindNode(grown, next, p, ms, h, mws)
      else InsertFrom(grown, next, segs[1..], ms, h, mws)
  }

  /** The tree after Insert(ms, path, h, mws): "/" binds at the root, then
      the segments of the path (none for "/") are walked from the root. */
  function InsertSpec(nodes: seq<Node>, ms: seq<Method>, path: string, h: HttpHandler,
                      mws: seq<MiddlewareId>): (r: seq<Node>)
    requires ValidArena(nodes)
    ensures ValidArena(r) && |r| >= |nodes|
  {
    var atRoot := if path == PathRoot then BindNode(nodes, 0, path, ms, h, mws) else nodes;
    InsertFrom(atRoot, 0, Segments(path), ms, h, mws)
  }

  class Tree {
    var nodes: seq<Node>

    ghost predicate Valid()
      reads this
    {
      ValidArena(nodes)
    }

    /** NewTree: a root labelled "/" with empty tables. */
    constructor ()
      ensures Valid() && nodes == [EmptyNode(PathRoot)]
    {
      nodes := [EmptyNode(PathRoot)];
    }

    /** The binding block that Insert runs at the root and at the last node. */
    method BindAt(cur: nat, tag: string, ms: seq<Method>, h: HttpHandler, mws: seq<MiddlewareId>)
      requires Valid() && cur < |nodes| && nodes[cur].tag == tag
      modifies this
      ensures Valid()
      ensures nodes == BindNode(old(nodes), cur, tag, ms, h, mws)
    {
      ghost var before := nodes;
      nodes := nodes[cur := nodes[cur].(tag := tag)];
      assert nodes == before;
      for j := 0 to |ms|
        invariant |nodes| == |before|
        invariant nodes == before[cur := before[cur].(actions := BindAll(before[cur].actions, ms[..j], h))]
      {
        assert ms[..j + 1][..j] == ms[..j];
        nodes := nodes[cur := nodes[cur].(actions := nodes[cur].actions[ms[j] := h])];
      }
      assert ms[..|ms|] == ms;
      nodes := nodes[cur := nodes[cur].(middlewares := nodes[cur].middlewares + mws)];
      assert nodes == BindNode(before, cur, tag, ms, h, mws);
    }

    /** Tree.Insert: bind every method in `ms` to `h` and append `mws` at the
        node for `path`, creating the nodes that are missing. */
    method Insert(ms: seq<Method>, path: string, h: HttpHandler, mws: seq<MiddlewareId>)
      requires Valid()
      modifies this
      ensures Valid()
      ensures nodes == InsertSpec(old(nodes), ms, path, h, mws)
    {
      ghost var goal := InsertSpec(nodes, ms, path, h, mws);
      var cur: nat := 0;
      if path == PathRoot {
        BindAt(cur, path, ms, h, mws);
      }
      var ep := ExplodePath(path);
      assert ep[0..] == ep;
      var i := 0;
      while i < |ep|
        invariant 0 <= i <= |ep| && Valid() && cur < |nodes|
        invariant InsertFrom(nodes, cur, ep[i..], ms, h, mws) == goal
      {
        var p := ep[i];
        assert ep[i..][0] == p && ep[i..][1..] == ep[i + 1..];
        if p in nodes[cur].children {
          cur := nodes[cur].children[p];
        } else {
          var k := |nodes|;
          ghost var before := nodes;
          nodes := nodes[cur := nodes[cur].(children := nodes[cur].children[p := k])] + [EmptyNode(p)];
          assert nodes == AddChild(before, cur, p);
          cur := k;
        }
        if i == |ep| - 1 {
          BindAt(cur, p, ms, h, mws);
          break;
        }
        i := i + 1;
      }
    }

    /** Tree.Search: the handler for `httpMethod` at the node `path` resolves
        to, with that node's middleware, or ErrNotFound / ErrMethodNotAllowed. */
    method Search(httpMethod: Method, path: string) returns (r: SearchResult)
      requires Valid()
      ensures r == SearchSpec(nodes, httpMethod, path)
    {
      var cur: nat := 0;
      if path != PathRoot {
        var ep := ExplodePath(path);
        assert ep[0..] == ep && ep == Segments(path);
        var i := 0;
        while i < |ep|
          invariant 0 <= i <= |ep| && cur < |nodes|
          invariant Resolve(nodes, cur, ep[i..]) == ResolvePath(nodes, path)
        {
          var p := ep[i];
          assert ep[i..][0] == p && ep[i..][1..] == ep[i + 1..];
          if p !in nodes[cur].children {
            if p == nodes[cur].tag {
              assert ResolvePath(nodes, path) == Some(cur);
              break;
            } else {
              assert ResolvePath(nodes, path) == None;
              return Failed(ErrNotFound);
            }
          }
          cur := nodes[cur].children[p];
          i := i + 1;
        }
      }
      assert ResolvePath(nodes, path) == Some(cur);
      if httpMethod in nodes[cur].actions {
        r := Found(nodes[cur].actions[httpMethod], nodes[cur].middlewares);
      } else {
        r := Failed(ErrMethodNotAllowed);
      }
    }
  }
}
