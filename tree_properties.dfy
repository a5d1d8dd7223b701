/**
  What Insert and Search promise, stated about their specifications
  InsertSpec and SearchSpec.
 */
module TreeProperties {
  import opened Paths
  import opened RouteTree

  /** `b` keeps everything of `a`'s shape: no node is removed, no label
      changes, and no child edge is removed or redirected. */
  predicate Extends(a: seq<Node>, b: seq<Node>)
  {
    && |a| <= |b|
    && forall i :: 0 <= i < |a| ==>
         && b[i].tag == a[i].tag
         && forall k :: k in a[i].children ==> k in b[i].children && b[i].children[k] == a[i].children[k]
  }

  /** The action table of node `j`, empty for a node that does not exist yet. */
  function ActionsAt(nodes: seq<Node>, j: nat): map<Method, HttpHandler>
  {
    if j < |nodes| then nodes[j].actions else map[]
  }

  /** The middleware of node `j`, empty for a node that does not exist yet. */
  function MiddlewaresAt(nodes: seq<Node>, j: nat): seq<MiddlewareId>
  {
    if j < |nodes| then nodes[j].middlewares else []
  }

  /** The node that already stands for `path`, if any. */
  function Existing(nodes: seq<Node>, path: string): (r: Option<nat>)
    requires ValidArena(nodes)
    ensures r.Some? ==> r.value < |nodes|
  {
    if path == PathRoot then Some(0) else Walk(nodes, 0, Segments(path))
  }

  /** The middleware already bound at the node for `path`: none if there
      is no such node yet. */
  function PriorMiddlewares(nodes: seq<Node>, path: string): seq<MiddlewareId>
    requires ValidArena(nodes)
  {
    match Existing(nodes, path)
    case Some(c) => nodes[c].middlewares
    case None => []
  }

  lemma ExtendsTransitive(a: seq<Node>, b: seq<Node>, c: seq<Node>)
    requires Extends(a, b) && Extends(b, c)
    ensures Extends(a, c)
  {
  }

  /** A walk that succeeds keeps succeeding, to the same node, in any
      extension of the tree. */
  lemma {:induction false} WalkExtends(a: seq<Node>, b: seq<Node>, cur: nat, segs: seq<string>)
    requires ValidArena(a) && ValidArena(b) && Extends(a, b) && cur < |a|
    requires Walk(a, cur, segs).Some?
    ensures Walk(b, cur, segs) == Walk(a, cur, segs)
    decreases |segs|
  {
    if segs != [] {
      WalkExtends(a, b, a[cur].children[segs[0]], segs[1..]);
    }
  }

  /** Creating a child extends the tree and leaves every action table and
      middleware list as it was (the new node has empty ones). */
  lemma AddChildFacts(nodes: seq<Node>, cur: nat, p: string)
    requires ValidArena(nodes) && cur < |nodes| && p !in nodes[cur].children
    ensures Extends(nodes, AddChild(nodes, cur, p))
    ensures forall j :: ActionsAt(AddChild(nodes, cur, p), j) == ActionsAt(nodes, j)
    ensures forall j :: MiddlewaresAt(AddChild(nodes, cur, p), j) == MiddlewaresAt(nodes, j)
  {
    var r := AddChild(nodes, cur, p);
    assert r == nodes[cur := nodes[cur].(children := nodes[cur].children[p := |nodes|])] + [EmptyNode(p)];
    assert forall i :: 0 <= i < |nodes| && i != cur ==> r[i] == nodes[i];
    assert r[|nodes|] == EmptyNode(p);
  }

  /** The node Insert's walk from `cur` over `segs` ends at. */
  function InsertTarget(nodes: seq<Node>, cur: nat, segs: seq<string>): nat
    requires ValidArena(nodes) && cur < |nodes| && segs != []
    decreases |segs|
  {
    var p := segs[0];
    var grown := if p in nodes[cur].children then nodes else AddChild(nodes, cur, p);
    var next := grown[cur].children[p];
    if |segs| == 1 then next else InsertTarget(grown, next, segs[1..])
  }

  /** One step of Insert's walk extends the tree and keeps every table. */
  lemma GrowFacts(nodes: seq<Node>, cur: nat, p: string)
    requires ValidArena(nodes) && cur < |nodes|
    ensures var grown := if p in nodes[cur].children then nodes else AddChild(nodes, cur, p);
      && Extends(nodes, grown)
      && p in grown[cur].children
      && (p in nodes[cur].children ==> grown == nodes)
      && (p !in nodes[cur].children ==>
            grown[cur].children[p] == |nodes| && grown[|nodes|].children == map[])
      && (forall j :: ActionsAt(grown, j) == ActionsAt(nodes, j))
      && (forall j :: MiddlewaresAt(grown, j) == MiddlewaresAt(nodes, j))
  {
    if p !in nodes[cur].children {
      AddChildFacts(nodes, cur, p);
    }
  }

  /** Insert's walk never removes a node, a label or an edge. */
  lemma {:induction false} InsertFromExtends(nodes: seq<Node>, cur: nat, segs: seq<string>,
                                               ms: seq<Method>, h: HttpHandler, mws: seq<MiddlewareId>)
    requires ValidArena(nodes) && cur < |nodes|
    ensures Extends(nodes, InsertFrom(nodes, cur, segs, ms, h, mws))
    decreases |segs|
  {
    if segs != [] {
      var p := segs[0];
      GrowFacts(nodes, cur, p);
      var grown := if p in nodes[cur].children then nodes else AddChild(nodes, cur, p);
      var next := grown[cur].children[p];
      if |segs| == 1 {
        assert Extends(grown, BindNode(grown, next, p, ms, h, mws));
        ExtendsTransitive(nodes, grown, BindNode(grown, next, p, ms, h, mws));
      } else {
        InsertFromExtends(grown, next, segs[1..], ms, h, mws);
        ExtendsTransitive(nodes, grown, InsertFrom(grown, next, segs[1..], ms, h, mws));
      }
    }
  }

  /** After Insert's walk, the walk over `segs` reaches its target; the
      target is the node that stood there before, or a fresh node. */
  lemma {:induction false} InsertFromReaches(nodes: seq<Node>, cur: nat, segs: seq<string>,
                                               ms: seq<Method>, h: HttpHandler, mws: seq<MiddlewareId>)
    requires ValidArena(nodes) && cur < |nodes| && segs != []
    ensures Walk(InsertFrom(nodes, cur, segs, ms, h, mws), cur, segs) == Some(InsertTarget(nodes, cur, segs))
    ensures match Walk(nodes, cur, segs)
            case Some(t) => t == InsertTarget(nodes, cur, segs)
            case None => InsertTarget(nodes, cur, segs) >= |nodes|
    decreases |segs|
  {
    var r := InsertFrom(nodes, cur, segs, ms, h, mws);
    var p := segs[0];
    GrowFacts(nodes, cur, p);
    var grown := if p in nodes[cur].children then nodes else AddChild(nodes, cur, p);
    var next := grown[cur].children[p];
    if |segs| == 1 {
      assert r[cur].children == grown[cur].children;
      assert Walk(r, next, segs[1..]) == Some(next);
    } else {
      var rest := segs[1..];
      InsertFromReaches(grown, next, rest, ms, h, mws);
      InsertFromExtends(grown, next, rest, ms, h, mws);
      assert r == InsertFrom(grown, next, rest, ms, h, mws);
      assert r[cur].children[p] == next;
      assert Walk(r, cur, segs) == Walk(r, next, rest);
      if p !in nodes[cur].children {
        assert Walk(grown, next, rest) == None;
      }
    }
  }

  /** Insert's walk binds at its target alone: the target's table binds the
      methods to the handler over its old (possibly empty) table, its
      middleware is its old (possibly empty) list followed by `mws`, and
      every other node, old or fresh, keeps its (possibly empty) ones. */
  lemma {:induction false} InsertFromTables(nodes: seq<Node>, cur: nat, segs: seq<string>,
                                              ms: seq<Method>, h: HttpHandler, mws: seq<MiddlewareId>)
    requires ValidArena(nodes) && cur < |nodes| && segs != []
    ensures var r := InsertFrom(nodes, cur, segs, ms, h, mws);
      var t := InsertTarget(nodes, cur, segs);
      && t < |r|
      && r[t].actions == BindAll(ActionsAt(nodes, t), ms, h)
      && r[t].middlewares == MiddlewaresAt(nodes, t) + mws
      && forall j :: 0 <= j < |r| && j != t ==>
           r[j].actions == ActionsAt(nodes, j) && r[j].middlewares == MiddlewaresAt(nodes, j)
    decreases |segs|
  {
    var p := segs[0];
    GrowFacts(nodes, cur, p);
    var grown := if p in nodes[cur].children then nodes else AddChild(nodes, cur, p);
    var next := grown[cur].children[p];
    if |segs| > 1 {
      InsertFromTables(grown, next, segs[1..], ms, h, mws);
    }
  }

  /** Insert's walk creates at most one node per segment. */
  lemma {:induction false} InsertFromSize(nodes: seq<Node>, cur: nat, segs: seq<string>,
                                            ms: seq<Method>, h: HttpHandler, mws: seq<MiddlewareId>)
    requires ValidArena(nodes) && cur < |nodes|
    ensures |InsertFrom(nodes, cur, segs, ms, h, mws)| <= |nodes| + |segs|
    decreases |segs|
  {
    if segs != [] {
      var p := segs[0];
      var grown := if p in nodes[cur].children then nodes else AddChild(nodes, cur, p);
      var next := grown[cur].children[p];
      if |segs| > 1 {
        InsertFromSize(grown, next, segs[1..], ms, h, mws);
      }
    }
  }

  /** Node j is one that a walk from `cur` over `segs` passes through
      before its last step. */
  predicate OnWalk(nodes: seq<Node>, cur: nat, segs: seq<string>, j: nat)
    requires ValidArena(nodes) && cur < |nodes|
  {
    exists i :: 0 <= i < |segs| && Walk(nodes, cur, segs[..i]) == Some(j)
  }

  /** A walk that continues from a child continues from its parent. */
  lemma OnWalkStep(r: seq<Node>, cur: nat, p: string, rest: seq<string>, j: nat)
    requires ValidArena(r) && cur < |r| && p in r[cur].children
    requires OnWalk(r, r[cur].children[p], rest, j)
    ensures OnWalk(r, cur, [p] + rest, j)
  {
    var segs := [p] + rest;
    var i :| 0 <= i < |rest| && Walk(r, r[cur].children[p], rest[..i]) == Some(j);
    assert segs[..i + 1][0] == p && segs[..i + 1][1..] == rest[..i];
    assert Walk(r, cur, segs[..i + 1]) == Some(j);
  }

  /** Insert's walk adds edges only at the nodes it passes through: an old
      node off the walk keeps its children. */
  lemma {:induction false} InsertFromChildren(nodes: seq<Node>, cur: nat, segs: seq<string>,
                                                ms: seq<Method>, h: HttpHandler, mws: seq<MiddlewareId>, j: nat)
    requires ValidArena(nodes) && cur < |nodes| && j < |nodes|
    requires !OnWalk(InsertFrom(nodes, cur, segs, ms, h, mws), cur, segs, j)
    ensures InsertFrom(nodes, cur, segs, ms, h, mws)[j].children == nodes[j].children
    decreases |segs|
  {
    if segs != [] {
      var p := segs[0];
      var grown := if p in nodes[cur].children then nodes else AddChild(nodes, cur, p);
      var next := grown[cur].children[p];
      InsertFromFirstStep(nodes, cur, segs, ms, h, mws, j);
      GrowKeepsOthers(nodes, cur, p, j);
      if |segs| > 1 {
        InsertFromChildren(grown, next, segs[1..], ms, h, mws, j);
      }
    }
  }

  /** The first step of Insert's walk, seen from an old node `j` off the
      walk: `j` is not the start, and it is off the rest of the walk too. */
  lemma InsertFromFirstStep(nodes: seq<Node>, cur: nat, segs: seq<string>,
                            ms: seq<Method>, h: HttpHandler, mws: seq<MiddlewareId>, j: nat)
    requires ValidArena(nodes) && cur < |nodes| && j < |nodes| && segs != []
    requires !OnWalk(InsertFrom(nodes, cur, segs, ms, h, mws), cur, segs, j)
    ensures j != cur
    ensures var p := segs[0];
      var grown := if p in nodes[cur].children then nodes else AddChild(nodes, cur, p);
      var next := grown[cur].children[p];
      && (|segs| == 1 ==> InsertFrom(nodes, cur, segs, ms, h, mws)[j].children == grown[j].children)
      && (|segs| > 1 ==> !OnWalk(InsertFrom(grown, next, segs[1..], ms, h, mws), next, segs[1..], j))
  {
    assert segs[..0] == [];
    if |segs| > 1 {
      InsertFromRestOffWalk(nodes, cur, segs, ms, h, mws, j);
    }
  }

  /** An old node off Insert's walk from `cur` is off its walk from the
      child the first segment leads to. */
  lemma InsertFromRestOffWalk(nodes: seq<Node>, cur: nat, segs: seq<string>,
                              ms: seq<Method>, h: HttpHandler, mws: seq<MiddlewareId>, j: nat)
    requires ValidArena(nodes) && cur < |nodes| && j < |nodes| && |segs| > 1
    requires !OnWalk(InsertFrom(nodes, cur, segs, ms, h, mws), cur, segs, j)
    ensures var p := segs[0];
      var grown := if p in nodes[cur].children then nodes else AddChild(nodes, cur, p);
      var next := grown[cur].children[p];
      !OnWalk(InsertFrom(grown, next, segs[1..], ms, h, mws), next, segs[1..], j)
  {
    var r := InsertFrom(nodes, cur, segs, ms, h, mws);
    var p := segs[0];
    var grown := if p in nodes[cur].children then nodes else AddChild(nodes, cur, p);
    var next := grown[cur].children[p];
    var rest := segs[1..];
    assert r == InsertFrom(grown, next, rest, ms, h, mws);
    GrowFacts(nodes, cur, p);
    InsertFromExtends(grown, next, rest, ms, h, mws);
    assert segs == [p] + rest;
    if OnWalk(r, next, rest, j) {
      OnWalkStep(r, cur, p, rest, j);
    }
  }

  /** Reusing or creating the child for `p` leaves the children of every
      node other than `cur` as they were. */
  lemma GrowKeepsOthers(nodes: seq<Node>, cur: nat, p: string, j: nat)
    requires ValidArena(nodes) && cur < |nodes| && j < |nodes| && j != cur
    ensures var grown := if p in nodes[cur].children then nodes else AddChild(nodes, cur, p);
      grown[j].children == nodes[j].children
  {
    if p !in nodes[cur].children {
      AddChildFacts(nodes, cur, p);
    }
  }

  /** Insert at "/": the listed methods are bound to the handler at the root,
      the middleware is appended to the root's list, the root's children and
      every other node are unchanged. */
  lemma InsertAtRoot(nodes: seq<Node>, ms: seq<Method>, h: HttpHandler, mws: seq<MiddlewareId>)
    requires ValidArena(nodes)
    ensures var r := InsertSpec(nodes, ms, PathRoot, h, mws);
      && |r| == |nodes|
      && r[0].actions == BindAll(nodes[0].actions, ms, h)
      && r[0].middlewares == nodes[0].middlewares + mws
      && r[0].children == nodes[0].children
      && forall j :: 1 <= j < |r| ==> r[j] == nodes[j]
  {
    assert Split(PathRoot) == [[], []];
    assert Segments(PathRoot) == [];
  }

  /** Insert at a path other than "/" that has no non-empty segment ("",
      "//", ...) leaves the tree unchanged. */
  lemma InsertWithoutSegments(nodes: seq<Node>, ms: seq<Method>, path: string, h: HttpHandler,
                              mws: seq<MiddlewareId>)
    requires ValidArena(nodes) && path != PathRoot && Segments(path) == []
    ensures InsertSpec(nodes, ms, path, h, mws) == nodes
  {
  }

  /** Insert at the empty path, as the second Handle of createMethodHandle
      does, leaves the tree unchanged. */
  lemma InsertEmptyPath(nodes: seq<Node>, ms: seq<Method>, h: HttpHandler, mws: seq<MiddlewareId>)
    requires ValidArena(nodes)
    ensures InsertSpec(nodes, ms, "", h, mws) == nodes
  {
    assert Segments("") == [];
  }

  /** Insert never removes a node, a label or a child edge. */
  lemma InsertExtends(nodes: seq<Node>, ms: seq<Method>, path: string, h: HttpHandler,
                      mws: seq<MiddlewareId>)
    requires ValidArena(nodes)
    ensures Extends(nodes, InsertSpec(nodes, ms, path, h, mws))
  {
    var atRoot := if path == PathRoot then BindNode(nodes, 0, path, ms, h, mws) else nodes;
    assert Extends(nodes, atRoot);
    InsertFromExtends(atRoot, 0, Segments(path), ms, h, mws);
    ExtendsTransitive(nodes, atRoot, InsertSpec(nodes, ms, path, h, mws));
  }

  /** Insert at a path with segments: the node t that the path now walks to
      is the one that stood for it before, or a fresh node if none did; t's
      table binds every listed method to the handler (overwriting) and
      keeps its other bindings, t's middleware is its old list followed by
      `mws`; every other node keeps its actions and middleware, and every
      created node other than t has none. */
  lemma InsertAtPath(nodes: seq<Node>, ms: seq<Method>, path: string, h: HttpHandler,
                     mws: seq<MiddlewareId>)
    requires ValidArena(nodes) && path != PathRoot && Segments(path) != []
    ensures var r := InsertSpec(nodes, ms, path, h, mws);
      && |nodes| <= |r|
      && Walk(r, 0, Segments(path)).Some?
      && var t := Walk(r, 0, Segments(path)).value;
      && (Existing(nodes, path).Some? ==> Existing(nodes, path).value == t)
      && (Existing(nodes, path).None? ==> t >= |nodes|)
      && (forall m :: m in ms ==> m in r[t].actions && r[t].actions[m] == h)
      && (forall m :: m in ActionsAt(nodes, t) && m !in ms ==>
            m in r[t].actions && r[t].actions[m] == ActionsAt(nodes, t)[m])
      && r[t].middlewares == MiddlewaresAt(nodes, t) + mws
      && (forall j :: 0 <= j < |nodes| && j != t ==>
            r[j].actions == nodes[j].actions && r[j].middlewares == nodes[j].middlewares)
      && (forall j :: |nodes| <= j < |r| && j != t ==> r[j].actions == map[] && r[j].middlewares == [])
  {
    var segs := Segments(path);
    InsertFromExtends(nodes, 0, segs, ms, h, mws);
    InsertFromReaches(nodes, 0, segs, ms, h, mws);
    InsertFromTables(nodes, 0, segs, ms, h, mws);
  }

  /** The shape frame of Insert at a path with segments: at most one node is
      created per segment, and every old node the path does not pass
      through keeps its children (Extends already says none loses any). */
  lemma InsertAtPathShape(nodes: seq<Node>, ms: seq<Method>, path: string, h: HttpHandler,
                          mws: seq<MiddlewareId>)
    requires ValidArena(nodes) && path != PathRoot
    ensures var r := InsertSpec(nodes, ms, path, h, mws);
      && |r| <= |nodes| + |Segments(path)|
      && forall j :: 0 <= j < |nodes| && !OnWalk(r, 0, Segments(path), j) ==> r[j].children == nodes[j].children
  {
    var r := InsertSpec(nodes, ms, path, h, mws);
    InsertFromSize(nodes, 0, Segments(path), ms, h, mws);
    forall j | 0 <= j < |nodes| && !OnWalk(r, 0, Segments(path), j)
      ensures r[j].children == nodes[j].children
    {
      InsertFromChildren(nodes, 0, Segments(path), ms, h, mws, j);
    }
  }

  /** After inserting methods `ms` at a path, Search finds the handler for
      each of them there, with the node's accumulated middleware (the old
      list of that node, empty for a fresh one, followed by `mws`). Paths
      with no segment other than "/" are excluded: Insert ignores them. */
  lemma InsertThenSearch(nodes: seq<Node>, ms: seq<Method>, path: string, h: HttpHandler,
                         mws: seq<MiddlewareId>, m: Method)
    requires ValidArena(nodes) && m in ms && (path == PathRoot || Segments(path) != [])
    ensures SearchSpec(InsertSpec(nodes, ms, path, h, mws), m, path)
              == Found(h, PriorMiddlewares(nodes, path) + mws)
  {
    var r := InsertSpec(nodes, ms, path, h, mws);
    if path == PathRoot {
      InsertAtRoot(nodes, ms, h, mws);
    } else {
      InsertAtPath(nodes, ms, path, h, mws);
      var t := Walk(r, 0, Segments(path)).value;
      WalkResolves(r, 0, Segments(path));
      assert ResolvePath(r, path) == Some(t);
    }
  }

  /** Registering the same method at the same path twice: the second handler
      wins and the middleware of both registrations is kept, in order,
      after whatever the node already had. */
  lemma ReRegister(nodes: seq<Node>, m: Method, path: string, h1: HttpHandler, h2: HttpHandler,
                   mws1: seq<MiddlewareId>, mws2: seq<MiddlewareId>)
    requires ValidArena(nodes) && (path == PathRoot || Segments(path) != [])
    ensures var once := InsertSpec(nodes, [m], path, h1, mws1);
      SearchSpec(InsertSpec(once, [m], path, h2, mws2), m, path)
        == Found(h2, PriorMiddlewares(nodes, path) + mws1 + mws2)
  {
    var once := InsertSpec(nodes, [m], path, h1, mws1);
    if path == PathRoot {
      InsertAtRoot(nodes, [m], h1, mws1);
    } else {
      InsertAtPath(nodes, [m], path, h1, mws1);
      var t := Walk(once, 0, Segments(path)).value;
      assert Existing(once, path) == Some(t);
      assert MiddlewaresAt(nodes, t) == PriorMiddlewares(nodes, path);
    }
    assert PriorMiddlewares(once, path) == PriorMiddlewares(nodes, path) + mws1;
    InsertThenSearch(once, [m], path, h2, mws2, m);
  }

  /** A walk that follows literal children all the way is also what Search
      resolves: the label shortcut only fires on a missing child. */
  lemma {:induction false} WalkResolves(nodes: seq<Node>, cur: nat, segs: seq<string>)
    requires ValidArena(nodes) && cur < |nodes| && Walk(nodes, cur, segs).Some?
    ensures Resolve(nodes, cur, segs) == Walk(nodes, cur, segs)
    decreases |segs|
  {
    if segs != [] {
      WalkResolves(nodes, nodes[cur].children[segs[0]], segs[1..]);
    }
  }

  /** Segment i is where Search gives up: the walk over the segments before
      it reaches node c, c has no child for segment i, and segment i is not
      c's label. */
  predicate DeadEnd(nodes: seq<Node>, cur: nat, segs: seq<string>, i: int)
    requires ValidArena(nodes) && cur < |nodes|
  {
    && 0 <= i < |segs|
    && match Walk(nodes, cur, segs[..i])
       case None => false
       case Some(c) => segs[i] !in nodes[c].children && segs[i] != nodes[c].tag
  }

  /** Search's walk fails exactly when some segment is a dead end. */
  lemma {:induction false} ResolveFailsIff(nodes: seq<Node>, cur: nat, segs: seq<string>)
    requires ValidArena(nodes) && cur < |nodes|
    ensures Resolve(nodes, cur, segs).None? <==> exists i :: DeadEnd(nodes, cur, segs, i)
    decreases |segs|
  {
    if segs == [] {
      assert forall i :: !DeadEnd(nodes, cur, segs, i);
    } else {
      var p := segs[0];
      assert segs[..0] == [];
      if p in nodes[cur].children {
        var c := nodes[cur].children[p];
        ResolveFailsIff(nodes, c, segs[1..]);
        forall i | 0 <= i < |segs[1..]|
          ensures DeadEnd(nodes, c, segs[1..], i) <==> DeadEnd(nodes, cur, segs, i + 1)
        {
          assert segs[..i + 1][0] == p && segs[..i + 1][1..] == segs[1..][..i];
        }
        if exists i :: DeadEnd(nodes, cur, segs, i) {
          var i :| DeadEnd(nodes, cur, segs, i);
          assert i > 0;
          assert DeadEnd(nodes, c, segs[1..], i - 1);
        }
      } else {
        forall i | 0 < i < |segs|
          ensures Walk(nodes, cur, segs[..i]) == None
        {
          assert segs[..i][0] == p;
        }
        if p == nodes[cur].tag {
          assert forall i :: !DeadEnd(nodes, cur, segs, i);
        } else {
          assert DeadEnd(nodes, cur, segs, 0);
        }
      }
    }
  }

  /** The label shortcut: if segment i has no child at the node c reached so
      far but equals c's label, Search stops at c and ignores the rest. */
  lemma {:induction false} LabelShortcut(nodes: seq<Node>, cur: nat, segs: seq<string>, i: nat, c: nat)
    requires ValidArena(nodes) && cur < |nodes| && i < |segs|
    requires Walk(nodes, cur, segs[..i]) == Some(c)
    requires segs[i] !in nodes[c].children && segs[i] == nodes[c].tag
    ensures Resolve(nodes, cur, segs) == Some(c)
    decreases i
  {
    if i == 0 {
      assert segs[..0] == [];
    } else {
      assert segs[..i][0] == segs[0] && segs[..i][1..] == segs[1..][..i - 1];
      LabelShortcut(nodes, nodes[cur].children[segs[0]], segs[1..], i - 1, c);
    }
  }

  /** Every node a walk reaches below `cur` is labelled with the last
      segment walked. */
  lemma {:induction false} WalkReachesLabel(nodes: seq<Node>, cur: nat, segs: seq<string>)
    requires ValidArena(nodes) && cur < |nodes| && segs != [] && Walk(nodes, cur, segs).Some?
    ensures nodes[Walk(nodes, cur, segs).value].tag == segs[|segs| - 1]
    decreases |segs|
  {
    if |segs| > 1 {
      WalkReachesLabel(nodes, nodes[cur].children[segs[0]], segs[1..]);
    }
  }

  /** A walk of at least one step ends at a node stored after its start. */
  lemma {:induction false} WalkForward(nodes: seq<Node>, cur: nat, segs: seq<string>)
    requires ValidArena(nodes) && cur < |nodes| && segs != [] && Walk(nodes, cur, segs).Some?
    ensures Walk(nodes, cur, segs).value > cur
    decreases |segs|
  {
    if |segs| > 1 {
      WalkForward(nodes, nodes[cur].children[segs[0]], segs[1..]);
    }
  }

  /** The last step of a walk: the walk over all but the last segment
      reaches the parent, whose child for the last segment is the end. */
  lemma {:induction false} WalkLast(nodes: seq<Node>, cur: nat, segs: seq<string>)
    requires ValidArena(nodes) && cur < |nodes| && segs != [] && Walk(nodes, cur, segs).Some?
    ensures var front := segs[..|segs| - 1];
      && Walk(nodes, cur, front).Some?
      && segs[|segs| - 1] in nodes[Walk(nodes, cur, front).value].children
      && nodes[Walk(nodes, cur, front).value].children[segs[|segs| - 1]] == Walk(nodes, cur, segs).value
    decreases |segs|
  {
    if |segs| > 1 {
      var c := nodes[cur].children[segs[0]];
      WalkLast(nodes, c, segs[1..]);
      assert segs[..|segs| - 1][0] == segs[0];
      assert segs[..|segs| - 1][1..] == segs[1..][..|segs[1..]| - 1];
    } else {
      assert segs[..0] == [];
    }
  }

  /** In a tree, different segment sequences walk to different nodes. */
  lemma {:induction false} WalkInjective(nodes: seq<Node>, cur: nat, s1: seq<string>, s2: seq<string>)
    requires ValidArena(nodes) && cur < |nodes|
    requires Walk(nodes, cur, s1).Some? && Walk(nodes, cur, s1) == Walk(nodes, cur, s2)
    ensures s1 == s2
    decreases |s1|
  {
    if s1 == [] {
      if s2 != [] {
        WalkForward(nodes, cur, s2);
      }
    } else if s2 == [] {
      WalkForward(nodes, cur, s1);
    } else {
      var c := Walk(nodes, cur, s1).value;
      var f1, f2 := s1[..|s1| - 1], s2[..|s2| - 1];
      WalkLast(nodes, cur, s1);
      WalkLast(nodes, cur, s2);
      var p1, p2 := Walk(nodes, cur, f1).value, Walk(nodes, cur, f2).value;
      assert Edge(nodes, p1, s1[|s1| - 1]) == Edge(nodes, p2, s2[|s2| - 1]);
      assert p1 == p2;
      assert s1[|s1| - 1] == nodes[c].tag == s2[|s2| - 1];
      WalkInjective(nodes, cur, f1, f2);
      assert s1 == f1 + [s1[|s1| - 1]] && s2 == f2 + [s2[|s2| - 1]];
    }
  }

  /** Registering a route leaves Search at every other route of the tree as
      it was: if path `p` already has a node and `q` has different segments,
      inserting at `q` does not change what Search answers for `p`. */
  lemma NonInterference(nodes: seq<Node>, ms: seq<Method>, q: string, h: HttpHandler,
                        mws: seq<MiddlewareId>, m: Method, p: string)
    requires ValidArena(nodes) && Walk(nodes, 0, Segments(p)).Some? && Segments(q) != Segments(p)
    ensures SearchSpec(InsertSpec(nodes, ms, q, h, mws), m, p) == SearchSpec(nodes, m, p)
  {
    var r := InsertSpec(nodes, ms, q, h, mws);
    var c := Walk(nodes, 0, Segments(p)).value;
    ResolveAfterInsert(nodes, ms, q, h, mws, p);
    InsertKeepsOtherTables(nodes, ms, q, h, mws, Segments(p));
    assert ResolvePath(r, p) == ResolvePath(nodes, p) == Some(c);
  }

  /** A path that had a node before an insert resolves to the same node
      after it. */
  lemma ResolveAfterInsert(nodes: seq<Node>, ms: seq<Method>, q: string, h: HttpHandler,
                           mws: seq<MiddlewareId>, p: string)
    requires ValidArena(nodes) && Walk(nodes, 0, Segments(p)).Some?
    ensures var r := InsertSpec(nodes, ms, q, h, mws);
      ResolvePath(r, p) == ResolvePath(nodes, p) == Walk(nodes, 0, Segments(p))
  {
    var r := InsertSpec(nodes, ms, q, h, mws);
    SegmentsOfSlash();
    InsertExtends(nodes, ms, q, h, mws);
    WalkExtends(nodes, r, 0, Segments(p));
    WalkResolves(nodes, 0, Segments(p));
    WalkResolves(r, 0, Segments(p));
  }

  /** Insert at `q` leaves the tables of the node of every other segment
      sequence as they were. */
  lemma InsertKeepsOtherTables(nodes: seq<Node>, ms: seq<Method>, q: string, h: HttpHandler,
                               mws: seq<MiddlewareId>, segs: seq<string>)
    requires ValidArena(nodes) && Walk(nodes, 0, segs).Some? && Segments(q) != segs
    ensures var r := InsertSpec(nodes, ms, q, h, mws);
      var c := Walk(nodes, 0, segs).value;
      r[c].actions == nodes[c].actions && r[c].middlewares == nodes[c].middlewares
  {
    if q == PathRoot {
      SegmentsOfSlash();
      RootInsertKeepsOthers(nodes, ms, h, mws, segs);
    } else if Segments(q) != [] {
      PathInsertKeepsOthers(nodes, ms, q, h, mws, segs);
    } else {
      InsertWithoutSegments(nodes, ms, q, h, mws);
    }
  }

  /** Insert at "/" touches only the root, which no non-empty walk reaches. */
  lemma RootInsertKeepsOthers(nodes: seq<Node>, ms: seq<Method>, h: HttpHandler,
                              mws: seq<MiddlewareId>, segs: seq<string>)
    requires ValidArena(nodes) && Walk(nodes, 0, segs).Some? && segs != []
    ensures var r := InsertSpec(nodes, ms, PathRoot, h, mws);
      var c := Walk(nodes, 0, segs).value;
      r[c] == nodes[c]
  {
    WalkForward(nodes, 0, segs);
    InsertAtRoot(nodes, ms, h, mws);
  }

  /** Insert at a path with segments touches the tables of only the node
      those segments walk to, which in a tree is not the node of `segs`. */
  lemma PathInsertKeepsOthers(nodes: seq<Node>, ms: seq<Method>, q: string, h: HttpHandler,
                              mws: seq<MiddlewareId>, segs: seq<string>)
    requires ValidArena(nodes) && Walk(nodes, 0, segs).Some? && Segments(q) != segs
    requires q != PathRoot && Segments(q) != []
    ensures var r := InsertSpec(nodes, ms, q, h, mws);
      var c := Walk(nodes, 0, segs).value;
      r[c].actions == nodes[c].actions && r[c].middlewares == nodes[c].middlewares
  {
    var r := InsertSpec(nodes, ms, q, h, mws);
    var c := Walk(nodes, 0, segs).value;
    assert Walk(r, 0, Segments(q)) != Some(c) by {
      InsertExtends(nodes, ms, q, h, mws);
      WalkExtends(nodes, r, 0, segs);
      if Walk(r, 0, Segments(q)) == Some(c) {
        WalkInjective(r, 0, Segments(q), segs);
      }
    }
    InsertAtPath(nodes, ms, q, h, mws);
    assert ActionsAt(nodes, c) == nodes[c].actions && MiddlewaresAt(nodes, c) == nodes[c].middlewares;
  }

  /** Segment i is an unmatched segment of `segs`: the segments before it
      walk from the root to a node that has no child for it, and it is not
      the segment just before it (which, by the label invariant, is that
      node's label; the root's label "/" is never a segment). */
  predicate Unmatched(nodes: seq<Node>, segs: seq<string>, i: int)
    requires ValidArena(nodes)
  {
    && 0 <= i < |segs|
    && match Walk(nodes, 0, segs[..i])
       case None => false
       case Some(c) => segs[i] !in nodes[c].children && (i == 0 || segs[i] != segs[i - 1])
  }

  /** Search reports ErrNotFound for a path other than "/" exactly when one
      of its segments is unmatched. */
  lemma SearchNotFoundIff(nodes: seq<Node>, m: Method, path: string)
    requires ValidArena(nodes) && path != PathRoot
    ensures SearchSpec(nodes, m, path) == Failed(ErrNotFound) <==>
      exists i :: Unmatched(nodes, Segments(path), i)
  {
    var segs := Segments(path);
    ResolveFailsIff(nodes, 0, segs);
    forall i | 0 <= i < |segs|
      ensures DeadEnd(nodes, 0, segs, i) <==> Unmatched(nodes, segs, i)
    {
      if Walk(nodes, 0, segs[..i]).Some? {
        if i == 0 {
          assert segs[..0] == [];
          assert segs[0] != PathRoot by {
            assert IsSegment(segs[0]) && '/' in PathRoot;
          }
        } else {
          WalkReachesLabel(nodes, 0, segs[..i]);
          assert segs[..i][i - 1] == segs[i - 1];
        }
      }
    }
    assert (exists i :: DeadEnd(nodes, 0, segs, i)) <==> (exists i :: Unmatched(nodes, segs, i));
    assert SearchSpec(nodes, m, path) == Failed(ErrNotFound) <==> ResolvePath(nodes, path).None?;
  }

  /** Search on "/", or on any path without a non-empty segment, evaluates
      the root: its handler for the method, or ErrMethodNotAllowed. */
  lemma SearchAtRoot(nodes: seq<Node>, m: Method, path: string)
    requires ValidArena(nodes) && (path == PathRoot || Segments(path) == [])
    ensures SearchSpec(nodes, m, path) ==
      if m in nodes[0].actions then Found(nodes[0].actions[m], nodes[0].middlewares)
      else Failed(ErrMethodNotAllowed)
  {
  }

  // Example trees, built by Insert from NewTree, over any segments a, b.

  /** The tree with only method m at /a registered. */
  function OnlyA(a: string, m: Method, h: HttpHandler): seq<Node>
  {
    [Node(PathRoot, map[], map[a := 1], []), Node(a, map[m := h], map[], [])]
  }

  /** The tree with only method m at /a/b registered. */
  function OnlyAB(a: string, b: string, m: Method, h: HttpHandler): seq<Node>
  {
    [Node(PathRoot, map[], map[a := 1], []),
     Node(a, map[], map[b := 2], []),
     Node(b, map[m := h], map[], [])]
  }

  lemma InsertOnlyA(a: string, m: Method, h: HttpHandler)
    requires IsSegment(a)
    ensures InsertSpec([EmptyNode(PathRoot)], [m], "/" + a, h, []) == OnlyA(a, m, h)
  {
    SegmentsOfRootedWord(a);
    assert |"/" + a| > |PathRoot|;
    var n0 := [EmptyNode(PathRoot)];
    var g1 := AddChild(n0, 0, a);
    assert g1 == [Node(PathRoot, map[], map[a := 1], []), EmptyNode(a)];
    assert BindAll(map[], [m], h) == map[m := h];
    var n := Bind(EmptyNode(a), a, [m], h, []);
    assert n == Node(a, map[m := h], map[], []);
    assert InsertFrom(n0, 0, [a], [m], h, []) == BindNode(g1, 1, a, [m], h, []);
    assert g1[1 := n] == OnlyA(a, m, h);
  }

  lemma InsertOnlyAB(a: string, b: string, m: Method, h: HttpHandler)
    requires IsSegment(a) && IsSegment(b)
    ensures InsertSpec([EmptyNode(PathRoot)], [m], "/" + a + "/" + b, h, []) == OnlyAB(a, b, m, h)
  {
    SegmentsOfPair(a, b);
    assert |"/" + a + "/" + b| > |PathRoot|;
    var n0 := [EmptyNode(PathRoot)];
    var g1 := AddChild(n0, 0, a);
    assert g1 == [Node(PathRoot, map[], map[a := 1], []), EmptyNode(a)];
    assert [a, b][1..] == [b];
    assert InsertFrom(n0, 0, [a, b], [m], h, []) == InsertFrom(g1, 1, [b], [m], h, []);
    InsertB(a, b, m, h);
  }

  /** The second step of InsertOnlyAB: from the tree holding /a only as an
      empty node, creating and binding `b`. */
  lemma InsertB(a: string, b: string, m: Method, h: HttpHandler)
    ensures InsertFrom([Node(PathRoot, map[], map[a := 1], []), EmptyNode(a)], 1, [b], [m], h, [])
            == OnlyAB(a, b, m, h)
  {
    var g1 := [Node(PathRoot, map[], map[a := 1], []), EmptyNode(a)];
    var g2 := AddChild(g1, 1, b);
    assert g2 == [Node(PathRoot, map[], map[a := 1], []), Node(a, map[], map[b := 2], []), EmptyNode(b)];
    assert BindAll(map[], [m], h) == map[m := h];
    var n := Bind(EmptyNode(b), b, [m], h, []);
    assert n == Node(b, map[m := h], map[], []);
    assert BindNode(g2, 2, b, [m], h, []) == g2[2 := n];
    assert g2[2 := n] == OnlyAB(a, b, m, h);
  }

  /** A node created only as a prefix of a longer route reports
      ErrMethodNotAllowed for every method: with only /a/b registered,
      /a is not allowed, while /b is not found. */
  lemma PrefixNodeNotAllowed(a: string, b: string, m: Method, h: HttpHandler, query: Method)
    requires IsSegment(a) && IsSegment(b) && a != b
    ensures var r := InsertSpec([EmptyNode(PathRoot)], [m], "/" + a + "/" + b, h, []);
      && SearchSpec(r, query, "/" + a) == Failed(ErrMethodNotAllowed)
      && SearchSpec(r, query, "/" + b) == Failed(ErrNotFound)
  {
    InsertOnlyAB(a, b, m, h);
    SegmentsOfRootedWord(a);
    SegmentsOfRootedWord(b);
    assert |"/" + a| > |PathRoot| && |"/" + b| > |PathRoot|;
    var r := OnlyAB(a, b, m, h);
    assert ValidArena(r);
    assert Resolve(r, 0, [a]) == Some(1);
    assert b != PathRoot by {
      assert '/' in PathRoot;
    }
    assert Resolve(r, 0, [b]) == None;
  }

  /** The label shortcut on an example: with only /a registered, /a/a/x
      resolves to /a, because the second `a` has no child but equals the
      label of the node it is looked up at. */
  lemma RepeatedSegmentResolves(a: string, x: string, m: Method, h: HttpHandler)
    requires IsSegment(a) && IsSegment(x)
    ensures var r := InsertSpec([EmptyNode(PathRoot)], [m], "/" + a, h, []);
      SearchSpec(r, m, "/" + a + "/" + a + "/" + x) == Found(h, [])
  {
    InsertOnlyA(a, m, h);
    SegmentsOfTriple(a, a, x);
    assert |"/" + a + "/" + a + "/" + x| > |PathRoot|;
    var r := OnlyA(a, m, h);
    assert ValidArena(r);
    var segs := [a, a, x];
    assert segs[1..] == [a, x];
    assert Resolve(r, 1, [a, x]) == Some(1);
    assert Resolve(r, 0, segs) == Some(1);
  }
}
