# gopress routing core in Dafny

This is a model of the routing layer of `gopress`, a small Go HTTP router. It
has three parts, and the properties the Go code promises are proved about the
model:

- **The route tree** (`tree.go`) is a trie keyed by literal path segments.
  Each node holds a method-to-handler table, a child map and a middleware
  list. `Insert` walks and extends the trie. `Search` follows literal
  children and reports `ErrNotFound` or `ErrMethodNotAllowed`.
- **The router** (`router.go`) builds a pending route (`tmpRoute`) through
  `Methods` and `Handler`, inserts it with `Handle` and resets it. The verb
  helpers register one fixed HTTP method each. `ServeHTTP` either turns a
  search error into a status and a body (`handleErr`), or wraps the handler
  in the node's middleware, first middleware outermost.
- **Route groups** (`router-group.go`) register at `prefix + path` with the
  group's middleware followed by the route's.

Files and modules:

| file | module | contents |
|---|---|---|
| `paths.dfy` | `Paths` | `strings.Split` on `/` (`Split`), the filter, `explodePath` (`ExplodePath`), segment lemmas |
| `tree.dfy` | `RouteTree` | node, error and result types; the arena specification functions `InsertSpec` and `SearchSpec`; class `Tree` with `Insert` and `Search` |
| `tree_properties.dfy` | `TreeProperties` | what Insert and Search promise, as lemmas on `InsertSpec` / `SearchSpec` |
| `router.dfy` | `Routers` | `handleErr`, middleware composition, `Dispatch`; class `Router` with the builder, the verbs and `ServeHTTP` |
| `dispatch_properties.dfy` | `DispatchProperties` | dispatch outcomes, middleware order, and serving a registered route |
| `router_group.dfy` | `Groups` | `RouterGroup`, `Group`, the group verbs, and group path lemmas |

How the Go entities are represented:

- **Node storage.** The tree's nodes are kept in an arena, the field
  `nodes: seq<Node>` of class `Tree`. A Go `*node` is an index into it and
  the root is index 0.
- **Node fields.** The Go field `label` is called `tag`, because `label` is
  reserved in Dafny.
- **Handlers.** An `http.Handler` is an opaque `HttpHandler`, and Go's nil
  handler is `NilHandler`.
- **Middleware.** A `Middleware` is an opaque `MiddlewareId`. A handler with
  middleware applied is the symbolic term `Wrap(mw, inner)` of type
  `Composed`.
- **Method specifications.** Each imperative method is proved equal to a
  specification function:
  - `Tree.Insert` to `InsertSpec`;
  - `Tree.Search` to `SearchSpec`;
  - `ExplodePath` to `Segments`;
  - `ServeHTTP` to `Dispatch`.

  The lemmas are stated about those functions.

Behaviour of the code worth knowing, which the model keeps:

- **Path parameters.** `GetParam` (auxiliary-methods.go:43-45) reads a
  request-context value that nothing in the routing code sets: there is no
  path-parameter (`:name`) matching. Children are keyed by the literal
  segment (tree.go:71-82) and `Search` returns only an action and a
  middleware list (tree.go:37-40). A route registered as `/users/:id` is the
  literal segment `:id`.
- **Label shortcut.** `Search` stops early when a segment has no child but
  equals the current node's label (tree.go:116-118). With only `/a`
  registered, `/a/a/x` is served by `/a`'s handler; see
  `TreeProperties.RepeatedSegmentResolves`.
- **Error handler.** The replaceable error handler is not consulted on a
  routing miss: `ServeHTTP` calls `handleErr` directly (router.go:82).

## Model

| member | source | states |
|---|---|---|
| Paths.Split | tree.go:99 | `strings.Split(s, "/")` returns at least one piece |
| Paths.JoinSplit | tree.go:99 | the pieces of Split glued back with `/` give the input back |
| Paths.SplitHasNoSeparator | tree.go:99 | no piece Split returns contains `/` |
| Paths.SplitUnique | tree.go:99 | any separator-free list of at least one piece that joins to `s` is Split(s); Split is thus fully characterised |
| Paths.SplitCons | tree.go:99 | one step of Split: a `/` starts a new piece, any other character joins the first piece |
| Paths.NoSeparatorSplit | tree.go:99 | a string without `/` splits into itself alone |
| Paths.SplitAtSeparator | tree.go:99 | splitting `x + "/" + y` gives the pieces of `x` followed by those of `y` |
| Paths.NonEmptyAppend | tree.go:101-105 | keeping the non-empty pieces distributes over concatenation |
| Paths.NonEmpty | tree.go:100-105 | the filter keeps no empty piece and never lengthens its input, and returns an input without empty pieces unchanged |
| Paths.NonEmptyKeeps | tree.go:101-105 | every kept piece comes from the input, and every non-empty piece of the input is kept |
| Paths.ExplodePath | tree.go:98-107 | the result is exactly the non-empty pieces of splitting on `/`, in order, and no element is empty or contains `/` |
| Paths.Segments | tree.go:98-107 | every segment of a path is non-empty and free of `/` |
| Paths.SegmentsAtSeparator | tree.go:98-107 | the segments of `x + "/" + y` are the segments of `x` followed by those of `y`, so repeated and trailing slashes do not matter |
| Paths.SegmentsConcat | tree.go:98-107 | when a `/` stands at the seam, the segments of `a + b` are those of `a` followed by those of `b` |
| Paths.SegmentsOfWord | tree.go:98-107 | a word without `/` is its own single segment, and the empty string has none |
| Paths.SegmentsOfRootedWord | tree.go:98-107 | `"/" + w` has the single segment `w` |
| Paths.SegmentsOfEmpty | tree.go:98-107 | the empty path has no segment |
| Paths.SegmentsOfPair | tree.go:98-107 | `/a/b` has the segments `a`, `b` for any segments `a`, `b` |
| Paths.SegmentsOfTriple | tree.go:98-107 | `/a/b/c` has the segments `a`, `b`, `c` |
| Paths.SegmentsOfSlash | tree.go:98-107 | "/" has no segment |
| RouteTree.Walk | tree.go:113-124 | a walk along literal children ends inside the arena |
| RouteTree.Resolve | tree.go:113-124 | Search's walk, including the label shortcut, ends inside the arena |
| RouteTree.ResolvePath | tree.go:111-125 | the node Search evaluates (the root for "/") is inside the arena |
| RouteTree.SearchSpec | tree.go:109-132 | Search fails only with ErrNotFound or ErrMethodNotAllowed, and never reports ErrNotFound for "/" |
| RouteTree.BindAll | tree.go:61-65 | binding methods `ms` to `h` adds exactly the keys of `ms`, maps each to `h` (overwriting), and keeps every other binding |
| RouteTree.BindNode | tree.go:85-92 | binding at a node keeps the arena well formed and its size unchanged |
| RouteTree.AddChild | tree.go:76-82 | creating a missing child appends one node, adds the edge to it, and keeps the arena well formed: every edge still leads forward to a node labelled by its key, and no node has two parents |
| RouteTree.AddChildSingleParent | tree.go:76-82 | the edge to a freshly created node is its only incoming edge, so no node gets a second parent |
| RouteTree.SameEdgesSingleParent | tree.go:85-92 | rewriting action tables and middleware without touching an edge keeps one parent per node |
| RouteTree.InsertFrom | tree.go:70-95 | Insert's walk keeps the arena well formed and never shrinks it |
| RouteTree.InsertSpec | tree.go:57-96 | Insert keeps the arena well formed and never shrinks it |
| RouteTree.Tree.constructor | tree.go:46-55 | NewTree: a single root labelled "/" with empty action table, children and middleware |
| RouteTree.Tree.BindAt | tree.go:59-66 | the binding block sets the label, binds each method to the handler and appends the middleware, as BindNode |
| RouteTree.Tree.Insert | tree.go:57-96 | the new tree is exactly InsertSpec of the old one, and stays well formed |
| RouteTree.Tree.Search | tree.go:109-132 | the result is exactly SearchSpec of the tree |
| TreeProperties.Existing | tree.go:112-124 | the node already standing for a path is inside the arena |
| TreeProperties.ExtendsTransitive | tree.go:71-83 | "keeps all nodes, labels and edges" composes |
| TreeProperties.WalkExtends | tree.go:71-83 | a walk that succeeds in a tree succeeds the same way in any extension of it |
| TreeProperties.AddChildFacts | tree.go:76-82 | creating a child keeps every node, label and edge, and every action table and middleware list |
| TreeProperties.GrowFacts | tree.go:71-83 | reusing or creating the child for a segment keeps the old tree's shape and tables and yields the edge |
| TreeProperties.InsertFromExtends | tree.go:70-95 | Insert's walk removes no node, label or child edge |
| TreeProperties.InsertFromReaches | tree.go:70-95 | after Insert's walk the segments walk to its target, which is the node that stood for them before, or a fresh one if none did |
| TreeProperties.InsertFromTables | tree.go:85-93 | after Insert's walk only the target's table and middleware change: the methods are bound to the handler, the middleware appended, and other nodes keep theirs |
| TreeProperties.InsertAtRoot | tree.go:59-67 | Insert at "/" binds every listed method to the handler on the root, appends the middleware to the root's list, and leaves the root's children and every other node unchanged |
| TreeProperties.InsertWithoutSegments | tree.go:59-70 | Insert at a path other than "/" without a non-empty segment leaves the tree unchanged |
| TreeProperties.InsertEmptyPath | tree.go:68-70 | Insert at "" leaves the tree unchanged |
| TreeProperties.InsertFromSize | tree.go:70-95 | Insert's walk creates at most one node per segment |
| TreeProperties.OnWalkStep | tree.go:71-83 | a node passed through on the walk from a child is passed through on the walk from its parent |
| TreeProperties.GrowKeepsOthers | tree.go:71-83 | reusing or creating the child for a segment leaves the children of every other node as they were |
| TreeProperties.InsertFromFirstStep | tree.go:71-83 | an old node off Insert's walk is not its start, and is off the rest of the walk too |
| TreeProperties.InsertFromRestOffWalk | tree.go:71-83 | an old node off Insert's walk from a node is off its walk from the child the first segment leads to |
| TreeProperties.InsertFromChildren | tree.go:70-95 | Insert's walk adds edges only at the nodes it passes through: any other old node keeps its children |
| TreeProperties.InsertExtends | tree.go:57-96 | Insert never removes a node or a child and never relabels one |
| TreeProperties.InsertAtPath | tree.go:70-95 | on a path with segments, the node reached is the old one or a fresh one; every listed method is bound to the handler there, overwriting, other bindings are kept, its middleware is the old list followed by the new; every other node keeps its actions and middleware, and other created nodes are empty |
| TreeProperties.InsertAtPathShape | tree.go:70-95 | on a path with segments, Insert creates at most one node per segment, and every old node off the path keeps its children |
| TreeProperties.InsertThenSearch | tree.go:57-132 | after inserting methods `ms` at a path, Search for any of them finds the handler with the node's earlier middleware followed by the new |
| TreeProperties.ReRegister | tree.go:57-93 | registering a method at a path twice: the second handler wins and both middleware lists are kept, in order |
| TreeProperties.WalkResolves | tree.go:113-124 | where every segment has a child, Search's walk is the plain literal walk, so the label shortcut never fires |
| TreeProperties.ResolveFailsIff | tree.go:113-124 | Search's walk fails exactly when some segment reached has no child and differs from the current node's label |
| TreeProperties.LabelShortcut | tree.go:116-118 | a segment with no child that equals the current node's label stops the walk at that node, whatever follows |
| TreeProperties.WalkForward | tree.go:76-82 | a walk of at least one step ends at a node created after its start, so no walk returns to the root |
| TreeProperties.WalkLast | tree.go:71-83 | the walk over all but the last segment reaches the parent of the node the whole walk reaches |
| TreeProperties.WalkInjective | tree.go:71-83 | in the tree Insert builds, different segment sequences walk to different nodes |
| TreeProperties.NonInterference | tree.go:57-132 | registering a route at `q` leaves Search for every other route `p` that already has a node (different segments) as it was |
| TreeProperties.ResolveAfterInsert | tree.go:57-125 | a path that had a node before an insert resolves to the same node after it |
| TreeProperties.InsertKeepsOtherTables | tree.go:57-96 | Insert at `q` leaves the action table and middleware of the node of every other segment sequence as they were |
| TreeProperties.RootInsertKeepsOthers | tree.go:59-67 | Insert at "/" leaves every node that a non-empty walk reaches exactly as it was |
| TreeProperties.PathInsertKeepsOthers | tree.go:70-95 | Insert at a path with segments leaves the tables of the node of every other segment sequence as they were |
| TreeProperties.WalkReachesLabel | tree.go:77-86 | the node a literal walk reaches is labelled with the last segment |
| TreeProperties.SearchNotFoundIff | tree.go:112-124 | Search reports ErrNotFound on a path other than "/" exactly when some segment has no child at the node reached and differs from that node's label (the previous segment) |
| TreeProperties.SearchAtRoot | tree.go:112-131 | on "/" or a path without segments Search evaluates the root: its handler for the method and its middleware, or ErrMethodNotAllowed |
| TreeProperties.InsertOnlyA | tree.go:57-96 | inserting method m at /a into a new tree gives a root with one child `a` binding m |
| TreeProperties.InsertOnlyAB | tree.go:57-96 | inserting method m at /a/b into a new tree gives the chain root, `a`, `b` with m bound only at `b` |
| TreeProperties.PrefixNodeNotAllowed | tree.go:126-130 | with only /a/b registered, the intermediate node /a reports ErrMethodNotAllowed for every method and /b (b other than a) is not found |
| TreeProperties.RepeatedSegmentResolves | tree.go:116-118 | with only m at /a registered, m at /a/a/x is served by /a's handler, for any segments a and x |
| Routers.Router.constructor | router.go:20-24 | NewRouter: a fresh root-only tree and an empty pending route |
| Routers.Router.Methods | router.go:26-29 | the methods are appended to the pending route's, so successive calls accumulate; the router itself is returned |
| Routers.Router.Handle | router.go:38-41 | the pending route is inserted into the tree and then reset to the empty route |
| Routers.Router.Handler | router.go:31-36 | the tree gets the pending methods at `path` with `h` and the pending middleware followed by `mws`; the pending route is reset |
| Routers.Router.CreateMethodHandle | router.go:43-47 | the tree gets the pending methods plus `httpMethod` at `path`; the trailing Handle inserts the reset route at "" and changes nothing; the pending route ends empty |
| Routers.Router.Get | router.go:49-51 | registers GET at `path`, nothing carried over after it |
| Routers.Router.Post | router.go:53-55 | registers POST at `path`, nothing carried over after it |
| Routers.Router.Delete | router.go:57-59 | registers DELETE at `path`, nothing carried over after it |
| Routers.Router.Patch | router.go:61-63 | registers PATCH at `path`, nothing carried over after it |
| Routers.Router.Put | router.go:65-67 | registers PUT at `path`, nothing carried over after it |
| Routers.Router.Head | router.go:69-71 | registers HEAD at `path`, nothing carried over after it |
| Routers.Router.Option | router.go:73-75 | registers OPTIONS at `path`, nothing carried over after it |
| Routers.Router.ServeHTTP | router.go:77-94 | the response is exactly Dispatch: handleErr's status and body on a search error, otherwise the handler wrapped so that the first middleware is outermost |
| Routers.HandleErr | router.go:96-108 | 404 exactly for ErrNotFound and 405 exactly for ErrMethodNotAllowed, with bodies "page not found" and "method not allowed"; any other error gets status 0 and a nil body |
| Routers.Compose | router.go:88-91 | the composed handler holds every middleware exactly once, in registration order (first outermost), around the handler |
| Routers.Dispatch | router.go:77-93 | the only responses written are 404 "page not found" and 405 "method not allowed", and never 404 for "/"; what is invoked is the found handler wrapped in exactly the node's middleware |
| DispatchProperties.DispatchOutcomes | router.go:80-93 | a response is written (and nothing invoked) exactly when Search fails; it is 404 "page not found" exactly on ErrNotFound and 405 "method not allowed" exactly on ErrMethodNotAllowed |
| DispatchProperties.ComposeTrace | router.go:88-93 | running the composed handler enters the middleware first to last, runs the handler once, and leaves them last to first |
| DispatchProperties.TwoMiddlewareOrder | router.go:88-93 | with middleware A, B and handler H the events are A-pre, B-pre, H, B-post, A-post |
| DispatchProperties.ServeRegistered | router.go:77-93 | after registering a method at a path, a request for it invokes the handler wrapped in the node's earlier middleware followed by the new |
| Groups.Group | router-group.go:11-17 | the group keeps the given prefix, middleware and router unchanged |
| Groups.RouterGroup.Get | router-group.go:19-24 | registers GET at `prefix + path` with the group's middleware followed by the route's |
| Groups.RouterGroup.Post | router-group.go:26-31 | registers POST at `prefix + path` with the group's middleware followed by the route's |
| Groups.RouterGroup.Delete | router-group.go:33-38 | registers DELETE at `prefix + path` with the group's middleware followed by the route's |
| Groups.RouterGroup.Patch | router-group.go:40-45 | registers PATCH at `prefix + path` with the group's middleware followed by the route's |
| Groups.RouterGroup.Put | router-group.go:47-52 | registers PUT at `prefix + path` with the group's middleware followed by the route's |
| Groups.RouterGroup.Head | router-group.go:54-59 | registers HEAD at `prefix + path` with the group's middleware followed by the route's |
| Groups.GroupRouteNode | router-group.go:19-24 | with a `/` at the seam, a group route at `prefix + path` is inserted exactly as a route at any path whose segments are the prefix's followed by the path's |
| Groups.TrailingSlashPrefix | router-group.go:20 | prefix `/x/` with path `/y` reaches the same node as `/x/y` |
| Groups.SegmentsOfDoubleSlash | tree.go:98-107 | "//" has no segment |
| Groups.RootGroupRootRouteIgnored | router-group.go:20 | a group at "/" registering "/" uses path "//", which is not "/" and has no segment, so nothing is registered |

## Left out

- Pointers: nodes are arena indices. The arena invariant (`ValidArena`) makes it a tree as Insert builds one: edges lead forward to a node labelled by their key, and no node has two parents. It does not require every node to be reachable from the root, which Insert also guarantees; unreachable nodes would be invisible to Search.
- Strings: a Go string is a sequence of bytes and the model's is `seq<char>`, so a path that is not valid UTF-8 is not represented. Splitting on the ASCII `/` and comparing segments give the same results on valid UTF-8.
- `Router.tmpRoute`: the Go code has one package-level pending route shared by every router. The model gives each router its own, so interleaving registrations on two routers is not modelled.
- Concurrency: registration, and requests served in parallel, are modelled single-threaded.
- Go slice aliasing in `append(g.Middleware, middleware...)` (router-group.go:21) and in `append(tmpRoute.middleware, ...)` is modelled as plain sequence concatenation. The Go code may write into a shared backing array.
- `http.Handler` and `http.ResponseWriter`: handlers and middleware are opaque identifiers, and a composed handler is a symbolic term. `ServeHTTP` returns what it would write or invoke instead of writing to a sink. Calling a nil handler, which panics in Go, is not modelled; the term then holds `NilHandler`.
- `Routers.Router.ServeHTTP`: `WriteHeader` with status 0, which `handleErr` returns only for errors that `Search` never produces, is not modelled.
- `NewResult` (tree.go:42-44) is folded into `Search`, which builds its result directly.
- `error-handler.go`: a replaceable global function that `ServeHTTP` never calls. It is not part of this model.
- `response-methods.go` and `auxiliary-methods.go`: JSON encoding, file I/O and header access through `net/http` and `os`, over libraries not shown. They are not part of this model.
- Path parameters, parameter maps and request-context injection: no code in tree.go or router.go implements them.
