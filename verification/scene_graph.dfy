/**
 * The composite scene graph.
 *
 * A node is either a leaf (one of the drawable node kinds) or a graph holding an
 * ordered list of children. Every lifecycle call a graph receives is fanned out to
 * its children in insertion order. Pointer identity of nodes is modelled by the
 * `id` field; a pointer returned by `Find` is modelled by where the search stopped
 * (`Hit`), so that a caller can change the node it found.
 *
 * Every node carries two transforms: `local`, its own placement, and `world`,
 * the cumulative transform that `Update` recomputes and a leaf's `Render` reads
 * (`_cumulativeWorldTransformation`).
 *
 * The base scene-node class is not part of this model. Assumed of it: a leaf's
 * `Find` matches its own name only, its `Remove` does nothing, its `Update` sets
 * world := local * parentWorld, its `SetWorldTransform` writes `local`, and its
 * `Initialise` reports an outcome (`initOutcome`) that the model leaves open.
 */
module SceneGraph {
  import opened Wrappers
  import opened Transforms

  /** The drawable node kinds the application puts into the graph. */
  datatype LeafKind = ModelMesh | TeapotMesh | TexturedCubeMesh | CubeMesh

  datatype Node =
    | Leaf(id: nat, name: string, kind: LeafKind, local: Matrix, world: Matrix, initOutcome: bool)
    | Graph(id: nat, name: string, local: Matrix, world: Matrix, children: seq<Node>)

  /** True when every child of `g` is a leaf: the shape the application builds. */
  predicate Flat(g: Node)
  {
    g.Graph? && forall i :: 0 <= i < |g.children| ==> g.children[i].Leaf?
  }

  /** True when the direct children of `g` carry pairwise distinct names. */
  predicate DistinctChildNames(g: Node)
    requires g.Graph?
  {
    forall i, j :: 0 <= i < j < |g.children| ==> g.children[i].name != g.children[j].name
  }

  /** `a` and `b` are the same tree except, possibly, for their transforms. */
  ghost predicate SameShape(a: Node, b: Node)
    decreases a
  {
    match a
    case Leaf(id, name, kind, _, _, outcome) =>
      b.Leaf? && b.id == id && b.name == name && b.kind == kind && b.initOutcome == outcome
    case Graph(id, name, _, _, cs) =>
      && b.Graph? && b.id == id && b.name == name
      && |b.children| == |cs|
      && forall i :: 0 <= i < |cs| ==> SameShape(cs[i], b.children[i])
  }

  lemma {:induction false} SameShapeReflexive(n: Node)
    ensures SameShape(n, n)
    decreases n
  {
    if n.Graph? {
      forall i | 0 <= i < |n.children|
        ensures SameShape(n.children[i], n.children[i])
      {
        SameShapeReflexive(n.children[i]);
      }
    }
  }

  lemma {:induction false} SameShapeTransitive(a: Node, b: Node, c: Node)
    requires SameShape(a, b) && SameShape(b, c)
    ensures SameShape(a, c)
    decreases a
  {
    if a.Graph? {
      forall i | 0 <= i < |a.children|
        ensures SameShape(a.children[i], c.children[i])
      {
        SameShapeTransitive(a.children[i], b.children[i], c.children[i]);
      }
    }
  }

  /** `a` and `b` are the same tree with the same local transforms, except possibly for world transforms. */
  ghost predicate SameStructure(a: Node, b: Node)
    decreases a
  {
    match a
    case Leaf(id, name, kind, local, _, outcome) =>
      b.Leaf? && b.id == id && b.name == name && b.kind == kind && b.local == local && b.initOutcome == outcome
    case Graph(id, name, local, _, cs) =>
      && b.Graph? && b.id == id && b.name == name && b.local == local
      && |b.children| == |cs|
      && forall i :: 0 <= i < |cs| ==> SameStructure(cs[i], b.children[i])
  }

  // ---------------------------------------------------------------------------
  // Add

  /** Appends `n` to the children of `g`. */
  function Add(g: Node, n: Node): (r: Node)
    requires g.Graph?
    ensures r.Graph? && r.id == g.id && r.name == g.name && r.local == g.local && r.world == g.world
    ensures |r.children| == |g.children| + 1
    ensures r.children[..|g.children|] == g.children
    ensures r.children[|g.children|] == n
  {
    g.(children := g.children + [n])
  }

  // ---------------------------------------------------------------------------
  // Find

  /** Where a successful `Find` stops: at the node itself or at one of its direct children. */
  datatype Hit = Self | Child(index: nat)

  /** The name occurs somewhere in the subtree rooted at `n`. */
  ghost predicate Occurs(n: Node, name: string)
    decreases n
  {
    || n.name == name
    || (n.Graph? && exists i :: 0 <= i < |n.children| && Occurs(n.children[i], name))
  }

  /**
   * The search behind `Find`: the node's own name first, then the first child,
   * in insertion order, whose own search succeeds.
   */
  function Locate(n: Node, name: string): (r: Option<Hit>)
    ensures n.name == name ==> r == Some(Self)
    ensures r.Some? && r.value.Child? ==> n.Graph? && r.value.index < |n.children|
    decreases n, 1
  {
    if n.name == name then Some(Self)
    else if n.Leaf? then None
    else
      match FirstHit(n.children, name)
      case None => None
      case Some(i) => Some(Child(i))
  }

  /** Index of the first node of `cs` whose search for `name` succeeds. */
  function FirstHit(cs: seq<Node>, name: string): (r: Option<nat>)
    ensures r.Some? ==> r.value < |cs| && Locate(cs[r.value], name).Some?
    ensures r.Some? ==> forall j :: 0 <= j < r.value ==> Locate(cs[j], name).None?
    ensures r.None? ==> forall j :: 0 <= j < |cs| ==> Locate(cs[j], name).None?
    decreases cs, 0
  {
    if |cs| == 0 then None
    else if Locate(cs[0], name).Some? then Some(0)
    else
      match FirstHit(cs[1..], name)
      case None => None
      case Some(k) => Some(k + 1)
  }

  /** The node `Find` returns: the node itself, or the direct child whose subtree matched. */
  function Find(n: Node, name: string): (r: Option<Node>)
    ensures n.name == name ==> r == Some(n)
    ensures n.name != name && r.Some? ==> n.Graph? && r.value in n.children
    ensures n.Leaf? && n.name != name ==> r.None?
  {
    match Locate(n, name)
    case None => None
    case Some(Self) => Some(n)
    case Some(Child(i)) => Some(n.children[i])
  }

  /** `Find` succeeds exactly when the name occurs somewhere in the subtree. */
  lemma {:induction false} FindSucceedsIffOccurs(n: Node, name: string)
    ensures Find(n, name).Some? <==> Occurs(n, name)
    ensures Locate(n, name).Some? <==> Occurs(n, name)
    decreases n
  {
    if n.name != name && n.Graph? {
      forall i | 0 <= i < |n.children|
        ensures Locate(n.children[i], name).Some? <==> Occurs(n.children[i], name)
      {
        FindSucceedsIffOccurs(n.children[i], name);
      }
    }
  }

  /**
   * When the graph's own name differs, `Find` returns the first child, in
   * insertion order, whose subtree holds the name; later children do not matter.
   */
  lemma FindReturnsFirstMatchingChild(g: Node, name: string, i: nat)
    requires g.Graph? && g.name != name
    requires i < |g.children| && Occurs(g.children[i], name)
    requires forall j :: 0 <= j < i ==> !Occurs(g.children[j], name)
    ensures Locate(g, name) == Some(Child(i))
    ensures Find(g, name) == Some(g.children[i])
  {
    forall j | 0 <= j <= i
      ensures Locate(g.children[j], name).Some? <==> Occurs(g.children[j], name)
    {
      FindSucceedsIffOccurs(g.children[j], name);
    }
  }

  /** `Find` returns nothing exactly when neither the graph nor any child's subtree has the name. */
  lemma FindFailsIffNowhere(g: Node, name: string)
    requires g.Graph?
    ensures Find(g, name).None? <==>
              g.name != name && forall i :: 0 <= i < |g.children| ==> !Occurs(g.children[i], name)
  {
    FindSucceedsIffOccurs(g, name);
  }

  /** In a graph of leaves with distinct names, `Find` stops at exactly the leaf with that name. */
  lemma FlatFindIsExact(g: Node, name: string, k: nat)
    requires Flat(g) && DistinctChildNames(g)
    requires g.name != name
    requires k < |g.children| && g.children[k].name == name
    ensures Locate(g, name) == Some(Child(k))
    ensures Find(g, name) == Some(g.children[k])
  {
    forall j | 0 <= j < k
      ensures !Occurs(g.children[j], name)
    {
      assert g.children[j].name != g.children[k].name;
    }
    FindReturnsFirstMatchingChild(g, name, k);
  }

  /**
   * `Find` on a nested graph returns the containing direct child, not the
   * nested node that carries the name.
   */
  lemma FindReturnsContainingChild()
    ensures
      var leaf := Leaf(2, "Head", CubeMesh, Identity, Identity, true);
      var sub := Graph(1, "Torso", Identity, Identity, [leaf]);
      var root := Graph(0, "Root", Identity, Identity, [sub]);
      Find(root, "Head") == Some(sub) && Find(root, "Head") != Some(leaf)
  {
  }

  /** The search only looks at names and children, never at transforms. */
  lemma {:induction false} LocateIgnoresTransforms(a: Node, b: Node, name: string)
    requires SameShape(a, b)
    ensures Locate(a, name) == Locate(b, name)
    ensures FindSucceedsIn(a, b, name)
    decreases a
  {
    if a.name != name && a.Graph? {
      forall i | 0 <= i < |a.children|
        ensures Locate(a.children[i], name) == Locate(b.children[i], name)
      {
        LocateIgnoresTransforms(a.children[i], b.children[i], name);
      }
      FirstHitPointwise(a.children, b.children, name);
    }
  }

  /** A name occurs in a tree exactly when it occurs in the same tree with other transforms. */
  lemma OccursIgnoresTransforms(a: Node, b: Node, name: string)
    requires SameShape(a, b)
    ensures Occurs(a, name) <==> Occurs(b, name)
  {
    LocateIgnoresTransforms(a, b, name);
    FindSucceedsIffOccurs(a, name);
    FindSucceedsIffOccurs(b, name);
  }

  /** Both searches succeed or both fail. */
  ghost predicate FindSucceedsIn(a: Node, b: Node, name: string)
  {
    Find(a, name).Some? <==> Find(b, name).Some?
  }

  lemma {:induction false} FirstHitPointwise(xs: seq<Node>, ys: seq<Node>, name: string)
    requires |xs| == |ys|
    requires forall i :: 0 <= i < |xs| ==> Locate(xs[i], name) == Locate(ys[i], name)
    ensures FirstHit(xs, name) == FirstHit(ys, name)
    decreases |xs|
  {
    if |xs| > 0 {
      FirstHitPointwise(xs[1..], ys[1..], name);
    }
  }

  // ---------------------------------------------------------------------------
  // Remove

  /** The tree after `Remove`, and the ids of the nodes `Remove` was forwarded to. */
  datatype Removal = Removal(node: Node, forwardedTo: seq<nat>)

  /**
   * `Remove(target)` as the graph implements it: for every direct child whose
   * identity is `target`, the call is forwarded to that child. Nothing is erased.
   */
  function Remove(n: Node, target: nat): (r: Removal)
    ensures r.node == n
    ensures forall k :: 0 <= k < |r.forwardedTo| ==> r.forwardedTo[k] == target
    ensures |r.forwardedTo| > 0 <==>
              n.Graph? && exists i :: 0 <= i < |n.children| && n.children[i].id == target
    decreases n, 1
  {
    if n.Leaf? then Removal(n, []) else Removal(n, RemoveEach(n.children, target))
  }

  /** The graph's loop over `cs`: the ids `Remove` reaches, in order; the children are left as they are. */
  function RemoveEach(cs: seq<Node>, target: nat): (calls: seq<nat>)
    ensures forall k :: 0 <= k < |calls| ==> calls[k] == target
    ensures |calls| > 0 <==> exists i :: 0 <= i < |cs| && cs[i].id == target
    decreases cs, 0
  {
    if |cs| == 0 then []
    else
      var rest := RemoveEach(cs[1..], target);
      assert forall i :: 0 < i < |cs| ==> cs[i] == cs[1..][i - 1];
      if cs[0].id == target then [cs[0].id] + Remove(cs[0], target).forwardedTo + rest
      else rest
  }

  /** The children with identity `target` taken out of `cs`, the others kept in order. */
  function Without(cs: seq<Node>, target: nat): (r: seq<Node>)
    ensures |r| <= |cs|
    ensures forall c :: c in r <==> c in cs && c.id != target
    ensures (forall i :: 0 <= i < |cs| ==> cs[i].id != target) ==> r == cs
  {
    if |cs| == 0 then []
    else (if cs[0].id == target then [] else [cs[0]]) + Without(cs[1..], target)
  }

  /** Erasing from a concatenation erases from each part: survivors keep their order. */
  lemma {:induction false} WithoutDistributes(a: seq<Node>, b: seq<Node>, target: nat)
    ensures Without(a + b, target) == Without(a, target) + Without(b, target)
    decreases |a|
  {
    if |a| > 0 {
      var head := if a[0].id == target then [] else [a[0]];
      assert (a + b)[0] == a[0];
      assert (a + b)[1..] == a[1..] + b;
      assert Without(a + b, target) == head + Without(a[1..] + b, target);
      WithoutDistributes(a[1..], b, target);
      assert Without(a, target) == head + Without(a[1..], target);
    } else {
      assert a + b == b;
    }
  }

  /** `Remove` with the erase the graph's loop describes: direct children with identity `target` go. */
  function EraseChild(g: Node, target: nat): (r: Node)
    requires g.Graph?
    ensures r.Graph? && r.id == g.id && r.name == g.name && r.local == g.local && r.world == g.world
    ensures forall c :: c in r.children <==> c in g.children && c.id != target
  {
    g.(children := Without(g.children, target))
  }

  /**
   * After erasing the only children whose subtrees hold `name`, `Find(name)`
   * fails, provided the graph itself has another name.
   */
  lemma EraseThenFindFails(g: Node, target: nat, name: string)
    requires g.Graph? && g.name != name
    requires forall i :: 0 <= i < |g.children| && Occurs(g.children[i], name) ==> g.children[i].id == target
    ensures Find(EraseChild(g, target), name).None?
  {
    var r := EraseChild(g, target);
    forall i | 0 <= i < |r.children|
      ensures !Occurs(r.children[i], name)
    {
      assert r.children[i] in g.children;
    }
    FindFailsIffNowhere(r, name);
  }

  /**
   * The graph's own Remove leaves a removed child reachable by name, where the
   * erasing version does not.
   */
  lemma RemoveKeepsChildReachable()
    ensures
      var leaf := Leaf(1, "Teapot", TeapotMesh, Identity, Identity, true);
      var g := Graph(0, "Root", Identity, Identity, [leaf]);
      && Find(Remove(g, 1).node, "Teapot") == Some(leaf)
      && Remove(g, 1).forwardedTo == [1]
      && Find(EraseChild(g, 1), "Teapot").None?
  {
    var leaf := Leaf(1, "Teapot", TeapotMesh, Identity, Identity, true);
    var g := Graph(0, "Root", Identity, Identity, [leaf]);
    EraseThenFindFails(g, 1, "Teapot");
  }

  // ---------------------------------------------------------------------------
  // Render and Shutdown

  /**
   * The calls made by a fan-out traversal, as node ids in call order: the node
   * itself, then, for a graph, each child's traversal in insertion order.
   * `Render` and `Shutdown` both have this shape.
   */
  function FanOut(n: Node): (calls: seq<nat>)
    ensures |calls| > 0 && calls[0] == n.id
    decreases n, 1
  {
    match n
    case Leaf(_, _, _, _, _, _) => [n.id]
    case Graph(_, _, _, _, cs) => [n.id] + FanOutEach(cs)
  }

  function FanOutEach(cs: seq<Node>): (calls: seq<nat>)
    ensures |cs| == 0 <==> |calls| == 0
    decreases cs, 0
  {
    if |cs| == 0 then [] else FanOut(cs[0]) + FanOutEach(cs[1..])
  }

  /** The traversal of a list of children is the traversals of its parts, in order. */
  lemma {:induction false} FanOutEachDistributes(a: seq<Node>, b: seq<Node>)
    ensures FanOutEach(a + b) == FanOutEach(a) + FanOutEach(b)
    decreases |a|
  {
    if |a| > 0 {
      assert (a + b)[0] == a[0];
      assert (a + b)[1..] == a[1..] + b;
      assert FanOutEach(a + b) == FanOut(a[0]) + FanOutEach(a[1..] + b);
      FanOutEachDistributes(a[1..], b);
    } else {
      assert a + b == b;
    }
  }

  /** The ids of the children, in insertion order. */
  function ChildIds(cs: seq<Node>): seq<nat>
  {
    seq(|cs|, i requires 0 <= i < |cs| => cs[i].id)
  }

  /** A graph of leaves visits itself, then each child once, in insertion order. */
  lemma {:induction false} FanOutFlat(g: Node)
    requires Flat(g)
    ensures FanOut(g) == [g.id] + ChildIds(g.children)
  {
    FanOutEachLeaves(g.children);
  }

  lemma {:induction false} FanOutEachLeaves(cs: seq<Node>)
    requires forall i :: 0 <= i < |cs| ==> cs[i].Leaf?
    ensures FanOutEach(cs) == ChildIds(cs)
    decreases |cs|
  {
    if |cs| > 0 {
      FanOutEachLeaves(cs[1..]);
      assert ChildIds(cs) == [cs[0].id] + ChildIds(cs[1..]);
    }
  }

  // ---------------------------------------------------------------------------
  // Initialise

  /** Whether initialisation succeeded, and the ids of the nodes whose Initialise ran, in order. */
  datatype InitOutcome = InitOutcome(ok: bool, initialised: seq<nat>)

  function Initialise(n: Node): (r: InitOutcome)
    ensures |r.initialised| > 0 && r.initialised[0] == n.id
    ensures n.Leaf? ==> r.ok == n.initOutcome
    ensures n.Graph? && |n.children| == 0 ==> r == InitOutcome(true, [n.id])
    decreases n, 1
  {
    match n
    case Leaf(_, _, _, _, _, outcome) => InitOutcome(outcome, [n.id])
    case Graph(_, _, _, _, cs) =>
      var r := InitialiseEach(cs);
      InitOutcome(r.ok, [n.id] + r.initialised)
  }

  /** The graph's loop: initialise each child in order, stopping at the first failure. */
  function InitialiseEach(cs: seq<Node>): (r: InitOutcome)
    decreases cs, 0
  {
    if |cs| == 0 then InitOutcome(true, [])
    else
      var head := Initialise(cs[0]);
      if !head.ok then InitOutcome(false, head.initialised)
      else
        var rest := InitialiseEach(cs[1..]);
        InitOutcome(rest.ok, head.initialised + rest.initialised)
  }

  /** A graph's Initialise succeeds exactly when every child's does. */
  lemma InitialiseOkIffChildrenOk(g: Node)
    requires g.Graph?
    ensures Initialise(g).ok <==> forall i :: 0 <= i < |g.children| ==> Initialise(g.children[i]).ok
  {
    InitialiseEachOkIffAllOk(g.children);
  }

  lemma {:induction false} InitialiseEachOkIffAllOk(cs: seq<Node>)
    ensures InitialiseEach(cs).ok <==> forall i :: 0 <= i < |cs| ==> Initialise(cs[i]).ok
    decreases |cs|
  {
    if |cs| > 0 {
      InitialiseEachOkIffAllOk(cs[1..]);
      assert forall i :: 0 < i < |cs| ==> cs[i] == cs[1..][i - 1];
    }
  }

  /**
   * Initialise visits nodes in the fan-out order and stops early only on
   * failure: its trace is a prefix of the full traversal, and all of it when it
   * succeeds.
   */
  lemma {:induction false} InitialiseTraceIsPrefix(n: Node)
    ensures Initialise(n).initialised <= FanOut(n)
    ensures Initialise(n).ok ==> Initialise(n).initialised == FanOut(n)
    decreases n, 1
  {
    if n.Graph? {
      InitialiseEachTraceIsPrefix(n.children);
    }
  }

  lemma {:induction false} InitialiseEachTraceIsPrefix(cs: seq<Node>)
    ensures InitialiseEach(cs).initialised <= FanOutEach(cs)
    ensures InitialiseEach(cs).ok ==> InitialiseEach(cs).initialised == FanOutEach(cs)
    decreases cs, 0
  {
    if |cs| > 0 {
      var head, full, restFull := Initialise(cs[0]), FanOut(cs[0]), FanOutEach(cs[1..]);
      FanOutEachUnfold(cs);
      InitialiseTraceIsPrefix(cs[0]);
      if head.ok {
        InitialiseEachTraceIsPrefix(cs[1..]);
        var rest := InitialiseEach(cs[1..]);
        assert InitialiseEach(cs).initialised == full + rest.initialised;
        PrefixUnderCommonHead(full, rest.initialised, restFull);
      } else {
        assert InitialiseEach(cs).initialised == head.initialised;
        PrefixOfLonger(head.initialised, full, restFull);
      }
    }
  }

  lemma PrefixOfLonger<T>(a: seq<T>, b: seq<T>, c: seq<T>)
    requires a <= b
    ensures a <= b + c
  {
    assert a == (b + c)[..|a|];
  }

  lemma PrefixUnderCommonHead<T>(p: seq<T>, a: seq<T>, b: seq<T>)
    requires a <= b
    ensures p + a <= p + b
    ensures a == b ==> p + a == p + b
  {
    assert p + a == (p + b)[..|p| + |a|];
  }

  /**
   * If child `k` is the first to fail, the children before it are initialised
   * completely, child `k` is tried, and nothing after it runs.
   */
  lemma {:induction false} InitialiseStopsAtFirstFailure(cs: seq<Node>, k: nat)
    requires k < |cs| && !Initialise(cs[k]).ok
    requires forall j :: 0 <= j < k ==> Initialise(cs[j]).ok
    ensures InitialiseEach(cs) == InitOutcome(false, FanOutEach(cs[..k]) + Initialise(cs[k]).initialised)
    decreases k
  {
    if k == 0 {
      assert cs[..0] == [];
    } else {
      var tail := cs[1..];
      var before, failed := FanOutEach(tail[..k - 1]), Initialise(cs[k]).initialised;
      assert InitialiseEach(cs) == InitOutcome(false, FanOut(cs[0]) + (before + failed)) by {
        assert Initialise(cs[0]).ok;
        InitialiseTraceIsPrefix(cs[0]);
        forall j | 0 <= j < k - 1
          ensures Initialise(tail[j]).ok
        {
          assert tail[j] == cs[j + 1];
        }
        assert tail[k - 1] == cs[k];
        InitialiseStopsAtFirstFailure(tail, k - 1);
        InitialiseEachUnfold(cs);
      }
      assert FanOutEach(cs[..k]) == FanOut(cs[0]) + before by {
        var prefix := cs[..k];
        assert prefix[0] == cs[0];
        assert prefix[1..] == tail[..k - 1];
        FanOutEachUnfold(prefix);
      }
      assert FanOut(cs[0]) + (before + failed) == (FanOut(cs[0]) + before) + failed;
    }
  }

  lemma InitialiseEachUnfold(cs: seq<Node>)
    requires |cs| > 0 && Initialise(cs[0]).ok
    ensures InitialiseEach(cs).ok == InitialiseEach(cs[1..]).ok
    ensures InitialiseEach(cs).initialised == Initialise(cs[0]).initialised + InitialiseEach(cs[1..]).initialised
  {
  }

  lemma FanOutEachUnfold(cs: seq<Node>)
    requires |cs| > 0
    ensures FanOutEach(cs) == FanOut(cs[0]) + FanOutEach(cs[1..])
  {
  }

  /** In a graph of leaves with distinct ids, no child after the first failure is initialised. */
  lemma FlatInitialiseSkipsLaterChildren(g: Node, k: nat)
    requires Flat(g)
    requires forall i, j :: 0 <= i < j < |g.children| ==> g.children[i].id != g.children[j].id
    requires forall i :: 0 <= i < |g.children| ==> g.children[i].id != g.id
    requires k < |g.children| && !g.children[k].initOutcome
    requires forall j :: 0 <= j < k ==> g.children[j].initOutcome
    ensures !Initialise(g).ok
    ensures Initialise(g).initialised == [g.id] + ChildIds(g.children[..k + 1])
    ensures forall j :: k < j < |g.children| ==> g.children[j].id !in Initialise(g).initialised
  {
    var cs := g.children;
    InitialiseStopsAtFirstFailure(cs, k);
    FanOutEachLeaves(cs[..k]);
    assert ChildIds(cs[..k + 1]) == ChildIds(cs[..k]) + [cs[k].id];
  }

  /** A graph of three leaves whose second fails: the third is never initialised. */
  lemma SecondOfThreeFails()
    ensures
      var a := Leaf(1, "A", CubeMesh, Identity, Identity, true);
      var b := Leaf(2, "B", CubeMesh, Identity, Identity, false);
      var c := Leaf(3, "C", CubeMesh, Identity, Identity, true);
      var g := Graph(0, "Root", Identity, Identity, [a, b, c]);
      Initialise(g) == InitOutcome(false, [0, 1, 2])
  {
    var a := Leaf(1, "A", CubeMesh, Identity, Identity, true);
    var b := Leaf(2, "B", CubeMesh, Identity, Identity, false);
    var c := Leaf(3, "C", CubeMesh, Identity, Identity, true);
    var cs := [a, b, c];
    InitialiseStopsAtFirstFailure(cs, 1);
    assert cs[..1] == [a];
    assert FanOutEach([a]) == [1];
  }

  // ---------------------------------------------------------------------------
  // Update and SetWorldTransform

  /**
   * `Update(w)`: a graph hands the same `w` to every child and keeps its own
   * world transform; a leaf composes its local transform with `w`.
   */
  function Update(n: Node, w: Matrix): (r: Node)
    ensures r.id == n.id && r.name == n.name
    ensures n.Graph? ==> r.Graph? && r.world == n.world && |r.children| == |n.children|
    ensures n.Leaf? ==> r.Leaf? && r.world == Product(n.local, w)
    decreases n
  {
    match n
    case Leaf(_, _, _, local, _, _) => n.(world := Product(local, w))
    case Graph(_, _, _, _, cs) => n.(children := seq(|cs|, i requires 0 <= i < |cs| => Update(cs[i], w)))
  }

  /** A leaf child's cumulative transform after `Update(w)` is its local transform composed with `w`. */
  lemma UpdateLeafChild(g: Node, k: nat, w: Matrix)
    requires g.Graph? && k < |g.children| && g.children[k].Leaf?
    ensures Update(g, w).children[k].world == Product(g.children[k].local, w)
    ensures Update(g, w).children[k].local == g.children[k].local
  {
  }

  /** Every leaf of the tree has world transform local * `w`. */
  ghost predicate LeafWorldsFrom(n: Node, w: Matrix)
    decreases n
  {
    match n
    case Leaf(_, _, _, local, world, _) => world == Product(local, w)
    case Graph(_, _, _, _, cs) => forall i :: 0 <= i < |cs| ==> LeafWorldsFrom(cs[i], w)
  }

  /**
   * The broadcast: after `Update(w)` every leaf, however deep, composes its
   * local transform with the same `w`, and the tree's shape is unchanged.
   */
  lemma {:induction false} UpdateBroadcasts(n: Node, w: Matrix)
    ensures LeafWorldsFrom(Update(n, w), w)
    ensures SameStructure(n, Update(n, w))
    decreases n
  {
    if n.Graph? {
      forall i | 0 <= i < |n.children|
        ensures LeafWorldsFrom(Update(n, w).children[i], w)
        ensures SameStructure(n.children[i], Update(n, w).children[i])
      {
        UpdateBroadcasts(n.children[i], w);
      }
    }
  }

  /** Two leaves updated with the identity: each world is its own local transform composed with it. */
  lemma UpdateTwoLeaves()
    ensures
      var a := Leaf(1, "A", CubeMesh, Identity, Identity, true);
      var b := Leaf(2, "B", CubeMesh, Translation(1.0, 0.0, 0.0), Identity, true);
      var g := Update(Graph(0, "Root", Identity, Identity, [a, b]), Identity);
      && g.children[0].world == Product(Identity, Identity)
      && g.children[1].world == Product(Translation(1.0, 0.0, 0.0), Identity)
  {
  }

  /**
   * `SetWorldTransform(m)` on the node a search stopped at: it sets that node's
   * own transform and leaves every cumulative transform as it was.
   */
  function SetWorldAt(g: Node, h: Hit, m: Matrix): (r: Node)
    requires h.Child? ==> g.Graph? && h.index < |g.children|
    ensures h.Self? ==> r.local == m && r.world == g.world
    ensures h.Self? && g.Graph? ==> r.Graph? && r.children == g.children
    ensures h.Child? ==> r.Graph? && r.local == g.local && r.world == g.world && |r.children| == |g.children|
    ensures h.Child? ==> r.children[h.index].local == m && r.children[h.index].world == g.children[h.index].world
    ensures h.Child? ==> forall j :: 0 <= j < |g.children| && j != h.index ==> r.children[j] == g.children[j]
    ensures SameShape(g, r)
  {
    SameShapeReflexive(g);
    match h
    case Self => g.(local := m)
    case Child(i) =>
      SameShapeReflexive(g.children[i]);
      g.(children := g.children[i := g.children[i].(local := m)])
  }

  /**
   * A transform pinned on a leaf reaches its cumulative transform at the next
   * `Update(w)`, composed with `w`, while the leaf's siblings update as before.
   */
  lemma PinSurvivesUpdate(g: Node, i: nat, m: Matrix, w: Matrix)
    requires g.Graph? && i < |g.children| && g.children[i].Leaf?
    ensures Update(SetWorldAt(g, Child(i), m), w).children[i].world == Product(m, w)
    ensures forall j :: 0 <= j < |g.children| && j != i ==>
              Update(SetWorldAt(g, Child(i), m), w).children[j] == Update(g, w).children[j]
  {
  }

  /**
   * A graph's own transform never reaches its children: `Update` hands every
   * child the argument it was given, so setting the graph's transform changes
   * nothing below it.
   */
  lemma GraphTransformNotInherited(g: Node, m: Matrix, w: Matrix)
    requires g.Graph?
    ensures Update(SetWorldAt(g, Self, m), w).children == Update(g, w).children
    ensures Update(SetWorldAt(g, Self, m), w).local == m
  {
    var p := SetWorldAt(g, Self, m);
    assert p.children == g.children;
  }
}
