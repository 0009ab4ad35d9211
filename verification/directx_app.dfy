/**
 * The application driver: it builds the scene once and, every frame, advances a
 * rotation counter, sets the graph's own transform and then looks up nine
 * nodes by name to pin each one's own transform.
 *
 * A `Find` that returns null would be dereferenced straight away; the model
 * reports that as `Failure(name)`. Matrices stay symbolic (see Transforms).
 */
module DirectXApp {
  import opened Wrappers
  import opened Transforms
  import opened SceneGraph

  /** The names of the nodes the application adds, in order of addition. */
  const NodeNames: seq<string> :=
    ["ModelNode", "Teapot", "Body", "LeftLeg", "RightLeg", "Head", "Nose", "LeftArm", "RightArm"]

  /** The kind of each added node, position by position with `NodeNames`. */
  const NodeKinds: seq<LeafKind> :=
    [ModelMesh, TeapotMesh, TexturedCubeMesh, CubeMesh, CubeMesh, CubeMesh, CubeMesh, CubeMesh, CubeMesh]

  /** The application state the driver owns: the scene and the rotation counter. */
  datatype App = App(scene: Node, rotationAngle: int)

  /**
   * The outcome of a leaf's Initialise. The model, teapot and textured cube
   * nodes always report success; the plain cube node is not part of this model,
   * so its outcome is a parameter.
   */
  function InitOutcomeOf(kind: LeafKind, cubeOk: bool): bool
  {
    if kind == CubeMesh then cubeOk else true
  }

  /** The `k`-th node the application creates. */
  function NewLeaf(k: nat, firstId: nat, cubeOk: bool): Node
    requires k < |NodeNames|
  {
    Leaf(firstId + k, NodeNames[k], NodeKinds[k], Identity, Identity, InitOutcomeOf(NodeKinds[k], cubeOk))
  }

  /**
   * Adds the nine nodes to the scene, in order, then resets the rotation counter.
   * Node identities are `firstId`, `firstId + 1`, ... in order of creation.
   */
  function CreateSceneGraph(app: App, firstId: nat, cubeOk: bool): (r: App)
    requires app.scene.Graph?
    ensures r.rotationAngle == 0
    ensures r.scene.Graph? && r.scene.id == app.scene.id && r.scene.name == app.scene.name
    ensures r.scene.world == app.scene.world
    ensures |r.scene.children| == |app.scene.children| + |NodeNames|
    ensures r.scene.children[..|app.scene.children|] == app.scene.children
    ensures forall k :: 0 <= k < |NodeNames| ==>
              var c := r.scene.children[|app.scene.children| + k];
              c.Leaf? && c.name == NodeNames[k] && c.kind == NodeKinds[k] && c.id == firstId + k
  {
    App(AddAll(app.scene, NewLeaves(firstId, cubeOk)), 0)
  }

  /** The nine nodes the application creates, in order of creation. */
  function NewLeaves(firstId: nat, cubeOk: bool): seq<Node>
  {
    seq(|NodeNames|, k requires 0 <= k < |NodeNames| => NewLeaf(k, firstId, cubeOk))
  }

  /** Adds `leaves` to `g`, one `Add` each, in order: the same as appending them to its children. */
  function AddAll(g: Node, leaves: seq<Node>): (r: Node)
    requires g.Graph?
    ensures r.Graph? && r.id == g.id && r.name == g.name && r.world == g.world
    ensures r.children == g.children + leaves
    decreases |leaves|
  {
    if |leaves| == 0 then
      assert g.children + leaves == g.children;
      g
    else
      var g' := Add(g, leaves[0]);
      assert g'.children == g.children + [leaves[0]];
      assert [leaves[0]] + leaves[1..] == leaves;
      assert g.children + [leaves[0]] + leaves[1..] == g.children + leaves;
      AddAll(g', leaves[1..])
  }

  /** The nine node names are pairwise distinct, so a first-match lookup is unambiguous. */
  lemma NodeNamesDistinct()
    ensures forall i, j :: 0 <= i < j < |NodeNames| ==> NodeNames[i] != NodeNames[j]
  {
  }

  /**
   * One per-frame pin: `Find(name)` and then `SetWorldTransform(S * T * R)` on
   * the result, where R is the frame's rotation. `nested` marks the three nodes
   * whose product is grouped as S * (T * R) instead of (S * T) * R.
   */
  datatype Pin = Pin(name: string, scale: Matrix, translation: Matrix, nested: bool)

  /** The rotation of frame `angle`: about Y by angle * pi / 360. */
  function Spin(angle: int): Matrix
  {
    RotationY(angle)
  }

  function Placement(p: Pin, angle: int): Matrix
  {
    if p.nested then Product(p.scale, Product(p.translation, Spin(angle)))
    else Product(Product(p.scale, p.translation), Spin(angle))
  }

  /** The pins of a frame, in the order the driver makes them. */
  const Pins: seq<Pin> := [
    Pin("Teapot", Scale(5.0, 5.0, 5.0), Translation(20.0, 15.0, 0.0), false),
    Pin("Nose", Scale(1.0, 1.0, 1.0), Translation(0.0, 34.0, 3.0), false),
    Pin("Body", Scale(5.0, 8.0, 2.5), Translation(0.0, 23.0, 0.0), false),
    Pin("LeftLeg", Scale(1.0, 7.5, 1.0), Translation(-4.0, 7.5, 0.0), false),
    Pin("RightLeg", Scale(1.0, 7.5, 1.0), Translation(4.0, 7.5, 0.0), false),
    Pin("Head", Scale(3.0, 3.0, 3.0), Translation(0.0, 34.0, 0.0), true),
    Pin("LeftArm", Scale(1.0, 8.5, 1.0), Translation(-6.0, 22.0, 0.0), true),
    Pin("RightArm", Scale(1.0, 8.5, 1.0), Translation(6.0, 22.0, 0.0), true),
    Pin("ModelNode", Scale(5.0, 5.0, 5.0), Translation(-25.0, 15.0, 0.0), false)
  ]

  /** The pinned scene and where each lookup stopped, in order. */
  datatype Pinned = Pinned(scene: Node, hits: seq<Hit>)

  /**
   * Makes the pins in order. The first lookup that finds nothing ends the frame
   * with `Failure(name)`, standing for the null dereference that follows it.
   * Pinning only sets transforms: the tree itself is unchanged.
   */
  function PinAll(g: Node, pins: seq<Pin>, angle: int): (r: Result<Pinned, string>)
    ensures r.Success? ==> SameShape(g, r.value.scene) && |r.value.hits| == |pins|
    decreases |pins|
  {
    if |pins| == 0 then
      SameShapeReflexive(g);
      Success(Pinned(g, []))
    else
      match Locate(g, pins[0].name)
      case None => Failure(pins[0].name)
      case Some(h) =>
        var g' := SetWorldAt(g, h, Placement(pins[0], angle));
        match PinAll(g', pins[1..], angle)
        case Failure(e) => Failure(e)
        case Success(p) =>
          SameShapeTransitive(g, g', p.scene);
          Success(Pinned(p.scene, [h] + p.hits))
  }

  /**
   * Pinning succeeds exactly when every pinned name occurs in the graph; when it
   * fails, the name reported is a pinned name that occurs nowhere.
   */
  lemma {:induction false} PinAllSucceedsIffAllFound(g: Node, pins: seq<Pin>, angle: int)
    ensures PinAll(g, pins, angle).Success? <==> forall j :: 0 <= j < |pins| ==> Occurs(g, pins[j].name)
    ensures PinAll(g, pins, angle).Failure? ==>
              var e := PinAll(g, pins, angle).error;
              exists j :: 0 <= j < |pins| && pins[j].name == e && !Occurs(g, e)
    decreases |pins|
  {
    if |pins| > 0 {
      FindSucceedsIffOccurs(g, pins[0].name);
      match Locate(g, pins[0].name)
      case None =>
      case Some(h) =>
        var g' := SetWorldAt(g, h, Placement(pins[0], angle));
        forall j | 0 <= j < |pins|
          ensures Occurs(g, pins[j].name) <==> Occurs(g', pins[j].name)
        {
          OccursIgnoresTransforms(g, g', pins[j].name);
        }
        PinAllSucceedsIffAllFound(g', pins[1..], angle);
        forall j | 0 <= j < |pins| - 1
          ensures pins[1..][j] == pins[j + 1]
        {
        }
        if PinAll(g', pins[1..], angle).Failure? {
          var e := PinAll(g', pins[1..], angle).error;
          var j :| 0 <= j < |pins[1..]| && pins[1..][j].name == e && !Occurs(g', e);
          assert pins[j + 1].name == e && !Occurs(g, e);
        }
    }
  }

  /** The result of one frame: the new application state and every node whose transform was set, in order. */
  datatype Frame = Frame(app: App, pinned: seq<Hit>)

  /**
   * A frame with a given pin table: advance the counter, set the graph's own
   * transform to the frame's rotation, then make the pins. No node is added or removed.
   */
  function FrameWith(app: App, pins: seq<Pin>): (r: Result<Frame, string>)
    requires app.scene.Graph?
    ensures r.Success? ==> r.value.app.rotationAngle == app.rotationAngle + 1
    ensures r.Success? ==> SameShape(app.scene, r.value.app.scene) && r.value.app.scene.Graph?
    ensures r.Success? ==> |r.value.pinned| == |pins| + 1 && r.value.pinned[0] == Self
  {
    var angle := app.rotationAngle + 1;
    var g := SetWorldAt(app.scene, Self, Spin(angle));
    match PinAll(g, pins, angle)
    case Failure(name) => Failure(name)
    case Success(p) =>
      SameShapeTransitive(app.scene, g, p.scene);
      Success(Frame(App(p.scene, angle), [Self] + p.hits))
  }

  /** The application's frame: the frame with the application's own pin table. */
  function UpdateSceneGraph(app: App): (r: Result<Frame, string>)
    requires app.scene.Graph?
    ensures r.Success? ==> r.value.app.rotationAngle == app.rotationAngle + 1
    ensures r.Success? ==> SameShape(app.scene, r.value.app.scene) && r.value.app.scene.Graph?
    ensures r.Success? ==> |r.value.pinned| == |Pins| + 1 && r.value.pinned[0] == Self
  {
    FrameWith(app, Pins)
  }

  /**
   * A frame fails exactly when some pinned name occurs nowhere in the scene:
   * setting transforms never makes a lookup succeed or fail.
   */
  lemma FrameSucceedsIffAllFound(app: App)
    requires app.scene.Graph?
    ensures UpdateSceneGraph(app).Success? <==> forall j :: 0 <= j < |Pins| ==> Occurs(app.scene, Pins[j].name)
    ensures UpdateSceneGraph(app).Failure? ==>
              UpdateSceneGraph(app).error in NodeNames && !Occurs(app.scene, UpdateSceneGraph(app).error)
  {
    var angle := app.rotationAngle + 1;
    var g := SetWorldAt(app.scene, Self, Spin(angle));
    forall j | 0 <= j < |Pins|
      ensures Occurs(app.scene, Pins[j].name) <==> Occurs(g, Pins[j].name)
    {
      OccursIgnoresTransforms(app.scene, g, Pins[j].name);
    }
    PinAllSucceedsIffAllFound(g, Pins, angle);
    AppLayout();
    assert UpdateSceneGraph(app).Success? <==> PinAll(g, Pins, angle).Success?;
    if PinAll(g, Pins, angle).Failure? {
      var e := PinAll(g, Pins, angle).error;
      assert UpdateSceneGraph(app).error == e;
      OccursIgnoresTransforms(app.scene, g, e);
    }
  }

  /** For each pin, the position in `NodeNames` of the node it targets. */
  const PinTargets: seq<nat> := [1, 6, 2, 3, 4, 5, 7, 8, 0]

  /** The position in `NodeNames` of the node pin `j` targets. */
  function PinTarget(j: nat): (k: nat)
    requires j < |Pins|
    ensures k < |NodeNames| && NodeNames[k] == Pins[j].name
  {
    assert NodeNames[PinTargets[j]] == Pins[j].name;
    PinTargets[j]
  }

  /**
   * A table of node names and a pin table that fit together: the names are
   * distinct, and pin `j` names node `targets[j]`, a different node for each pin.
   */
  predicate Layout(names: seq<string>, pins: seq<Pin>, targets: seq<nat>)
  {
    && (forall a, b :: 0 <= a < b < |names| ==> names[a] != names[b])
    && |targets| == |pins|
    && (forall a, b :: 0 <= a < b < |targets| ==> targets[a] != targets[b])
    && forall j :: 0 <= j < |pins| ==> targets[j] < |names| && names[targets[j]] == pins[j].name
  }

  /** The application's pin table pins every node it creates exactly once. */
  lemma AppLayout()
    ensures Layout(NodeNames, Pins, PinTargets)
    ensures |PinTargets| == |NodeNames| && forall k :: 0 <= k < |NodeNames| ==> k in PinTargets
  {
    NodeNamesDistinct();
    forall j | 0 <= j < |Pins|
      ensures PinTargets[j] < |NodeNames| && NodeNames[PinTargets[j]] == Pins[j].name
    {
      assert PinTarget(j) == PinTargets[j];
    }
    // The pin of each node: undoing `PinTargets` shows that no node is pinned twice.
    var pinOf := [8, 0, 2, 3, 4, 5, 1, 6, 7];
    assert forall j :: 0 <= j < |PinTargets| ==> PinTargets[j] < |pinOf| && pinOf[PinTargets[j]] == j;
  }

  /** A graph whose children are leaves named `names`, in order, and whose own name is none of them. */
  predicate BuiltWith(g: Node, names: seq<string>)
  {
    && Flat(g)
    && |g.children| == |names|
    && (forall k :: 0 <= k < |names| ==> g.children[k].name == names[k])
    && g.name !in names
  }

  /** The shape `CreateSceneGraph` builds from an empty graph not named like any of its nodes. */
  predicate Built(g: Node)
  {
    BuiltWith(g, NodeNames)
  }

  /** Setting a transform keeps a graph of leaves a graph of leaves with the same names. */
  lemma SetWorldKeepsNames(g: Node, h: Hit, m: Matrix)
    requires Flat(g)
    requires h.Child? ==> h.index < |g.children|
    ensures var g' := SetWorldAt(g, h, m);
      && Flat(g') && g'.name == g.name && |g'.children| == |g.children|
      && forall k :: 0 <= k < |g.children| ==> g'.children[k].name == g.children[k].name
  {
    var g' := SetWorldAt(g, h, m);
    forall k | 0 <= k < |g.children|
      ensures g'.children[k].name == g.children[k].name && g'.children[k].Leaf?
    {
      assert SameShape(g.children[k], g'.children[k]);
    }
  }

  /**
   * Pinning a graph of leaves with distinct names, where each pin's name is
   * the name of child `targets[j]`: every lookup stops at exactly that child,
   * which ends up with the pin's transform; children no pin targets keep theirs,
   * and no cumulative transform changes until the next `Update`.
   */
  lemma {:induction false} PinAllOnFlat(g: Node, pins: seq<Pin>, targets: seq<nat>, angle: int)
    requires Flat(g) && DistinctChildNames(g)
    requires |targets| == |pins|
    requires forall j :: 0 <= j < |pins| ==>
               targets[j] < |g.children| && g.children[targets[j]].name == pins[j].name && pins[j].name != g.name
    requires forall a, b :: 0 <= a < b < |targets| ==> targets[a] != targets[b]
    ensures PinAll(g, pins, angle).Success?
    ensures var p := PinAll(g, pins, angle).value;
      && Flat(p.scene) && p.scene.name == g.name && p.scene.local == g.local && p.scene.world == g.world
      && |p.scene.children| == |g.children|
      && (forall k :: 0 <= k < |g.children| ==> p.scene.children[k].name == g.children[k].name)
      && |p.hits| == |pins|
      && (forall j :: 0 <= j < |pins| ==> p.hits[j] == Child(targets[j]))
      && (forall j :: 0 <= j < |pins| ==> p.scene.children[targets[j]].local == Placement(pins[j], angle))
      && (forall k :: 0 <= k < |g.children| && k !in targets ==> p.scene.children[k].local == g.children[k].local)
      && (forall k :: 0 <= k < |g.children| ==> p.scene.children[k].world == g.children[k].world)
    decreases |pins|
  {
    if |pins| > 0 {
      var t := targets[0];
      FlatFindIsExact(g, pins[0].name, t);
      var g' := SetWorldAt(g, Child(t), Placement(pins[0], angle));
      SetWorldKeepsNames(g, Child(t), Placement(pins[0], angle));
      assert DistinctChildNames(g');
      var pins', targets' := pins[1..], targets[1..];
      forall j | 0 <= j < |pins'|
        ensures targets'[j] < |g'.children| && g'.children[targets'[j]].name == pins'[j].name
        ensures pins'[j].name != g'.name
      {
        assert targets'[j] == targets[j + 1] && pins'[j] == pins[j + 1];
      }
      forall a, b | 0 <= a < b < |targets'|
        ensures targets'[a] != targets'[b]
      {
        assert targets'[a] == targets[a + 1] && targets'[b] == targets[b + 1];
      }
      PinAllOnFlat(g', pins', targets', angle);
      var rest := PinAll(g', pins', angle).value;
      var p := Pinned(rest.scene, [Child(t)] + rest.hits);
      assert PinAll(g, pins, angle) == Success(p);
      forall j | 0 <= j < |pins|
        ensures p.hits[j] == Child(targets[j])
        ensures p.scene.children[targets[j]].local == Placement(pins[j], angle)
      {
        if j > 0 {
          assert targets[j] == targets'[j - 1] && pins[j] == pins'[j - 1];
          assert p.hits[j] == rest.hits[j - 1];
        } else {
          assert t !in targets' by {
            forall b | 0 <= b < |targets'|
              ensures targets'[b] != t
            {
              assert targets'[b] == targets[b + 1];
            }
          }
        }
      }
      forall k | 0 <= k < |g.children|
        ensures p.scene.children[k].world == g.children[k].world
      {
        assert g'.children[k].world == g.children[k].world;
      }
      forall k | 0 <= k < |g.children| && k !in targets
        ensures p.scene.children[k].local == g.children[k].local
      {
        assert k != t;
        assert k !in targets' by {
          forall b | 0 <= b < |targets'|
            ensures targets'[b] != k
          {
            assert targets'[b] == targets[b + 1];
          }
        }
      }
    }
  }

  /** Pinning a built graph: each pin stops at its target child, and the graph stays built. */
  lemma PinsOnBuiltWith(g: Node, names: seq<string>, pins: seq<Pin>, targets: seq<nat>, angle: int)
    requires BuiltWith(g, names) && Layout(names, pins, targets)
    ensures PinAll(g, pins, angle).Success?
    ensures var p := PinAll(g, pins, angle).value;
      && BuiltWith(p.scene, names) && p.scene.local == g.local && p.scene.world == g.world
      && |p.hits| == |pins|
      && (forall j :: 0 <= j < |pins| ==> p.hits[j] == Child(targets[j]))
      && forall j :: 0 <= j < |pins| ==> p.scene.children[targets[j]].local == Placement(pins[j], angle)
  {
    forall j | 0 <= j < |pins|
      ensures pins[j].name != g.name
    {
      assert pins[j].name == names[targets[j]];
    }
    PinAllOnFlat(g, pins, targets, angle);
  }

  /**
   * A frame on a built graph never dereferences null. The graph's own transform
   * is set first, then each pin's target, and each ends up with its own
   * transform for the new angle.
   */
  lemma FrameOnBuiltWith(app: App, names: seq<string>, pins: seq<Pin>, targets: seq<nat>)
    requires BuiltWith(app.scene, names) && Layout(names, pins, targets)
    ensures FrameWith(app, pins).Success?
    ensures var f := FrameWith(app, pins).value;
      && f.app.rotationAngle == app.rotationAngle + 1
      && BuiltWith(f.app.scene, names)
      && f.app.scene.local == Spin(app.rotationAngle + 1) && f.app.scene.world == app.scene.world
      && |f.pinned| == |pins| + 1 && f.pinned[0] == Self
      && (forall j :: 0 <= j < |pins| ==> f.pinned[j + 1] == Child(targets[j]))
      && forall j :: 0 <= j < |pins| ==>
           f.app.scene.children[targets[j]].local == Placement(pins[j], app.rotationAngle + 1)
  {
    var angle := app.rotationAngle + 1;
    var g := SetWorldAt(app.scene, Self, Spin(angle));
    SetWorldKeepsNames(app.scene, Self, Spin(angle));
    PinsOnBuiltWith(g, names, pins, targets, angle);
  }

  /**
   * The application's frame on the scene it builds never dereferences null:
   * every node is pinned exactly once and ends up with its own transform.
   */
  lemma FrameOnBuiltScene(app: App)
    requires Built(app.scene)
    ensures UpdateSceneGraph(app).Success?
    ensures var f := UpdateSceneGraph(app).value;
      && f.app.rotationAngle == app.rotationAngle + 1
      && Built(f.app.scene)
      && f.app.scene.local == Spin(app.rotationAngle + 1) && f.app.scene.world == app.scene.world
      && |f.pinned| == |Pins| + 1 && f.pinned[0] == Self
      && (forall j :: 0 <= j < |Pins| ==> f.pinned[j + 1] == Child(PinTarget(j)))
      && forall j :: 0 <= j < |Pins| ==>
           f.app.scene.children[PinTarget(j)].local == Placement(Pins[j], app.rotationAngle + 1)
  {
    AppLayout();
    FrameOnBuiltWith(app, NodeNames, Pins, PinTargets);
  }

  /**
   * What the next `Update(w)` makes of a frame on a built graph: each pin's
   * target gets its pose for the new angle composed with `w`, the graph's own
   * rotation reaches none of them, and the graph keeps its cumulative transform.
   */
  lemma FramePosesReachUpdateWith(app: App, names: seq<string>, pins: seq<Pin>, targets: seq<nat>, w: Matrix)
    requires BuiltWith(app.scene, names) && Layout(names, pins, targets)
    ensures FrameWith(app, pins).Success?
    ensures var s := Update(FrameWith(app, pins).value.app.scene, w);
      && s.world == app.scene.world
      && |s.children| == |names|
      && forall j :: 0 <= j < |pins| ==>
           s.children[targets[j]].world == Product(Placement(pins[j], app.rotationAngle + 1), w)
  {
    FrameOnBuiltWith(app, names, pins, targets);
    var scene := FrameWith(app, pins).value.app.scene;
    forall j | 0 <= j < |pins|
      ensures Update(scene, w).children[targets[j]].world == Product(Placement(pins[j], app.rotationAngle + 1), w)
    {
      UpdateLeafChild(scene, targets[j], w);
    }
  }

  /** The application's frame, followed by `Update(w)`: all nine poses reach the cumulative transforms. */
  lemma FramePosesReachUpdate(app: App, w: Matrix)
    requires Built(app.scene)
    ensures UpdateSceneGraph(app).Success?
    ensures var s := Update(UpdateSceneGraph(app).value.app.scene, w);
      && s.world == app.scene.world
      && |s.children| == |NodeNames|
      && forall j :: 0 <= j < |Pins| ==>
           s.children[PinTarget(j)].world == Product(Placement(Pins[j], app.rotationAngle + 1), w)
  {
    AppLayout();
    FramePosesReachUpdateWith(app, NodeNames, Pins, PinTargets, w);
  }

  /** Runs `k` frames with a given pin table one after another, stopping at the first failed frame. */
  function RunFramesWith(app: App, pins: seq<Pin>, k: nat): (r: Result<App, string>)
    requires app.scene.Graph?
    ensures r.Success? ==> r.value.scene.Graph? && r.value.rotationAngle == app.rotationAngle + k
  {
    if k == 0 then Success(app)
    else
      match RunFramesWith(app, pins, k - 1)
      case Failure(e) => Failure(e)
      case Success(a) =>
        match FrameWith(a, pins)
        case Failure(e) => Failure(e)
        case Success(f) => Success(f.app)
  }

  /** Runs `k` of the application's frames one after another, stopping at the first failed frame. */
  function RunFrames(app: App, k: nat): (r: Result<App, string>)
    requires app.scene.Graph?
    ensures r.Success? ==> r.value.scene.Graph? && r.value.rotationAngle == app.rotationAngle + k
  {
    RunFramesWith(app, Pins, k)
  }

  /** Frames on a built graph keep it built and never fail. */
  lemma {:induction false} FramesOnBuiltNeverFail(a: App, names: seq<string>, pins: seq<Pin>, targets: seq<nat>, k: nat)
    requires BuiltWith(a.scene, names) && Layout(names, pins, targets)
    ensures RunFramesWith(a, pins, k).Success?
    ensures BuiltWith(RunFramesWith(a, pins, k).value.scene, names)
  {
    if k > 0 {
      FramesOnBuiltNeverFail(a, names, pins, targets, k - 1);
      var prev := RunFramesWith(a, pins, k - 1).value;
      assert FrameWith(prev, pins).Success? && BuiltWith(FrameWith(prev, pins).value.app.scene, names) by {
        FrameOnBuiltWith(prev, names, pins, targets);
      }
    }
  }

  /**
   * From an empty graph whose own name is none of the nine, building the scene
   * and then running any number of frames never dereferences a null `Find`
   * result, and the rotation counter equals the number of frames run.
   */
  lemma FramesAfterCreateNeverFail(app: App, firstId: nat, cubeOk: bool, k: nat)
    requires app.scene.Graph? && |app.scene.children| == 0 && app.scene.name !in NodeNames
    ensures RunFrames(CreateSceneGraph(app, firstId, cubeOk), k).Success?
    ensures Built(RunFrames(CreateSceneGraph(app, firstId, cubeOk), k).value.scene)
    ensures RunFrames(CreateSceneGraph(app, firstId, cubeOk), k).value.rotationAngle == k
  {
    var a := CreateSceneGraph(app, firstId, cubeOk);
    CreateBuildsScene(app, firstId, cubeOk);
    AppLayout();
    FramesOnBuiltNeverFail(a, NodeNames, Pins, PinTargets, k);
  }

  /** `CreateSceneGraph` on an empty graph not named like any of its nodes builds the expected shape. */
  lemma CreateBuildsScene(app: App, firstId: nat, cubeOk: bool)
    requires app.scene.Graph? && |app.scene.children| == 0 && app.scene.name !in NodeNames
    ensures Built(CreateSceneGraph(app, firstId, cubeOk).scene)
  {
    var r := CreateSceneGraph(app, firstId, cubeOk);
    forall k | 0 <= k < |NodeNames|
      ensures r.scene.children[k].name == NodeNames[k] && r.scene.children[k].Leaf?
    {
      assert r.scene.children[|app.scene.children| + k] == r.scene.children[k];
    }
  }
}
