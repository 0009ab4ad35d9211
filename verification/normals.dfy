/**
 * Per-vertex normals of an indexed triangle list, as both mesh nodes compute
 * them: every triangle adds its face normal to each of its three corners and
 * bumps each corner's count, then every vertex normal is divided by its count.
 * Arithmetic is exact; the final normalisation to unit length is not modelled.
 */
module Normals {
  import opened Wrappers
  import opened Vectors

  /** Whole triangles, and every corner names one of `n` vertices. */
  predicate WellFormed(n: nat, indices: seq<nat>)
  {
    |indices| % 3 == 0 && forall i :: 0 <= i < |indices| ==> indices[i] < n
  }

  /**
   * Every access the accumulation loop makes is in bounds: for `i = 0, 3, 6, ...`
   * below the index count it reads `indices[i]`, `indices[i + 1]` and
   * `indices[i + 2]` and uses each as a vertex position.
   */
  predicate LoopAccessesInBounds(n: nat, indices: seq<nat>)
  {
    forall i :: 0 <= i < |indices| && i % 3 == 0 ==>
      i + 2 < |indices| && indices[i] < n && indices[i + 1] < n && indices[i + 2] < n
  }

  /** The loop stays in bounds exactly when the index list is well formed. */
  lemma InBoundsIffWellFormed(n: nat, indices: seq<nat>)
    ensures LoopAccessesInBounds(n, indices) <==> WellFormed(n, indices)
  {
    if LoopAccessesInBounds(n, indices) {
      var last := |indices| - |indices| % 3;
      assert last % 3 == 0;
      assert last < |indices| ==> last + 2 < |indices|;
      forall j | 0 <= j < |indices|
        ensures indices[j] < n
      {
        var start := j - j % 3;
        assert start % 3 == 0 && 0 <= start < |indices|;
      }
    }
  }

  /** What a triangle with face normal `face` adds at vertex `v` through one of its corners. */
  function Incident(face: Vec3, corner: nat, v: nat): Vec3
  {
    if corner == v then face else Zero
  }

  /** What one triangle `a b c` with face normal `face` adds at vertex `v`: the face normal once per corner naming `v`. */
  function Contribution(face: Vec3, a: nat, b: nat, c: nat, v: nat): Vec3
  {
    Add(Add(Incident(face, a, v), Incident(face, b, v)), Incident(face, c, v))
  }

  /**
   * The sum, over the triangles of `xs`, of the face normals of the triangles
   * listing `v`, each counted once per corner at which it lists `v`.
   */
  function IncidentSum(positions: seq<Vec3>, xs: seq<nat>, v: nat): Vec3
    requires WellFormed(|positions|, xs)
  {
    if |xs| == 0 then Zero
    else
      var face := FaceNormal(positions[xs[0]], positions[xs[1]], positions[xs[2]]);
      Add(Contribution(face, xs[0], xs[1], xs[2], v), IncidentSum(positions, xs[3..], v))
  }

  /** A vertex that no triangle lists receives nothing. */
  lemma {:induction false} UnlistedVertexGetsZero(positions: seq<Vec3>, xs: seq<nat>, v: nat)
    requires WellFormed(|positions|, xs) && v !in xs
    ensures IncidentSum(positions, xs, v) == Zero
  {
    if |xs| > 0 {
      assert xs[0] != v && xs[1] != v && xs[2] != v;
      assert v !in xs[3..];
      UnlistedVertexGetsZero(positions, xs[3..], v);
      AddLaws(Zero, Zero, Zero);
    }
  }

  /** Adding `face` at position `k` adds it at `v` exactly when `v` is `k`. */
  lemma AddAtCorner(normals: seq<Vec3>, k: nat, face: Vec3, v: nat)
    requires k < |normals| && v < |normals|
    ensures normals[k := Add(normals[k], face)][v] == Add(normals[v], Incident(face, k, v))
  {
    if v != k {
      AddLaws(normals[v], Zero, Zero);
    }
  }

  /** The three corner updates of one triangle: each corner's normal grows by the face normal. */
  function AddToCorners(normals: seq<Vec3>, a: nat, b: nat, c: nat, face: Vec3): (r: seq<Vec3>)
    requires a < |normals| && b < |normals| && c < |normals|
    ensures |r| == |normals|
  {
    var n1 := normals[a := Add(normals[a], face)];
    var n2 := n1[b := Add(n1[b], face)];
    n2[c := Add(n2[c], face)]
  }

  /**
   * After the corner updates, every vertex's normal has grown by the face
   * normal once per corner that names it; other vertices keep theirs.
   */
  lemma AddToCornersAt(normals: seq<Vec3>, a: nat, b: nat, c: nat, face: Vec3, v: nat)
    requires a < |normals| && b < |normals| && c < |normals| && v < |normals|
    ensures AddToCorners(normals, a, b, c, face)[v] == Add(normals[v], Contribution(face, a, b, c, v))
  {
    var n1 := normals[a := Add(normals[a], face)];
    var n2 := n1[b := Add(n1[b], face)];
    AddAtCorner(normals, a, face, v);
    AddAtCorner(n1, b, face, v);
    AddAtCorner(n2, c, face, v);
    var ia, ib, ic := Incident(face, a, v), Incident(face, b, v), Incident(face, c, v);
    AddLaws(normals[v], ia, ib);
    AddLaws(normals[v], Add(ia, ib), ic);
  }

  /** The count updates of one triangle: each corner's count goes up by one. */
  function CountCorners(counts: seq<nat>, a: nat, b: nat, c: nat): (r: seq<nat>)
    requires a < |counts| && b < |counts| && c < |counts|
    ensures |r| == |counts|
  {
    var c1 := counts[a := counts[a] + 1];
    var c2 := c1[b := c1[b] + 1];
    c2[c := c2[c] + 1]
  }

  /** After the count updates, every vertex's count has grown by the number of corners naming it. */
  lemma CountCornersAt(counts: seq<nat>, a: nat, b: nat, c: nat, v: nat)
    requires a < |counts| && b < |counts| && c < |counts| && v < |counts|
    ensures CountCorners(counts, a, b, c)[v] == counts[v] + multiset([a, b, c])[v]
  {
  }

  /** The per-vertex normals and counts the accumulation loop carries. */
  datatype Accumulation = Accumulation(normals: seq<Vec3>, counts: seq<nat>)

  /** Whether `acc` has one normal and one count per vertex position. */
  predicate Sized(positions: seq<Vec3>, acc: Accumulation)
  {
    |acc.normals| == |positions| && |acc.counts| == |positions|
  }

  /** One turn of the accumulation loop: triangle `a b c` adds its face normal and its count at each of its corners. */
  function Step(positions: seq<Vec3>, acc: Accumulation, a: nat, b: nat, c: nat): (r: Accumulation)
    requires Sized(positions, acc) && a < |positions| && b < |positions| && c < |positions|
    ensures Sized(positions, r)
  {
    var face := FaceNormal(positions[a], positions[b], positions[c]);
    Accumulation(AddToCorners(acc.normals, a, b, c, face), CountCorners(acc.counts, a, b, c))
  }

  /** A triangle touches only its own corners: every other vertex keeps its normal and its count. */
  lemma StepLeavesOtherVertices(positions: seq<Vec3>, acc: Accumulation, a: nat, b: nat, c: nat, v: nat)
    requires Sized(positions, acc) && a < |positions| && b < |positions| && c < |positions| && v < |positions|
    requires v != a && v != b && v != c
    ensures Step(positions, acc, a, b, c).normals[v] == acc.normals[v]
    ensures Step(positions, acc, a, b, c).counts[v] == acc.counts[v]
  {
    var face := FaceNormal(positions[a], positions[b], positions[c]);
    AddToCornersAt(acc.normals, a, b, c, face, v);
    AddLaws(acc.normals[v], Zero, Zero);
    CountCornersAt(acc.counts, a, b, c, v);
  }

  /** The state after the triangles of `xs`, one triangle at a time from `acc`. */
  function Accumulate(positions: seq<Vec3>, acc: Accumulation, xs: seq<nat>): (r: Accumulation)
    requires Sized(positions, acc) && WellFormed(|positions|, xs)
    ensures Sized(positions, r)
    decreases |xs|
  {
    if |xs| == 0 then acc
    else Accumulate(positions, Step(positions, acc, xs[0], xs[1], xs[2]), xs[3..])
  }

  /** After the triangles of `xs` the count of `v` has grown by the number of times `xs` names it. */
  lemma {:induction false} AccumulatedCount(positions: seq<Vec3>, acc: Accumulation, xs: seq<nat>, v: nat)
    requires Sized(positions, acc) && WellFormed(|positions|, xs) && v < |positions|
    ensures Accumulate(positions, acc, xs).counts[v] == acc.counts[v] + multiset(xs)[v]
    decreases |xs|
  {
    if |xs| > 0 {
      var next := Step(positions, acc, xs[0], xs[1], xs[2]);
      AccumulatedCount(positions, next, xs[3..], v);
      CountCornersAt(acc.counts, xs[0], xs[1], xs[2], v);
      assert multiset(xs) == multiset([xs[0], xs[1], xs[2]]) + multiset(xs[3..]) by {
        assert xs == [xs[0], xs[1], xs[2]] + xs[3..];
      }
    }
  }

  /** After the triangles of `xs` the normal of `v` has grown by the sum of their face normals at `v`. */
  lemma {:induction false} AccumulatedNormal(positions: seq<Vec3>, acc: Accumulation, xs: seq<nat>, v: nat)
    requires Sized(positions, acc) && WellFormed(|positions|, xs) && v < |positions|
    ensures Accumulate(positions, acc, xs).normals[v] == Add(acc.normals[v], IncidentSum(positions, xs, v))
    decreases |xs|
  {
    if |xs| == 0 {
      AddLaws(acc.normals[v], Zero, Zero);
    } else {
      var face := FaceNormal(positions[xs[0]], positions[xs[1]], positions[xs[2]]);
      var next := Step(positions, acc, xs[0], xs[1], xs[2]);
      AccumulatedNormal(positions, next, xs[3..], v);
      AddToCornersAt(acc.normals, xs[0], xs[1], xs[2], face, v);
      AddLaws(acc.normals[v], Contribution(face, xs[0], xs[1], xs[2], v), IncidentSum(positions, xs[3..], v));
    }
  }

  /** The loop's next triangle starts at `i`: it lies in range, and accumulating from `i` is that triangle's step and then the rest. */
  lemma NextTriangle(positions: seq<Vec3>, acc: Accumulation, indices: seq<nat>, i: nat)
    requires Sized(positions, acc) && i < |indices| && WellFormed(|positions|, indices[i..])
    ensures i + 3 <= |indices|
    ensures indices[i] < |positions| && indices[i + 1] < |positions| && indices[i + 2] < |positions|
    ensures WellFormed(|positions|, indices[i + 3..])
    ensures Accumulate(positions, acc, indices[i..])
         == Accumulate(positions, Step(positions, acc, indices[i], indices[i + 1], indices[i + 2]), indices[i + 3..])
  {
    var xs := indices[i..];
    assert xs[0] == indices[i] && xs[1] == indices[i + 1] && xs[2] == indices[i + 2];
    assert xs[3..] == indices[i + 3..];
  }

  /**
   * The accumulation loop. Starting from `normals0` and `counts0`, each vertex
   * ends with its count raised by the number of times the list names it, and
   * its normal raised by the sum of the face normals of the triangles naming it.
   */
  method AccumulateFaceNormals(positions: seq<Vec3>, normals0: seq<Vec3>, counts0: seq<nat>, indices: seq<nat>)
    returns (normals: seq<Vec3>, counts: seq<nat>)
    requires |normals0| == |positions| && |counts0| == |positions|
    requires WellFormed(|positions|, indices)
    ensures |normals| == |positions| && |counts| == |positions|
    ensures forall v :: 0 <= v < |positions| ==> counts[v] == counts0[v] + multiset(indices)[v]
    ensures forall v :: 0 <= v < |positions| ==> normals[v] == Add(normals0[v], IncidentSum(positions, indices, v))
  {
    var start := Accumulation(normals0, counts0);
    var acc := start;
    var i := 0;
    assert indices[0..] == indices;
    while i < |indices|
      invariant 0 <= i <= |indices| && Sized(positions, acc)
      invariant WellFormed(|positions|, indices[i..])
      invariant Accumulate(positions, acc, indices[i..]) == Accumulate(positions, start, indices)
    {
      NextTriangle(positions, acc, indices, i);
      acc := Step(positions, acc, indices[i], indices[i + 1], indices[i + 2]);
      i := i + 3;
    }
    forall v | 0 <= v < |positions|
      ensures acc.counts[v] == counts0[v] + multiset(indices)[v]
      ensures acc.normals[v] == Add(normals0[v], IncidentSum(positions, indices, v))
    {
      AccumulatedCount(positions, start, indices, v);
      AccumulatedNormal(positions, start, indices, v);
    }
    normals, counts := acc.normals, acc.counts;
  }

  /** `n / count`, component by component. */
  function DivideBy(n: Vec3, count: nat): (r: Vec3)
    requires count > 0
    ensures ScaleBy(r, count as real) == n
  {
    Vec3(n.x / count as real, n.y / count as real, n.z / count as real)
  }

  /**
   * The division pass. A zero count would divide a float by zero and leave a
   * non-finite normal; the model reports the first such vertex instead.
   */
  method AverageNormals(normals: seq<Vec3>, counts: seq<nat>) returns (r: Result<seq<Vec3>, nat>)
    requires |counts| == |normals|
    ensures r.Success? <==> forall v :: 0 <= v < |counts| ==> counts[v] > 0
    ensures r.Success? ==> |r.value| == |normals|
    ensures r.Success? ==> forall v :: 0 <= v < |normals| ==> ScaleBy(r.value[v], counts[v] as real) == normals[v]
    ensures r.Failure? ==> r.error < |counts| && counts[r.error] == 0
    ensures r.Failure? ==> forall v :: 0 <= v < r.error ==> counts[v] > 0
  {
    var averaged: seq<Vec3> := [];
    var i := 0;
    while i < |normals|
      invariant 0 <= i <= |normals| && |averaged| == i
      invariant forall v :: 0 <= v < i ==> counts[v] > 0 && ScaleBy(averaged[v], counts[v] as real) == normals[v]
    {
      if counts[i] == 0 {
        return Failure(i);
      }
      averaged := averaged + [DivideBy(normals[i], counts[i])];
      i := i + 1;
    }
    return Success(averaged);
  }

  /**
   * The whole normal pass both nodes run: accumulate, then divide. On success
   * every new normal times its count is the starting normal plus the face
   * normals of the vertex's triangles; it fails exactly when some vertex ends
   * with a zero count, and then names the first one.
   */
  method VertexNormals(positions: seq<Vec3>, normals0: seq<Vec3>, counts0: seq<nat>, indices: seq<nat>)
    returns (r: Result<seq<Vec3>, nat>, counts: seq<nat>)
    requires |normals0| == |positions| && |counts0| == |positions|
    requires WellFormed(|positions|, indices)
    ensures |counts| == |positions|
    ensures forall v :: 0 <= v < |positions| ==> counts[v] == counts0[v] + multiset(indices)[v]
    ensures r.Success? <==> forall v :: 0 <= v < |counts| ==> counts[v] > 0
    ensures r.Success? ==> |r.value| == |positions|
    ensures r.Success? ==> forall v :: 0 <= v < |positions| ==>
              ScaleBy(r.value[v], counts[v] as real) == Add(normals0[v], IncidentSum(positions, indices, v))
    ensures r.Failure? ==> r.error < |counts| && counts[r.error] == 0
    ensures r.Failure? ==> forall v :: 0 <= v < r.error ==> counts[v] > 0
  {
    var normals;
    normals, counts := AccumulateFaceNormals(positions, normals0, counts0, indices);
    r := AverageNormals(normals, counts);
  }
}
