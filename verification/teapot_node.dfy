/**
 * The teapot node's normal pass. The teapot's geometry arrives as one flat
 * list of coordinates, three per vertex, and an index list of triangles. The
 * pass unpacks the coordinates into vertices with zero normals, accumulates
 * the face normals and incidence counts, and divides each normal by its count.
 */
module TeapotNode {
  import opened Wrappers
  import opened Vectors
  import opened Normals

  datatype Vertex = Vertex(position: Vec3, normal: Vec3)

  /** The vertex the coordinates `floats[3k]`, `floats[3k + 1]`, `floats[3k + 2]` describe, with a zero normal. */
  function VertexAt(floats: seq<real>, k: nat): Vertex
    requires 3 * k + 2 < |floats|
  {
    Vertex(Vec3(floats[3 * k], floats[3 * k + 1], floats[3 * k + 2]), Zero)
  }

  /** The unpacking loop: one vertex per three coordinates, in order. */
  function Unpack(floats: seq<real>): (vs: seq<Vertex>)
    requires |floats| % 3 == 0
    ensures |vs| == |floats| / 3
  {
    if |floats| == 0 then []
    else [Vertex(Vec3(floats[0], floats[1], floats[2]), Zero)] + Unpack(floats[3..])
  }

  /** Vertex `k` takes its position from coordinates `3k` to `3k + 2` and starts with a zero normal. */
  lemma {:induction false} UnpackAt(floats: seq<real>, k: nat)
    requires |floats| % 3 == 0 && k < |floats| / 3
    ensures Unpack(floats)[k] == VertexAt(floats, k)
  {
    if k > 0 {
      UnpackAt(floats[3..], k - 1);
    }
  }

  function PositionsOf(vs: seq<Vertex>): (ps: seq<Vec3>)
    ensures |ps| == |vs|
    ensures forall k :: 0 <= k < |vs| ==> ps[k] == vs[k].position
  {
    if |vs| == 0 then [] else [vs[0].position] + PositionsOf(vs[1..])
  }

  /** Flattening positions back into coordinates, three per vertex: the inverse of unpacking. */
  function Flatten(ps: seq<Vec3>): (floats: seq<real>)
    ensures |floats| == 3 * |ps|
  {
    if |ps| == 0 then [] else [ps[0].x, ps[0].y, ps[0].z] + Flatten(ps[1..])
  }

  lemma PositionsCons(v: Vertex, vs: seq<Vertex>)
    ensures PositionsOf([v] + vs) == [v.position] + PositionsOf(vs)
  {
    assert ([v] + vs)[1..] == vs;
  }

  lemma FlattenCons(p: Vec3, ps: seq<Vec3>)
    ensures Flatten([p] + ps) == [p.x, p.y, p.z] + Flatten(ps)
  {
    assert ([p] + ps)[1..] == ps;
  }

  /** Unpacking loses no coordinate: flattening the unpacked positions gives back the input. */
  lemma {:induction false} FlattenUnpack(floats: seq<real>)
    requires |floats| % 3 == 0
    ensures Flatten(PositionsOf(Unpack(floats))) == floats
  {
    if |floats| > 0 {
      FlattenUnpack(floats[3..]);
      var v := Vertex(Vec3(floats[0], floats[1], floats[2]), Zero);
      var rest := Unpack(floats[3..]);
      PositionsCons(v, rest);
      FlattenCons(v.position, PositionsOf(rest));
      assert floats == [floats[0], floats[1], floats[2]] + floats[3..];
    }
  }

  /** Unpacking flattened positions gives back those positions, with zero normals. */
  lemma {:induction false} UnpackFlatten(ps: seq<Vec3>)
    ensures PositionsOf(Unpack(Flatten(ps))) == ps
    ensures forall k :: 0 <= k < |ps| ==> Unpack(Flatten(ps))[k].normal == Zero
  {
    if |ps| > 0 {
      UnpackFlatten(ps[1..]);
      var fs := Flatten(ps);
      assert fs[3..] == Flatten(ps[1..]);
      var vs := Unpack(fs);
      assert vs[1..] == Unpack(Flatten(ps[1..]));
      assert PositionsOf(vs) == [vs[0].position] + PositionsOf(vs[1..]);
    }
  }

  /**
   * The teapot's `calculateNormals`. The counts are the node's global count
   * array, which this pass raises but never resets: they arrive as `counts0`
   * and leave as `counts`. A vertex whose count is still zero when the division
   * pass reaches it makes the result a `Failure` naming the first such vertex.
   */
  method CalculateNormals(floats: seq<real>, indices: seq<nat>, counts0: seq<nat>)
    returns (r: Result<seq<Vertex>, nat>, counts: seq<nat>)
    requires |floats| % 3 == 0 && |counts0| == |floats| / 3
    requires WellFormed(|floats| / 3, indices)
    ensures |counts| == |counts0|
    ensures forall v :: 0 <= v < |counts| ==> counts[v] == counts0[v] + multiset(indices)[v]
    ensures r.Success? <==> forall v :: 0 <= v < |counts| ==> counts[v] > 0
    ensures (forall v :: 0 <= v < |counts0| ==> counts0[v] == 0) ==>
              (r.Success? <==> forall v :: 0 <= v < |counts| ==> v in indices)
    ensures r.Success? ==> |r.value| == |floats| / 3
    ensures r.Success? ==> forall v :: 0 <= v < |r.value| ==> r.value[v].position == VertexAt(floats, v).position
    ensures r.Success? ==> forall v :: 0 <= v < |r.value| ==>
              ScaleBy(r.value[v].normal, counts[v] as real) == IncidentSum(PositionsOf(Unpack(floats)), indices, v)
    ensures r.Failure? ==> r.error < |counts| && counts[r.error] == 0
    ensures r.Failure? ==> forall v :: 0 <= v < r.error ==> counts[v] > 0
  {
    var vertices := Unpack(floats);
    var positions := PositionsOf(vertices);
    var normals0 := seq(|vertices|, k requires 0 <= k < |vertices| => Zero);
    var pass;
    pass, counts := VertexNormals(positions, normals0, counts0, indices);
    RaisedIffListed(indices, counts0, counts);
    if pass.Failure? {
      return Failure(pass.error), counts;
    }
    forall v | 0 <= v < |vertices|
      ensures vertices[v].position == VertexAt(floats, v).position
      ensures Add(normals0[v], IncidentSum(positions, indices, v)) == IncidentSum(positions, indices, v)
    {
      UnpackAt(floats, v);
      AddLaws(IncidentSum(positions, indices, v), Zero, Zero);
    }
    var result := seq(|vertices|, k requires 0 <= k < |vertices| => Vertex(positions[k], pass.value[k]));
    return Success(result), counts;
  }

  /** A count rises above its starting value exactly when the index list names the vertex. */
  lemma RaisedIffListed(indices: seq<nat>, counts0: seq<nat>, counts: seq<nat>)
    requires |counts| == |counts0|
    requires forall v :: 0 <= v < |counts| ==> counts[v] == counts0[v] + multiset(indices)[v]
    ensures forall v :: 0 <= v < |counts| ==> (counts[v] > counts0[v] <==> v in indices)
  {
    forall v | 0 <= v < |counts|
      ensures counts[v] > counts0[v] <==> v in indices
    {
      assert v in indices <==> v in multiset(indices);
    }
  }
}
