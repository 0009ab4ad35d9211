/**
 * The textured cube node: its static vertex and index tables, its normal
 * pass, and the order of the steps of its initialisation.
 */
module TexturedCubeNode {
  import opened Vectors
  import opened Normals

  /** A vertex as the cube uploads it: position, normal and texture coordinates. */
  datatype Vertex = Vertex(position: Vec3, normal: Vec3, texture: Vec2)

  /** The 24 vertices, four per side, every normal zero until the normal pass runs. */
  const Vertices: seq<Vertex> := [
      Vertex(Vec3(-1.0, -1.0, 1.0), Zero, Vec2(0.0, 0.0)),  // side 1
      Vertex(Vec3(1.0, -1.0, 1.0), Zero, Vec2(0.0, 1.0)),
      Vertex(Vec3(-1.0, 1.0, 1.0), Zero, Vec2(1.0, 0.0)),
      Vertex(Vec3(1.0, 1.0, 1.0), Zero, Vec2(1.0, 1.0)),
      Vertex(Vec3(-1.0, -1.0, -1.0), Zero, Vec2(0.0, 0.0)),  // side 2
      Vertex(Vec3(-1.0, 1.0, -1.0), Zero, Vec2(0.0, 1.0)),
      Vertex(Vec3(1.0, -1.0, -1.0), Zero, Vec2(1.0, 0.0)),
      Vertex(Vec3(1.0, 1.0, -1.0), Zero, Vec2(1.0, 1.0)),
      Vertex(Vec3(-1.0, 1.0, -1.0), Zero, Vec2(0.0, 0.0)),  // side 3
      Vertex(Vec3(-1.0, 1.0, 1.0), Zero, Vec2(0.0, 1.0)),
      Vertex(Vec3(1.0, 1.0, -1.0), Zero, Vec2(1.0, 0.0)),
      Vertex(Vec3(1.0, 1.0, 1.0), Zero, Vec2(1.0, 1.0)),
      Vertex(Vec3(-1.0, -1.0, -1.0), Zero, Vec2(0.0, 0.0)),  // side 4
      Vertex(Vec3(1.0, -1.0, -1.0), Zero, Vec2(0.0, 1.0)),
      Vertex(Vec3(-1.0, -1.0, 1.0), Zero, Vec2(1.0, 0.0)),
      Vertex(Vec3(1.0, -1.0, 1.0), Zero, Vec2(1.0, 1.0)),
      Vertex(Vec3(1.0, -1.0, -1.0), Zero, Vec2(0.0, 0.0)),  // side 5
      Vertex(Vec3(1.0, 1.0, -1.0), Zero, Vec2(0.0, 1.0)),
      Vertex(Vec3(1.0, -1.0, 1.0), Zero, Vec2(1.0, 0.0)),
      Vertex(Vec3(1.0, 1.0, 1.0), Zero, Vec2(1.0, 1.0)),
      Vertex(Vec3(-1.0, -1.0, -1.0), Zero, Vec2(0.0, 0.0)),  // side 6
      Vertex(Vec3(-1.0, -1.0, 1.0), Zero, Vec2(0.0, 1.0)),
      Vertex(Vec3(-1.0, 1.0, -1.0), Zero, Vec2(1.0, 0.0)),
      Vertex(Vec3(-1.0, 1.0, 1.0), Zero, Vec2(1.0, 1.0))
    ]

  /** The 36 indices: two triangles per side, six sides. */
  const Indices: seq<nat> :=
    [0, 1, 2,       // side 1
     2, 1, 3] +
    [4, 5, 6,       // side 2
     6, 5, 7] +
    [8, 9, 10,      // side 3
     10, 9, 11] +
    [12, 13, 14,    // side 4
     14, 13, 15] +
    [16, 17, 18,    // side 5
     18, 17, 19] +
    [20, 21, 22,    // side 6
     22, 21, 23]

  /** One count per vertex, all zero. The source keeps them as floats; they only ever hold whole numbers. */
  const PolygonCount: seq<nat> := seq(24, k => 0)

  /** The corner pattern of every side `k`: triangles `4k, 4k+1, 4k+2` and `4k+2, 4k+1, 4k+3`. */
  const Shape: seq<nat> := [0, 1, 2, 2, 1, 3]

  /** How many corners of its side name each of the side's four vertices. */
  const SideMultiplicity: seq<nat> := [1, 2, 2, 1]

  /** The six indices of side `k`. */
  function Side(k: nat): (s: seq<nat>)
    ensures |s| == 6
  {
    [4 * k, 4 * k + 1, 4 * k + 2, 4 * k + 2, 4 * k + 1, 4 * k + 3]
  }

  /** The indices of the first `n` sides, in order. */
  function Sides(n: nat): (s: seq<nat>)
    ensures |s| == 6 * n
  {
    if n == 0 then [] else Sides(n - 1) + Side(n - 1)
  }

  /** The index table is the six sides, one after the other. */
  lemma IndicesAreSides()
    ensures Indices == Sides(6)
  {
    assert Sides(1) == [0, 1, 2, 2, 1, 3];
    assert Side(1) == [4, 5, 6, 6, 5, 7];
    assert Side(2) == [8, 9, 10, 10, 9, 11];
    assert Side(3) == [12, 13, 14, 14, 13, 15];
    assert Side(4) == [16, 17, 18, 18, 17, 19];
    assert Side(5) == [20, 21, 22, 22, 21, 23];
  }

  /** Entry `j` of side `k` is `4k` plus the side's corner pattern. */
  lemma {:induction false} SidesAt(n: nat, k: nat, j: nat)
    requires k < n && j < 6
    ensures Sides(n)[6 * k + j] == 4 * k + Shape[j]
  {
    if k < n - 1 {
      SidesAt(n - 1, k, j);
    } else {
      assert Sides(n)[6 * k + j] == Side(k)[j];
    }
  }

  /** How often side `k` names `v`: the side pattern on its own four vertices, nothing elsewhere. */
  lemma SideCount(k: nat, v: nat)
    ensures multiset(Side(k))[v] == if 4 * k <= v < 4 * k + 4 then SideMultiplicity[v - 4 * k] else 0
  {
  }

  /** How often the whole table names vertex `v`, by its place in its side: once, twice, twice, once. */
  function Multiplicity(v: nat): (m: nat)
    ensures 1 <= m <= 2
  {
    SideMultiplicity[v % 4]
  }

  /** How often the first `n` sides name `v`: the side pattern for the vertices of those sides, zero beyond. */
  lemma {:induction false} SidesCount(n: nat, v: nat)
    ensures multiset(Sides(n))[v] == if v < 4 * n then Multiplicity(v) else 0
  {
    if n > 0 {
      var m := n - 1;
      SidesCount(m, v);
      SideCount(m, v);
      assert Sides(n) == Sides(m) + Side(m);
      AddSide(v, m, multiset(Sides(m))[v], multiset(Side(m))[v]);
    }
  }

  /** Adding side `m` to the count of the sides before it. */
  lemma AddSide(v: nat, m: nat, before: nat, side: nat)
    requires before == if v < 4 * m then Multiplicity(v) else 0
    requires side == if 4 * m <= v < 4 * m + 4 then SideMultiplicity[v - 4 * m] else 0
    ensures before + side == if v < 4 * (m + 1) then Multiplicity(v) else 0
  {
    if 4 * m <= v < 4 * m + 4 {
      WithinBlock(v, m);
    }
  }

  /** Within the block of side `q`, a vertex's place in its side is its remainder by four. */
  lemma WithinBlock(v: nat, q: nat)
    requires 4 * q <= v < 4 * q + 4
    ensures Multiplicity(v) == SideMultiplicity[v - 4 * q]
  {
    assert v % 4 == v - 4 * q;
  }

  /** Entry `j` of side `k` of the table. */
  lemma IndexEntry(k: nat, j: nat)
    requires k < 6 && j < 6
    ensures Indices[6 * k + j] == 4 * k + Shape[j]
  {
    IndicesAreSides();
    SidesAt(6, k, j);
  }

  /** Position `i` of the table is entry `i % 6` of side `i / 6`. */
  lemma SideOfIndex(i: nat) returns (k: nat, j: nat)
    requires i < 36
    ensures k == i / 6 && j < 6 && i == 6 * k + j && k < 6
  {
    k, j := i / 6, i % 6;
  }

  /** Triangle `t` is triangle `h` of side `k`. */
  lemma SideOfTriangle(t: nat) returns (k: nat, h: nat)
    requires t < 12
    ensures k < 6 && h < 2 && 3 * t == 6 * k + 3 * h
  {
    k, h := t / 2, t % 2;
  }

  /** 24 vertices, 36 indices (12 triangles), one zero count per vertex, every starting normal zero. */
  lemma TableShapes()
    ensures |Vertices| == 24 && |Indices| == 36 && |Indices| / 3 == 12
    ensures |PolygonCount| == |Vertices|
    ensures forall v :: 0 <= v < |PolygonCount| ==> PolygonCount[v] == 0
    ensures forall v :: 0 <= v < |Vertices| ==> Vertices[v].normal == Vec3(0.0, 0.0, 0.0)
  {
  }

  /** Every index names one of the 24 vertices, and the list holds whole triangles. */
  lemma IndicesWellFormed()
    ensures WellFormed(24, Indices)
  {
    IndicesAreSides();
    forall i | 0 <= i < |Indices|
      ensures Indices[i] < 24
    {
      var k, j := SideOfIndex(i);
      IndexEntry(k, j);
    }
  }

  /** Each side's two triangles use only that side's four vertices `4k` to `4k + 3`. */
  lemma TrianglesStayOnTheirSide()
    ensures forall i :: 0 <= i < |Indices| ==> 4 * (i / 6) <= Indices[i] < 4 * (i / 6) + 4
  {
    IndicesAreSides();
    forall i | 0 <= i < |Indices|
      ensures 4 * (i / 6) <= Indices[i] < 4 * (i / 6) + 4
    {
      var k, j := SideOfIndex(i);
      IndexEntry(k, j);
    }
  }

  /** No triangle repeats a corner. */
  lemma TrianglesHaveDistinctCorners()
    ensures forall t :: 0 <= t < |Indices| / 3 ==>
              Indices[3 * t] != Indices[3 * t + 1] && Indices[3 * t] != Indices[3 * t + 2]
              && Indices[3 * t + 1] != Indices[3 * t + 2]
  {
    IndicesAreSides();
    forall t | 0 <= t < 12
      ensures Indices[3 * t] != Indices[3 * t + 1] && Indices[3 * t] != Indices[3 * t + 2]
              && Indices[3 * t + 1] != Indices[3 * t + 2]
    {
      var k, h := SideOfTriangle(t);
      IndexEntry(k, 3 * h);
      IndexEntry(k, 3 * h + 1);
      IndexEntry(k, 3 * h + 2);
    }
  }

  /**
   * The side pattern: on every side `k`, vertices `4k` and `4k + 3` are named
   * once and `4k + 1` and `4k + 2` twice. So every vertex is named at least once.
   */
  lemma VertexOccurrences()
    ensures forall v :: 0 <= v < 24 ==> multiset(Indices)[v] == Multiplicity(v)
    ensures forall v :: 0 <= v < 24 ==> v in Indices
  {
    IndicesAreSides();
    forall v | 0 <= v < 24
      ensures multiset(Indices)[v] == Multiplicity(v)
      ensures v in Indices
    {
      SidesCount(6, v);
      assert v in multiset(Indices);
    }
  }

  /** The positions of the vertex table. */
  function Positions(vs: seq<Vertex>): seq<Vec3>
  {
    seq(|vs|, k requires 0 <= k < |vs| => vs[k].position)
  }

  /** The normals of the vertex table. */
  function NormalsOf(vs: seq<Vertex>): seq<Vec3>
  {
    seq(|vs|, k requires 0 <= k < |vs| => vs[k].normal)
  }

  /** The sum of the face normals of the cube's triangles at vertex `v`, once per corner naming `v`. */
  function CubeIncidentSum(v: nat): Vec3
  {
    IndicesWellFormed();
    TableShapes();
    IncidentSum(Positions(Vertices), Indices, v)
  }

  /**
   * The cube's normal pass over any vertex table with an index list and
   * starting counts under which every vertex ends with a positive count.
   * Positions and texture coordinates are kept; each count grows by the
   * number of times the index list names the vertex, and each new normal
   * times its count is the starting normal plus the face normals of the
   * vertex's triangles.
   */
  method NormalPass(table: seq<Vertex>, indices: seq<nat>, counts0: seq<nat>)
    returns (vertices: seq<Vertex>, counts: seq<nat>)
    requires WellFormed(|table|, indices) && |counts0| == |table|
    requires forall v :: 0 <= v < |table| ==> counts0[v] + multiset(indices)[v] > 0
    ensures |vertices| == |table| && |counts| == |table|
    ensures forall v :: 0 <= v < |counts| ==> counts[v] == counts0[v] + multiset(indices)[v]
    ensures forall v :: 0 <= v < |vertices| ==>
              vertices[v].position == table[v].position && vertices[v].texture == table[v].texture
    ensures forall v :: 0 <= v < |vertices| ==>
              ScaleBy(vertices[v].normal, counts[v] as real)
              == Add(table[v].normal, IncidentSum(Positions(table), indices, v))
  {
    var pass;
    pass, counts := VertexNormals(Positions(table), NormalsOf(table), counts0, indices);
    var divided := pass.value;
    vertices := seq(|table|, k requires 0 <= k < |table| => table[k].(normal := divided[k]));
  }

  /**
   * The cube's `calculateNormals`, run on the tables as declared. It cannot
   * fail: every vertex is named by some triangle, so no count is zero when the
   * division pass reaches it. Positions and texture coordinates are kept;
   * each count is the number of times the index table names the vertex, and
   * each normal times its count is the sum of its triangles' face normals.
   */
  method CalculateNormals() returns (vertices: seq<Vertex>, counts: seq<nat>)
    ensures |vertices| == |Vertices| && |counts| == |Vertices|
    ensures forall v :: 0 <= v < |counts| ==> counts[v] == multiset(Indices)[v] && counts[v] > 0
    ensures forall v :: 0 <= v < |vertices| ==>
              vertices[v].position == Vertices[v].position && vertices[v].texture == Vertices[v].texture
    ensures forall v :: 0 <= v < |vertices| ==> ScaleBy(vertices[v].normal, counts[v] as real) == CubeIncidentSum(v)
  {
    TableShapes();
    IndicesWellFormed();
    VertexOccurrences();
    vertices, counts := NormalPass(Vertices, Indices, PolygonCount);
    forall v | 0 <= v < |counts|
      ensures counts[v] == multiset(Indices)[v] && counts[v] > 0
    {
      assert PolygonCount[v] == 0;
      assert multiset(Indices)[v] == Multiplicity(v);
    }
    forall v | 0 <= v < |vertices|
      ensures ScaleBy(vertices[v].normal, counts[v] as real) == CubeIncidentSum(v)
    {
      AddLaws(IncidentSum(Positions(Vertices), Indices, v), Zero, Zero);
    }
  }

  /** The steps of the cube's initialisation that the model distinguishes. */
  datatype Action =
    | GatherFrameworkState
    | ComputeNormals
    | BuildGeometryBuffers(uploaded: seq<Vertex>)
    | BuildShaders
    | BuildVertexLayout
    | BuildConstantBuffer
    | BuildRasteriserState
    | BuildTexture

  /**
   * The cube's `Initialise`: it gathers the framework's state, computes the
   * normals, then builds the geometry buffers from the vertex table as it is
   * at that moment, so the uploaded vertices carry the computed normals; then
   * the remaining resources. It reports success unconditionally.
   */
  method Initialise() returns (ok: bool, trace: seq<Action>)
    ensures ok
    ensures |trace| == 8 && trace[0] == GatherFrameworkState && trace[1] == ComputeNormals
    ensures trace[2].BuildGeometryBuffers?
    ensures trace[3..] == [BuildShaders, BuildVertexLayout, BuildConstantBuffer, BuildRasteriserState, BuildTexture]
    ensures |trace[2].uploaded| == |Vertices|
    ensures forall v :: 0 <= v < |Vertices| ==>
              ScaleBy(trace[2].uploaded[v].normal, multiset(Indices)[v] as real) == CubeIncidentSum(v)
  {
    trace := [GatherFrameworkState, ComputeNormals];
    var vertices, counts := CalculateNormals();
    trace := trace + [BuildGeometryBuffers(vertices)];
    trace := trace + [BuildShaders, BuildVertexLayout, BuildConstantBuffer, BuildRasteriserState, BuildTexture];
    ok := true;
  }
}
