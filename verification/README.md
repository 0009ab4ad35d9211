# Scene graph and vertex normals of the DirectX drawing demo

This project models the two pieces of logic in the DirectX drawing demo that are
more than Direct3D plumbing, and proves properties of them in Dafny.

**The composite scene graph and the driver that uses it.**
- A graph holds an ordered list of child nodes.
- It fans `Initialise`, `Update`, `Render` and `Shutdown` out to the children in insertion order. `Initialise` stops at the first child that fails.
- `Find` looks a node up by name. The first match wins, and a match inside a child's subtree returns that direct child.
- `Remove` forwards the call to the direct children whose identity matches the target.
- The application driver builds a flat graph of nine named leaves. Every frame it advances a rotation counter, sets the graph's own transform, then looks each leaf up by name and sets that leaf's own transform.

**The per-vertex normal pass of the teapot and textured-cube nodes.**
- Each triangle's face normal is `(p1 - p2) x (p1 - p3)`.
- The face normal is added at each of the triangle's three corners, and each corner's count goes up by one.
- Each vertex normal is then divided by its count.
- The teapot first unpacks a flat list of coordinates into vertices. The cube runs the pass over its static 24-vertex, 36-index tables.

Modules:
- `Wrappers`: `Option` and `Result`.
- `Transforms`: matrices as symbolic terms.
- `SceneGraph`: the node tree and its operations.
- `DirectXApp`: the driver's scene construction and per-frame protocol.
- `Vectors`: exact real vectors and the face normal.
- `Normals`: the accumulation and division passes both mesh nodes share.
- `TeapotNode`: unpacking and the teapot's pass.
- `TexturedCubeNode`: the cube's tables, its pass and its initialisation order.

Modelling choices:
- Node identity, which is `shared_ptr` equality in the program, is a numeric `id`.
- Every node has two transforms: `local`, its own placement, which `SetWorldTransform` sets; and `world`, the cumulative transform that `Update` recomputes and a leaf's `Render` reads.
- A pointer returned by `Find` is the place where the search stopped: the node itself or a child index. The caller can then change the node it found.
- A null `Find` result that the driver would dereference becomes `Failure(name)`.
- `Remove` is modelled as written. The comment at SceneGraph.cpp:53 says the matching child is removed from the array, but the loop only forwards the call and erases nothing, so a removed node can still be found (see Findings).
- The graph's `Update` hands its argument to every child unchanged (SceneGraph.cpp:17-24), and the model does the same.

## Model

| member | source | states |
|---|---|---|
| SceneGraph.Add | SceneGraph.cpp:45-49 | The new node becomes the last child; the earlier children keep their order and the graph keeps its identity, name and transforms. |
| SceneGraph.Locate | SceneGraph.cpp:63-81 | The graph's own name matches before any child is consulted; a hit at a child names an existing child position. |
| SceneGraph.FirstHit | SceneGraph.cpp:72-78 | The child chosen is the first, in insertion order, whose search succeeds; every earlier child's search fails, and no hit means every child's search fails. |
| SceneGraph.Find | SceneGraph.cpp:63-81 | A node whose own name matches returns itself; a graph otherwise returns one of its direct children or nothing; a leaf with another name returns nothing. |
| SceneGraph.FindSucceedsIffOccurs | SceneGraph.cpp:63-81 | `Find` succeeds exactly when the name occurs somewhere in the subtree. |
| SceneGraph.FindReturnsFirstMatchingChild | SceneGraph.cpp:72-78 | When the graph's name differs, `Find` returns the first child whose subtree holds the name, whatever the later children hold. |
| SceneGraph.FindFailsIffNowhere | SceneGraph.cpp:63-81 | `Find` returns null exactly when neither the graph's name nor any child's subtree matches. |
| SceneGraph.FlatFindIsExact | SceneGraph.cpp:72-78 | In a graph of leaves with distinct names, `Find` stops at exactly the leaf with that name. |
| SceneGraph.FindReturnsContainingChild | SceneGraph.cpp:74-76 | For a name inside a nested sub-graph, `Find` returns the containing direct child, not the nested node that matched. |
| SceneGraph.LocateIgnoresTransforms | SceneGraph.cpp:63-81 | Two trees that differ only in transforms give the same search result for every name. |
| SceneGraph.OccursIgnoresTransforms | SceneGraph.cpp:63-81 | Changing transforms never makes a name appear in or vanish from a tree. |
| SceneGraph.Remove | SceneGraph.cpp:51-61 | The tree is returned unchanged, so every `Find` gives the same answer afterwards; the call is forwarded only with the target identity, and it is forwarded at all exactly when some direct child has that identity. |
| SceneGraph.RemoveEach | SceneGraph.cpp:54-60 | The loop forwards only to children with the target identity, and forwards at least once exactly when such a child exists. |
| SceneGraph.RemoveKeepsChildReachable | SceneGraph.cpp:53-58 | A removed child is still found by name after `Remove`, while the erasing version makes the search fail. |
| SceneGraph.Without | SceneGraph.cpp:53 | The children kept are exactly those without the target identity, and nothing changes when no child has it. |
| SceneGraph.WithoutDistributes | SceneGraph.cpp:53 | Erasing from a list split in two erases from each part, so the children kept stay in their original order. |
| SceneGraph.EraseChild | SceneGraph.cpp:53 | The graph keeps its identity, name and transforms, and its children are exactly the old ones without the target identity. |
| SceneGraph.EraseThenFindFails | SceneGraph.cpp:53 | After erasing the only children whose subtrees hold a name, `Find` for it fails. |
| SceneGraph.FanOut | SceneGraph.cpp:26-43 | A traversal reaches the node first and is never empty. |
| SceneGraph.FanOutFlat | SceneGraph.cpp:26-43 | In a graph of leaves, `Render` and `Shutdown` visit the graph and then each child exactly once, in insertion order. |
| SceneGraph.FanOutEachDistributes | SceneGraph.cpp:29-32 | The traversal of a list of children is the traversals of its parts, one after the other. |
| SceneGraph.Initialise | SceneGraph.cpp:4-15 | A leaf reports its own outcome; a graph with no children succeeds and initialises nothing else. |
| SceneGraph.InitialiseOkIffChildrenOk | SceneGraph.cpp:4-15 | A graph's `Initialise` returns true exactly when every child's `Initialise` returns true. |
| SceneGraph.InitialiseEachOkIffAllOk | SceneGraph.cpp:7-14 | The loop succeeds exactly when every child succeeds. |
| SceneGraph.InitialiseTraceIsPrefix | SceneGraph.cpp:7-14 | The nodes initialised are a prefix of the full fan-out traversal, and all of it on success. `Shutdown` (SceneGraph.cpp:36-43) follows that full traversal, so it reaches every node a failed `Initialise` reached: there is no rollback. |
| SceneGraph.InitialiseStopsAtFirstFailure | SceneGraph.cpp:9-12 | When child `k` is the first to fail, the earlier children are initialised completely, child `k` is tried, and nothing after it runs. |
| SceneGraph.FlatInitialiseSkipsLaterChildren | SceneGraph.cpp:7-13 | In a graph of leaves, a failure at child `k` initialises children `0..k` and none after. |
| SceneGraph.SecondOfThreeFails | SceneGraph.cpp:9-12 | With three leaves whose second fails, the third is never initialised. |
| SceneGraph.Update | SceneGraph.cpp:17-24 | A graph keeps its own cumulative transform and its number of children; a leaf's cumulative transform becomes its own transform composed with the argument. |
| SceneGraph.UpdateLeafChild | SceneGraph.cpp:20-23 | After `Update(w)`, a leaf child's cumulative transform is its own transform times `w`, and its own transform is kept. |
| SceneGraph.UpdateBroadcasts | SceneGraph.cpp:17-24 | After `Update(w)` every leaf, however deep, composes its local transform with the same `w`, and the tree's shape is unchanged. |
| SceneGraph.UpdateTwoLeaves | SceneGraph.cpp:20-23 | Two sibling leaves each compose their own local transform with the one argument. |
| SceneGraph.SetWorldAt | DirectXApp.cpp:61 | The found node gets the new own transform and keeps its cumulative transform until the next `Update` (the setter's target is an assumption, see Left out); every other child is unchanged and the tree's shape is kept. |
| SceneGraph.PinSurvivesUpdate | SceneGraph.cpp:17-24 | With `SetWorldTransform` setting a leaf's own transform (see Left out): a pose `m` pinned on a leaf reaches its cumulative transform at the next `Update(w)` as `m * w`, and the leaf's siblings update exactly as if nothing had been pinned. |
| SceneGraph.GraphTransformNotInherited | SceneGraph.cpp:17-24 | A graph's own transform never reaches its children: `Update` hands them its argument unchanged, so whatever the graph's own transform is set to, its children come out of `Update` the same. |
| DirectXApp.AddAll | DirectXApp.cpp:16-48 | Adding the nodes one by one appends them, in order, after the existing children. |
| DirectXApp.CreateSceneGraph | DirectXApp.cpp:10-51 | Exactly nine leaves are appended, in the order ModelNode, Teapot, Body, LeftLeg, RightLeg, Head, Nose, LeftArm, RightArm, and the rotation counter is reset to 0. |
| DirectXApp.NodeNamesDistinct | DirectXApp.cpp:14-46 | The nine names are pairwise distinct. |
| DirectXApp.CreateBuildsScene | DirectXApp.cpp:10-51 | From an empty graph whose own name is none of the nine, the result is a graph of nine leaves with those names in order. |
| DirectXApp.PinAll | DirectXApp.cpp:60-85 | A successful run of lookups and overrides keeps the tree's shape and records one hit per lookup. |
| DirectXApp.PinAllSucceedsIffAllFound | DirectXApp.cpp:60-85 | The lookups all succeed exactly when every looked-up name occurs in the graph; a failure names a looked-up name that occurs nowhere. |
| DirectXApp.FrameWith | DirectXApp.cpp:53-86 | A successful frame advances the counter by exactly one, keeps the tree's shape, and sets the graph's own transform before any node override. |
| DirectXApp.UpdateSceneGraph | DirectXApp.cpp:53-86 | The application's frame advances the counter by one, adds and removes nothing, and sets the graph's own transform first and then nine node transforms. |
| DirectXApp.FrameSucceedsIffAllFound | DirectXApp.cpp:60-85 | A frame dereferences no null exactly when all nine looked-up names occur in the scene; a failure names one of the nine that occurs nowhere. |
| DirectXApp.PinTarget | DirectXApp.cpp:60-85 | Each lookup names one of the created nodes. |
| DirectXApp.AppLayout | DirectXApp.cpp:60-85 | The lookups name the nine created nodes, each exactly once. |
| DirectXApp.SetWorldKeepsNames | DirectXApp.cpp:61 | Setting a node's transform keeps a graph of leaves a graph of leaves with the same names. |
| DirectXApp.PinAllOnFlat | DirectXApp.cpp:60-85 | On a flat graph with distinct names, every lookup stops at exactly its leaf, which ends with that lookup's transform; leaves no lookup names keep theirs. |
| DirectXApp.PinsOnBuiltWith | DirectXApp.cpp:60-85 | On a built scene every lookup stops at its target leaf, the leaf gets its transform, and the scene stays built. |
| DirectXApp.FrameOnBuiltWith | DirectXApp.cpp:56-85 | A frame on a built scene never fails; it sets the graph's own transform to the frame's rotation and each target leaf's own transform to its pose for the new angle, and changes no cumulative transform. |
| DirectXApp.FrameOnBuiltScene | DirectXApp.cpp:53-86 | The application's frame on the scene it builds never dereferences null, and every one of the nine leaves gets its transform exactly once. |
| DirectXApp.FramePosesReachUpdateWith | DirectXApp.cpp:56-85 | After a frame on a built scene, the next `Update(w)` gives each target leaf the cumulative transform pose * `w` for the new angle, while the graph keeps its cumulative transform. |
| DirectXApp.FramePosesReachUpdate | DirectXApp.cpp:53-86 | After the application's frame on the scene it builds, the next `Update(w)` gives each of the nine leaves its own pose for the new angle times `w`. |
| DirectXApp.RunFramesWith | DirectXApp.cpp:56 | After `k` successful frames the counter has grown by exactly `k`. |
| DirectXApp.RunFrames | DirectXApp.cpp:56 | After `k` successful application frames the counter has grown by exactly `k`. |
| DirectXApp.FramesOnBuiltNeverFail | DirectXApp.cpp:60-85 | Any number of frames on a built scene succeeds and leaves it built. |
| DirectXApp.FramesAfterCreateNeverFail | DirectXApp.cpp:10-86 | Building the scene and then running any number of frames never dereferences a null `Find` result, and the counter equals the number of frames run. |
| Vectors.FaceNormalPerpendicular | TeapotNode.cpp:121-134 | The face normal is perpendicular to every edge of its triangle. |
| Vectors.FaceNormalAntisymmetric | TexturedCubeNode.cpp:120-130 | Swapping the second and third corner negates the face normal. |
| Vectors.FaceNormalFromEdges | TexturedCubeNode.cpp:124-127 | The face normal equals the cross product of the edges leaving `p1`. |
| Vectors.FaceNormalTranslationInvariant | TexturedCubeNode.cpp:120-130 | Moving the whole triangle leaves its face normal unchanged. |
| Vectors.FaceNormalCollinear | TeapotNode.cpp:121-134 | Collinear corners give the zero vector. |
| Vectors.FaceNormalDegenerate | TeapotNode.cpp:121-134 | Coincident corners give the zero vector. |
| Normals.InBoundsIffWellFormed | TeapotNode.cpp:97-102 | Every array access of the accumulation loop is in bounds exactly when the index count is a multiple of three and every index is below the vertex count. |
| Normals.UnlistedVertexGetsZero | TeapotNode.cpp:97-112 | A vertex that no triangle lists receives no face normal. |
| Normals.AddToCornersAt | TeapotNode.cpp:106-111 | One triangle adds its face normal at a vertex once per corner naming it, and adds nothing at other vertices. |
| Normals.CountCornersAt | TeapotNode.cpp:107-111 | One triangle raises a vertex's count by the number of its corners naming it. |
| Normals.StepLeavesOtherVertices | TeapotNode.cpp:97-112 | A vertex outside a triangle keeps its normal and its count through that triangle's step. |
| Normals.NextTriangle | TeapotNode.cpp:97-102 | The loop's next triangle lies in bounds, and accumulating from it is its own step followed by the rest. |
| Normals.AccumulatedCount | TeapotNode.cpp:97-112 | After the triangles of a list, each count has grown by the number of times the list names the vertex. |
| Normals.AccumulatedNormal | TeapotNode.cpp:97-112 | After the triangles of a list, each normal has grown by the sum of the face normals of the triangles listing the vertex, with multiplicity. |
| Normals.AccumulateFaceNormals | TexturedCubeNode.cpp:96-112 | The accumulation loop raises each count by the vertex's occurrences and each normal by the sum of its incident face normals. |
| Normals.DivideBy | TeapotNode.cpp:117 | The divided normal, scaled back by the count, is the accumulated normal. |
| Normals.AverageNormals | TeapotNode.cpp:115-118 | The division succeeds exactly when every count is positive, and then each result times its count is the accumulated normal; otherwise it names the first vertex with a zero count. |
| Normals.VertexNormals | TexturedCubeNode.cpp:94-118 | The whole pass: counts grow by occurrences; on success each normal times its count is the starting normal plus the incident face normals; it fails exactly when some count is zero and names the first. |
| TeapotNode.Unpack | TeapotNode.cpp:91-95 | Three coordinates make one vertex. |
| TeapotNode.UnpackAt | TeapotNode.cpp:91-95 | Vertex `k` takes coordinates `3k`, `3k+1`, `3k+2` as its position and starts with a zero normal. |
| TeapotNode.PositionsOf | TeapotNode.cpp:100-102 | Position `k` is the position of vertex `k`. |
| TeapotNode.FlattenUnpack | TeapotNode.cpp:91-95 | Unpacking loses no coordinate: flattening the positions gives back the input list. |
| TeapotNode.UnpackFlatten | TeapotNode.cpp:91-95 | Unpacking a flattened position list gives back those positions, each with a zero normal. |
| TeapotNode.RaisedIffListed | TeapotNode.cpp:107-111 | A count rises above its starting value exactly when the index list names the vertex. |
| TeapotNode.CalculateNormals | TeapotNode.cpp:88-119 | Counts grow by occurrences; positions come from the coordinates; the division succeeds exactly when every final count is positive, which with zero starting counts means every vertex is listed; each normal times its count is the sum of its incident face normals. |
| TexturedCubeNode.IndicesAreSides | TexturedCubeNode.h:128-141 | The index table is six sides of two triangles, side `k` using the pattern `4k, 4k+1, 4k+2, 4k+2, 4k+1, 4k+3`. |
| TexturedCubeNode.SidesCount | TexturedCubeNode.h:128-141 | The first `n` sides name each of their vertices once, twice, twice, once by its place in its side, and nothing beyond. |
| TexturedCubeNode.TableShapes | TexturedCubeNode.h:92-125 | There are 24 vertices and 36 indices (12 triangles), one zero count per vertex, and every starting normal is zero. |
| TexturedCubeNode.IndicesWellFormed | TexturedCubeNode.h:128-141 | Every index lies in `[0, 24)` and the table holds whole triangles. |
| TexturedCubeNode.TrianglesStayOnTheirSide | TexturedCubeNode.h:128-141 | Each side's two triangles use only that side's vertices `4k..4k+3`. |
| TexturedCubeNode.TrianglesHaveDistinctCorners | TexturedCubeNode.h:128-141 | No triangle repeats a corner. |
| TexturedCubeNode.VertexOccurrences | TexturedCubeNode.h:128-141 | Every vertex is listed in the index table, as often as the per-side pattern 1, 2, 2, 1 says. |
| TexturedCubeNode.NormalPass | TexturedCubeNode.cpp:94-118 | On any table where no vertex ends with a zero count, positions and texture coordinates are kept, counts grow by occurrences, and each normal times its count is the old normal plus the incident face normals. |
| TexturedCubeNode.CalculateNormals | TexturedCubeNode.cpp:94-118 | On the declared tables no count is zero when the division runs; each count is the vertex's occurrences, positions and texture coordinates are kept, and each normal times its count is the sum of its incident face normals. |
| TexturedCubeNode.Initialise | TexturedCubeNode.cpp:10-35 | Framework state is gathered, then the normals are computed before the geometry buffers are built, so the uploaded vertices carry the computed normals; the other resources follow and the result is always true. |

## Left out

- Matrix contents: scale, rotation, translation and their products stay symbolic terms, because their values are floating-point numerics.
- The rotation angle is a float in the program and an integer frame counter here; the angle in radians, `angle * pi / 360`, is carried only as an argument of the symbolic rotation.
- DirectXApp.RunFramesWith, DirectXApp.RunFrames and DirectXApp.FramesAfterCreateNeverFail: the program's `_rotationAngle += 1.0f` (DirectXApp.cpp:56) is a 32-bit float, which stops changing at 2^24 = 16777216 because adding 1 then rounds back. The model's counter grows without bound, so "the counter grows by exactly `k`" matches the program only while the counter stays at or below 2^24.
- The base scene-node class is not part of this model. Assumed of it: a leaf's `Find` matches only its own name, its `Remove` does nothing, its `Update` sets world := local * parent world, and its `SetWorldTransform` sets `local`.
- SceneGraph.SetWorldAt: `SetWorldTransform` belongs to the base scene-node class, which is not part of this model. The model assumes it sets the node's own transform (`local`), which the node's `Update` composes with its parent's into the cumulative transform that `Render` reads as `_cumulativeWorldTransformation` (TeapotNode.cpp:41). Two things in the visible code fit this reading. `Render` reads a separately named cumulative field. And each pose at DirectXApp.cpp:61-85 multiplies in the frame's rotation itself, which makes sense only if the poses reach `Render`. The order in which the framework calls `UpdateSceneGraph`, `Update` and `Render` each frame is also unseen: the model states what an `Update` after a frame yields (DirectXApp.FramePosesReachUpdate) and does not model the frame loop.
- CubeNode is not part of this model. Its `Initialise` outcome is the parameter `cubeOk`, and a leaf's outcome is an arbitrary boolean so that the fail-fast path can be stated.
- A leaf's `Render` fills a constant buffer and issues draw calls; a leaf's `Shutdown` is empty for the teapot and textured cube (TeapotNode.cpp:84-86, TexturedCubeNode.cpp:90-92) and releases a mesh for the model node (ModelNode.cpp:95). The model records only which nodes the traversal reaches.
- The second owning pointer that `Find` creates for the graph itself (`SceneNodePointer(this)`) is not modelled; `Find` returns where it stopped.
- ModelNode and the framework headers: the mesh comes from an external resource manager, and the rest is window and device state.
- Direct3D resource creation (`BuildGeometryBuffers`, `BuildShaders`, `BuildVertexLayout`, `BuildConstantBuffer`, `BuildRasteriserState`, `BuildTexture`) and exceptions from `ThrowIfFailed` are foreign API calls. Initialise records them only as steps, in order.
- `Normalize` and float rounding in the normal pass: arithmetic is exact, and the result is stated up to the division by the count.
- Normals.AverageNormals: a zero count makes the program divide a float by zero and keep going with a non-finite normal; the model stops and reports the first such vertex instead.
- TeapotNode.CalculateNormals: the coordinate and index arrays and the count array live in a geometry header that is not part of this model. They are parameters, and the counts enter as `counts0` because the program never resets them.
- TeapotNode.CalculateNormals: the vertex array is assumed to hold exactly `|floats| / 3` entries, one per unpacked coordinate triple. The division loop runs over `ARRAYSIZE(teapotVertices)` (TeapotNode.cpp:115), whose declared size lives in the geometry header that is not part of this model.
- TeapotNode.CalculateNormals: the teapot's `Initialise` is not modelled beyond this pass, which it calls before building its buffers in the same way as the cube.
- TexturedCubeNode.PolygonCount: the program keeps the counts as floats; they only ever hold whole numbers and are natural numbers here.
- TexturedCubeNode.Indices: the table is written as six concatenated per-side pieces; the values and order are those of the header.

## Findings

| source | as written | input that shows it | evidently intended | confidence | as-written member | corrected member |
|---|---|---|---|---|---|---|
| SceneGraph.cpp:51-61 | `Remove` forwards the call to each direct child whose identity matches and never erases it from `_children` | a graph with one leaf "Teapot"; `Remove(teapot)` then `Find("Teapot")` still returns the leaf | the comment at line 53 says the matching child is removed from the array, so a later `Find` for it fails | not executed | SceneGraph.RemoveKeepsChildReachable | SceneGraph.EraseThenFindFails |
