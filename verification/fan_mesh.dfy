/** The fan-mesh builder `GenerateMesh(List<Vector2[]> pathes)`, identical in
    `LaserMeshGenerator` and `RuntimeSvg`.

    The mesh starts with an apex vertex at the origin whose UV is (0, 0). Every
    path's points are appended as vertices at depth 100, and each path is fanned
    from the apex with `len - 1` triangles `(0, idx0 + i + 1, idx0 + i)`, where
    `idx0` is the vertex index of the path's first point. There is no closing
    triangle, whether or not the contour was closed. UV.x runs along one strip
    [0, 1] shared by all paths: a path takes the share `(len - 1) / strokeCount`
    starting where the previous path ended, with `strokeCount = Σ (len - 1)`. */
module FanMesh {
  import opened Geometry
  import opened Mathf
  import opened Linq
  import opened Results

  type Path = seq<Vec2>

  /** The z coordinate every path vertex gets (`new Vector3(v2.x, v2.y, 100f)`). */
  const PathDepth: real := 100.0

  /** The three lists handed to `Mesh.SetVertices`, `SetUVs` and `SetIndices`
      (`MeshTopology.Triangles`, so `indices` is read three at a time). */
  datatype Mesh = Mesh(vertices: seq<Vec3>, uvs: seq<Vec2>, indices: seq<int>)

  datatype MeshError =
    /** `Enumerable.Range(0, path.Length - 1)` throws for an empty path. */
    | EmptyPath(index: nat)
    /** A one-point path makes the UV interpolation compute `0 / 0`. */
    | SinglePointPath(index: nat)

  /** The apex vertex and its UV. */
  const Apex: Vec3 := Vec3(0.0, 0.0, 0.0)
  const ApexUv: Vec2 := Vec2(0.0, 0.0)

  /** The lists before any path is added. */
  const ApexOnly: Mesh := Mesh([Apex], [ApexUv], [])

  /** Number of points in the first `k` paths. */
  function PointsBefore(paths: seq<Path>, k: nat): nat
    requires k <= |paths|
  {
    if k == 0 then 0 else PointsBefore(paths, k - 1) + |paths[k - 1]|
  }

  /** Number of edges (`len - 1` per path) in the first `k` paths. */
  function EdgesBefore(paths: seq<Path>, k: nat): int
    requires k <= |paths|
  {
    if k == 0 then 0 else EdgesBefore(paths, k - 1) + |paths[k - 1]| - 1
  }

  /** `pathes.Sum(p => p.Length - 1)`: the number of edges that are fanned. */
  function StrokeCount(paths: seq<Path>): int {
    EdgesBefore(paths, |paths|)
  }

  /** Every path has at least two points, so each gets a non-empty UV share. */
  predicate Drawable(paths: seq<Path>) {
    forall k :: 0 <= k < |paths| ==> |paths[k]| >= 2
  }

  /** Three vertex indices read together. */
  datatype Tri = Tri(a: int, b: int, c: int)

  /** Triangle number `t` of a flat index list. */
  function Triangle(indices: seq<int>, t: nat): Tri
    requires 3 * t + 3 <= |indices|
  {
    Tri(indices[3 * t], indices[3 * t + 1], indices[3 * t + 2])
  }

  /** Appending to an index list keeps its triangles. */
  lemma TriangleBeforeAppend(a: seq<int>, b: seq<int>, t: nat)
    requires 3 * t + 3 <= |a|
    ensures Triangle(a + b, t) == Triangle(a, t)
  {
  }

  /** The triangles of an appended list follow those of the list before it. */
  lemma TriangleAfterAppend(a: seq<int>, b: seq<int>, before: nat, t: nat)
    requires |a| == 3 * before && 3 * t + 3 <= |b|
    ensures Triangle(a + b, before + t) == Triangle(b, t)
  {
  }

  /** Triangle `t` of a fan appended to `before` triangles is triangle `before + t`. */
  lemma AppendedFanTriangle(prev: seq<int>, before: nat, idx0: int, n: nat, t: nat)
    requires |prev| == 3 * before && t < n
    ensures 3 * (before + t) + 3 <= |prev + Fan(idx0, n)|
    ensures Triangle(prev + Fan(idx0, n), before + t) == Tri(0, idx0 + t + 1, idx0 + t)
  {
    TriangleAfterAppend(prev, Fan(idx0, n), before, t);
    FanTriangle(idx0, n, t);
  }

  /** Vertex index of point `i` of path `j`: after the apex and the earlier paths. */
  function VertexIndex(paths: seq<Path>, j: nat, i: nat): nat
    requires j <= |paths|
  {
    1 + PointsBefore(paths, j) + i
  }

  /** `Enumerable.Range(0, n).SelectMany(i => new[] { 0, idx0 + i + 1, idx0 + i })`:
      `n` triangles fanned from the apex over the vertices idx0 .. idx0 + n. */
  function Fan(idx0: int, n: nat): (r: seq<int>)
    ensures |r| == 3 * n
  {
    if n == 0 then [] else Fan(idx0, n - 1) + [0, idx0 + n, idx0 + n - 1]
  }

  /** Triangle `t` of a fan joins the apex to vertices `idx0 + t + 1` and `idx0 + t`. */
  lemma {:induction false} FanTriangle(idx0: int, n: nat, t: nat)
    requires t < n
    ensures Triangle(Fan(idx0, n), t) == Tri(0, idx0 + t + 1, idx0 + t)
    decreases n
  {
    if t < n - 1 {
      FanTriangle(idx0, n - 1, t);
      TriangleBeforeAppend(Fan(idx0, n - 1), [0, idx0 + n, idx0 + n - 1], t);
    } else {
      TriangleAfterAppend(Fan(idx0, n - 1), [0, idx0 + n, idx0 + n - 1], n - 1, 0);
    }
  }

  /** Every entry of a fan is the apex or one of the vertices `idx0 .. idx0 + n`. */
  lemma {:induction false} FanEntries(idx0: int, n: nat, q: nat)
    requires q < 3 * n
    ensures Fan(idx0, n)[q] == 0 || idx0 <= Fan(idx0, n)[q] <= idx0 + n
    decreases n
  {
    if q < 3 * (n - 1) {
      FanEntries(idx0, n - 1, q);
    }
  }


  /** The UVs of one path of `len` points whose strip starts at `x0`:
      `Lerp(x0, x1, idx / (len - 1f))` with `x1 = x0 + (len - 1f) / strokeCount`,
      and y = 1. */
  function PathUvs(x0: real, len: nat, strokeCount: int): (r: seq<Vec2>)
    requires len >= 2 && strokeCount > 0
    ensures |r| == len
  {
    seq(len, i requires 0 <= i < len =>
      Vec2(Lerp(x0, x0 + (len - 1) as real / strokeCount as real, i as real / (len - 1) as real), 1.0))
  }

  /** Point `i` of the path lands exactly `i / strokeCount` past the start of its strip. */
  lemma PathUvsValue(x0: real, len: nat, strokeCount: int, i: nat)
    requires len >= 2 && strokeCount > 0 && i < len
    ensures PathUvs(x0, len, strokeCount)[i] == Vec2(x0 + i as real / strokeCount as real, 1.0)
  {
    UvStep(x0, (len - 1) as real, strokeCount as real, i as real);
  }

  /** A strip that starts after `edges` edges puts point `i` after `edges + i` edges. */
  lemma StripPoint(x0: real, len: nat, strokeCount: int, edges: int, i: nat, reached: int)
    requires len >= 2 && strokeCount > 0 && i < len
    requires x0 == edges as real / strokeCount as real && reached == edges + i
    ensures PathUvs(x0, len, strokeCount)[i] == Vec2(reached as real / strokeCount as real, 1.0)
  {
    PathUvsValue(x0, len, strokeCount, i);
    DivAdd(edges, i, strokeCount);
  }

  /** Interpolating a fraction `i / span` of the way across a share `span / total`
      advances by exactly `i / total`. */
  lemma UvStep(x0: real, span: real, total: real, i: real)
    requires 0.0 < span && 0.0 < total && 0.0 <= i <= span
    ensures Lerp(x0, x0 + span / total, i / span) == x0 + i / total
  {
    var t := i / span;
    assert 0.0 <= t <= 1.0 by {
      assert t * span == i;
    }
    LerpExact(x0, x0 + span / total, t);
    var share := span / total;
    assert share * total == span;
    assert t * span == i;
    assert (share * t) * total == (share * total) * t;
    QuotientUnique(share * t, i, total);
  }

  /** `path.Select(v2 => new Vector3(v2.x, v2.y, 100f))`. */
  function Lift(path: Path): seq<Vec3> {
    Select(path, (v: Vec2) => Vec3(v.x, v.y, PathDepth))
  }


  /** The vertex list after `AddPath` has run for the first `k` paths: the apex,
      then every point of those paths in order. */
  function Vertices(paths: seq<Path>, k: nat): (r: seq<Vec3>)
    requires k <= |paths|
    ensures |r| == 1 + PointsBefore(paths, k)
    ensures r[0] == Apex
  {
    if k == 0 then [Apex] else Vertices(paths, k - 1) + Lift(paths[k - 1])
  }

  /** The UV list after `AddPath` has run for the first `k` paths: each path's UVs
      continue from the last UV already in the list. */
  function Uvs(paths: seq<Path>, k: nat, strokeCount: int): (r: seq<Vec2>)
    requires Drawable(paths) && k <= |paths| && strokeCount > 0
    ensures |r| == 1 + PointsBefore(paths, k)
    ensures r[0] == ApexUv
  {
    if k == 0 then [ApexUv]
    else
      var prev := Uvs(paths, k - 1, strokeCount);
      prev + PathUvs(prev[|prev| - 1].x, |paths[k - 1]|, strokeCount)
  }

  /** The index list after `AddPath` has run for the first `k` paths: each path's
      fan starts at the vertex count reached before the path was added. */
  function Indices(paths: seq<Path>, k: nat): (r: seq<int>)
    requires Drawable(paths) && k <= |paths|
    ensures |r| == 3 * EdgesBefore(paths, k)
  {
    if k == 0 then []
    else Indices(paths, k - 1) + Fan(|Vertices(paths, k - 1)|, |paths[k - 1]| - 1)
  }

  /** `pathes.ForEach(p => AddPath(p))` from the apex-only lists. The local
      function `AddPath` appends to the three lists independently, so each list
      is its own fold. */
  function Build(paths: seq<Path>, strokeCount: int): (m: Mesh)
    requires Drawable(paths) && strokeCount > 0
  {
    Mesh(Vertices(paths, |paths|), Uvs(paths, |paths|, strokeCount), Indices(paths, |paths|))
  }

  lemma DivZero(a: int, s: int)
    requires a == 0 && s > 0
    ensures a as real / s as real == 0.0
  {
  }

  lemma DivSelf(s: int)
    requires s > 0
    ensures s as real / s as real == 1.0
  {
  }

  lemma DivAdd(a: int, b: int, s: int)
    requires s > 0
    ensures a as real / s as real + b as real / s as real == (a + b) as real / s as real
  {
  }

  lemma DivLess(a: int, b: int, s: int)
    requires s > 0 && a < b
    ensures a as real / s as real < b as real / s as real
  {
    DivAdd(a, b - a, s);
  }

  /** With every path drawable, each contributes at least one edge. */
  lemma {:induction false} EdgesAtLeastPaths(paths: seq<Path>, k: nat)
    requires Drawable(paths) && k <= |paths|
    ensures EdgesBefore(paths, k) >= k
    decreases k
  {
    if k > 0 {
      EdgesAtLeastPaths(paths, k - 1);
    }
  }

  /** Adding paths keeps the vertices already in the list. */
  lemma {:induction false} VerticesStable(paths: seq<Path>, m: nat, k: nat, v: nat)
    requires m <= k <= |paths| && v < |Vertices(paths, m)|
    ensures v < |Vertices(paths, k)|
    ensures Vertices(paths, k)[v] == Vertices(paths, m)[v]
    decreases k - m
  {
    if m < k {
      VerticesKeepEarlier(paths, m, v);
      VerticesStable(paths, m + 1, k, v);
    }
  }

  /** Adding path `j` keeps the vertices already in the list. */
  lemma VerticesKeepEarlier(paths: seq<Path>, j: nat, v: nat)
    requires j < |paths| && v < |Vertices(paths, j)|
    ensures v < |Vertices(paths, j + 1)|
    ensures Vertices(paths, j + 1)[v] == Vertices(paths, j)[v]
  {
  }

  /** Adding path `j` puts its points right after the vertices already in the list. */
  lemma VerticesAt(paths: seq<Path>, j: nat, i: nat)
    requires j < |paths| && i < |paths[j]|
    ensures VertexIndex(paths, j, i) < |Vertices(paths, j + 1)|
    ensures Vertices(paths, j + 1)[VertexIndex(paths, j, i)] == Vec3(paths[j][i].x, paths[j][i].y, PathDepth)
  {
    assert Vertices(paths, j + 1)[|Vertices(paths, j)| + i] == Lift(paths[j])[i];
  }

  /** Point `i` of path `j` is vertex `VertexIndex(paths, j, i)`, at depth 100,
      once path `j` has been added. */
  lemma VerticesLayout(paths: seq<Path>, k: nat, j: nat, i: nat)
    requires j < k <= |paths| && i < |paths[j]|
    ensures VertexIndex(paths, j, i) < |Vertices(paths, k)|
    ensures Vertices(paths, k)[VertexIndex(paths, j, i)] == Vec3(paths[j][i].x, paths[j][i].y, PathDepth)
  {
    VerticesAt(paths, j, i);
    VerticesStable(paths, j + 1, k, VertexIndex(paths, j, i));
  }

  /** Every point of every path has its y coordinate in [lo, hi]. */
  predicate HeightsWithin(paths: seq<Path>, lo: real, hi: real) {
    forall j, i :: 0 <= j < |paths| && 0 <= i < |paths[j]| ==> lo <= paths[j][i].y <= hi
  }

  /** The vertices keep the points' heights, and the apex sits at height 0. */
  lemma {:induction false} VerticesWithin(paths: seq<Path>, k: nat, lo: real, hi: real)
    requires k <= |paths| && HeightsWithin(paths, lo, hi) && lo <= 0.0 <= hi
    ensures forall v :: 0 <= v < |Vertices(paths, k)| ==> lo <= Vertices(paths, k)[v].y <= hi
    decreases k
  {
    if k > 0 {
      VerticesWithin(paths, k - 1, lo, hi);
      var prev := Vertices(paths, k - 1);
      var lifted := Lift(paths[k - 1]);
      forall v | 0 <= v < |Vertices(paths, k)|
        ensures lo <= Vertices(paths, k)[v].y <= hi
      {
        if v < |prev| {
          assert Vertices(paths, k)[v] == prev[v];
        } else {
          assert Vertices(paths, k)[v] == lifted[v - |prev|];
          assert lifted[v - |prev|].y == paths[k - 1][v - |prev|].y;
        }
      }
    }
  }

  /** The UV strip reached after the first `k` paths ends at `edges so far / strokeCount`. */
  lemma {:induction false} UvsEnd(paths: seq<Path>, k: nat, strokeCount: int)
    requires Drawable(paths) && k <= |paths| && strokeCount > 0
    ensures Uvs(paths, k, strokeCount)[PointsBefore(paths, k)].x
         == EdgesBefore(paths, k) as real / strokeCount as real
    decreases k
  {
    if k > 0 {
      UvsEnd(paths, k - 1, strokeCount);
      UvsEndStep(paths, k - 1, strokeCount);
    } else {
      DivZero(EdgesBefore(paths, k), strokeCount);
    }
  }

  /** Adding path `j` moves the end of the strip by the path's edges. */
  lemma UvsEndStep(paths: seq<Path>, j: nat, strokeCount: int)
    requires Drawable(paths) && j < |paths| && strokeCount > 0
    requires Uvs(paths, j, strokeCount)[PointsBefore(paths, j)].x
          == EdgesBefore(paths, j) as real / strokeCount as real
    ensures Uvs(paths, j + 1, strokeCount)[PointsBefore(paths, j + 1)].x
         == EdgesBefore(paths, j + 1) as real / strokeCount as real
  {
    var len := |paths[j]|;
    UvsAppended(paths, j, strokeCount, len - 1);
    StripPoint(Uvs(paths, j, strokeCount)[PointsBefore(paths, j)].x, len, strokeCount,
               EdgesBefore(paths, j), len - 1, EdgesBefore(paths, j + 1));
  }

  /** Adding path `j` appends its strip, which starts at the last UV already in
      the list. */
  lemma UvsAppended(paths: seq<Path>, j: nat, strokeCount: int, i: nat)
    requires Drawable(paths) && j < |paths| && strokeCount > 0 && i < |paths[j]|
    ensures VertexIndex(paths, j, i) < |Uvs(paths, j + 1, strokeCount)|
    ensures Uvs(paths, j + 1, strokeCount)[VertexIndex(paths, j, i)]
         == PathUvs(Uvs(paths, j, strokeCount)[PointsBefore(paths, j)].x, |paths[j]|, strokeCount)[i]
  {
  }

  /** Adding path `j` gives its point `i` the UV `((edges before it + i) / strokeCount, 1)`. */
  lemma UvsAt(paths: seq<Path>, j: nat, strokeCount: int, i: nat)
    requires Drawable(paths) && j < |paths| && strokeCount > 0 && i < |paths[j]|
    ensures VertexIndex(paths, j, i) < |Uvs(paths, j + 1, strokeCount)|
    ensures Uvs(paths, j + 1, strokeCount)[VertexIndex(paths, j, i)]
         == Vec2((EdgesBefore(paths, j) + i) as real / strokeCount as real, 1.0)
  {
    UvsEnd(paths, j, strokeCount);
    UvsAppended(paths, j, strokeCount, i);
    StripPoint(Uvs(paths, j, strokeCount)[PointsBefore(paths, j)].x, |paths[j]|, strokeCount,
               EdgesBefore(paths, j), i, EdgesBefore(paths, j) + i);
  }

  /** Adding paths keeps the UVs already in the list. */
  lemma {:induction false} UvsStable(paths: seq<Path>, m: nat, k: nat, strokeCount: int, v: nat)
    requires Drawable(paths) && m <= k <= |paths| && strokeCount > 0
    requires v < |Uvs(paths, m, strokeCount)|
    ensures v < |Uvs(paths, k, strokeCount)|
    ensures Uvs(paths, k, strokeCount)[v] == Uvs(paths, m, strokeCount)[v]
    decreases k - m
  {
    if m < k {
      UvsKeepEarlier(paths, m, strokeCount, v);
      UvsStable(paths, m + 1, k, strokeCount, v);
    }
  }

  /** Adding path `j` keeps the UVs already in the list. */
  lemma UvsKeepEarlier(paths: seq<Path>, j: nat, strokeCount: int, v: nat)
    requires Drawable(paths) && j < |paths| && strokeCount > 0
    requires v < |Uvs(paths, j, strokeCount)|
    ensures v < |Uvs(paths, j + 1, strokeCount)|
    ensures Uvs(paths, j + 1, strokeCount)[v] == Uvs(paths, j, strokeCount)[v]
  {
  }

  /** Point `i` of path `j` gets UV `((edges of the earlier paths + i) / strokeCount, 1)`,
      once path `j` has been added. */
  lemma UvsLayout(paths: seq<Path>, k: nat, strokeCount: int, j: nat, i: nat)
    requires Drawable(paths) && strokeCount > 0
    requires j < k <= |paths| && i < |paths[j]|
    ensures VertexIndex(paths, j, i) < |Uvs(paths, k, strokeCount)|
    ensures Uvs(paths, k, strokeCount)[VertexIndex(paths, j, i)]
         == Vec2((EdgesBefore(paths, j) + i) as real / strokeCount as real, 1.0)
  {
    UvsAt(paths, j, strokeCount, i);
    UvsStable(paths, j + 1, k, strokeCount, VertexIndex(paths, j, i));
  }

  /** Adding path `j` appends its fan, which starts at the vertex count before it. */
  lemma IndicesStep(paths: seq<Path>, j: nat)
    requires Drawable(paths) && j < |paths|
    ensures Indices(paths, j + 1) == Indices(paths, j) + Fan(|Vertices(paths, j)|, |paths[j]| - 1)
  {
  }

  /** Adding path `j` keeps the triangles already in the list. */
  lemma IndicesKeepEarlier(paths: seq<Path>, j: nat, q: nat)
    requires Drawable(paths) && j < |paths|
    requires 3 * q + 3 <= |Indices(paths, j)|
    ensures 3 * q + 3 <= |Indices(paths, j + 1)|
    ensures Triangle(Indices(paths, j + 1), q) == Triangle(Indices(paths, j), q)
  {
    TriangleBeforeAppend(Indices(paths, j), Fan(|Vertices(paths, j)|, |paths[j]| - 1), q);
  }

  /** Adding path `j` appends its fan right after the triangles already in the list. */
  lemma IndicesAt(paths: seq<Path>, j: nat, t: nat)
    requires Drawable(paths) && j < |paths| && t < |paths[j]| - 1
    ensures EdgesBefore(paths, j) >= 0
    ensures 3 * (EdgesBefore(paths, j) + t) + 3 <= |Indices(paths, j + 1)|
    ensures Triangle(Indices(paths, j + 1), EdgesBefore(paths, j) + t)
         == Tri(0, VertexIndex(paths, j, t + 1), VertexIndex(paths, j, t))
  {
    EdgesAtLeastPaths(paths, j);
    var before: nat := EdgesBefore(paths, j);
    var prev := Indices(paths, j);
    var idx0 := |Vertices(paths, j)|;
    assert |prev| == 3 * before;
    assert idx0 == 1 + PointsBefore(paths, j);
    IndicesStep(paths, j);
    AppendedFanTriangle(prev, before, idx0, |paths[j]| - 1, t);
    assert idx0 + t == VertexIndex(paths, j, t);
    assert idx0 + t + 1 == VertexIndex(paths, j, t + 1);
  }

  /** Triangle `t` of path `j` is triangle number `edges of the earlier paths + t`
      and reads `(0, idx0 + t + 1, idx0 + t)`, once path `j` has been added. */
  lemma {:induction false} IndicesLayout(paths: seq<Path>, k: nat, j: nat, t: nat)
    requires Drawable(paths)
    requires j < k <= |paths| && t < |paths[j]| - 1
    ensures EdgesBefore(paths, j) >= 0
    ensures 3 * (EdgesBefore(paths, j) + t) + 3 <= |Indices(paths, k)|
    ensures Triangle(Indices(paths, k), EdgesBefore(paths, j) + t)
         == Tri(0, VertexIndex(paths, j, t + 1), VertexIndex(paths, j, t))
    decreases k
  {
    if k == j + 1 {
      IndicesAt(paths, j, t);
    } else {
      IndicesLayout(paths, k - 1, j, t);
      IndicesKeepEarlier(paths, k - 1, EdgesBefore(paths, j) + t);
    }
  }

  /** Every entry of the index list is the apex or a vertex index below the vertex
      count. */
  lemma {:induction false} IndicesBelowVertexCount(paths: seq<Path>, k: nat)
    requires Drawable(paths) && k <= |paths|
    ensures forall q :: 0 <= q < |Indices(paths, k)| ==> 0 <= Indices(paths, k)[q] < |Vertices(paths, k)|
    decreases k
  {
    if k > 0 {
      IndicesBelowVertexCount(paths, k - 1);
      var prev := Indices(paths, k - 1);
      var fan := Fan(|Vertices(paths, k - 1)|, |paths[k - 1]| - 1);
      var r := Indices(paths, k);
      forall q | 0 <= q < |r|
        ensures 0 <= r[q] < |Vertices(paths, k)|
      {
        if q < |prev| {
          assert r[q] == prev[q];
        } else {
          assert r[q] == fan[q - |prev|];
          FanEntries(|Vertices(paths, k - 1)|, |paths[k - 1]| - 1, q - |prev|);
        }
      }
    }
  }

  /** The first path of each length `len`, if any. */
  function FirstOfLength(paths: seq<Path>, len: nat): (r: Option<nat>)
    ensures r.Some? ==> r.value < |paths| && |paths[r.value]| == len
    ensures r.Some? ==> forall k :: 0 <= k < r.value ==> |paths[k]| != len
    ensures r.None? ==> forall k :: 0 <= k < |paths| ==> |paths[k]| != len
  {
    if |paths| == 0 then None
    else if |paths[0]| == len then Some(0)
    else match FirstOfLength(paths[1..], len)
      case None => None
      case Some(k) => Some(k + 1)
  }

  /** `GenerateMesh(pathes)`. An empty path makes the C# code throw; a one-point
      path poisons the UVs with NaN; both are reported, the exception first.
      Otherwise the mesh has the apex plus one vertex per point, one UV per vertex,
      `len - 1` triangles per path, and its UV strip ends exactly at 1. */
  function GenerateMesh(paths: seq<Path>): (r: Result<Mesh, MeshError>)
    ensures r.Ok? <==> Drawable(paths)
    ensures r.Err? && r.error.EmptyPath? ==>
              var k := r.error.index;
              k < |paths| && |paths[k]| == 0
    ensures r.Err? && r.error.SinglePointPath? ==>
              var k := r.error.index;
              && k < |paths| && |paths[k]| == 1
              && (forall k' :: 0 <= k' < |paths| ==> |paths[k']| != 0)
              && (forall k' :: 0 <= k' < k ==> |paths[k']| != 1)
    ensures r.Ok? ==>
              && |r.value.vertices| == 1 + PointsBefore(paths, |paths|)
              && |r.value.uvs| == |r.value.vertices|
              && |r.value.indices| == 3 * StrokeCount(paths)
              && r.value.vertices[0] == Apex
              && r.value.uvs[0] == ApexUv
    ensures r.Ok? && |paths| > 0 ==> r.value.uvs[|r.value.uvs| - 1].x == 1.0
  {
    match FirstOfLength(paths, 0)
    case Some(k) => Err(EmptyPath(k))
    case None =>
      match FirstOfLength(paths, 1)
      case Some(k) => Err(SinglePointPath(k))
      case None =>
        if |paths| == 0 then Ok(ApexOnly)
        else
          var strokeCount := StrokeCount(paths);
          EdgesAtLeastPaths(paths, |paths|);
          var m := Build(paths, strokeCount);
          UvsEnd(paths, |paths|, strokeCount);
          DivSelf(strokeCount);
          Ok(m)
  }

  /** For drawable, non-empty input the mesh is the three folds over all paths. */
  lemma BuiltMesh(paths: seq<Path>)
    requires Drawable(paths) && |paths| > 0
    ensures StrokeCount(paths) > 0
    ensures GenerateMesh(paths) == Ok(Build(paths, StrokeCount(paths)))
  {
    EdgesAtLeastPaths(paths, |paths|);
  }

  /** Point `i` of path `j` becomes vertex `1 + (points of earlier paths) + i`,
      placed at the point with z = 100, with UV `((edges of earlier paths + i) /
      strokeCount, 1)`. */
  lemma VertexLayout(paths: seq<Path>, j: nat, i: nat)
    requires Drawable(paths)
    requires j < |paths| && i < |paths[j]|
    ensures GenerateMesh(paths).Ok?
    ensures VertexIndex(paths, j, i) < |GenerateMesh(paths).value.vertices|
    ensures GenerateMesh(paths).value.vertices[VertexIndex(paths, j, i)]
         == Vec3(paths[j][i].x, paths[j][i].y, PathDepth)
    ensures GenerateMesh(paths).value.uvs[VertexIndex(paths, j, i)]
         == Vec2((EdgesBefore(paths, j) + i) as real / StrokeCount(paths) as real, 1.0)
  {
    BuiltMesh(paths);
    VerticesLayout(paths, |paths|, j, i);
    UvsLayout(paths, |paths|, StrokeCount(paths), j, i);
  }

  /** Path `j` owns exactly `len - 1` consecutive triangles, the `t`-th being
      `(0, idx0 + t + 1, idx0 + t)`; both non-apex corners lie inside the path's
      own vertex block, so no triangle joins two paths and none wraps around from
      the last point back to the first. */
  lemma TriangleLayout(paths: seq<Path>, j: nat, t: nat)
    requires Drawable(paths)
    requires j < |paths| && t < |paths[j]| - 1
    ensures GenerateMesh(paths).Ok?
    ensures EdgesBefore(paths, j) >= 0
    ensures 3 * (EdgesBefore(paths, j) + t) + 3 <= |GenerateMesh(paths).value.indices|
    ensures Triangle(GenerateMesh(paths).value.indices, EdgesBefore(paths, j) + t)
         == Tri(0, VertexIndex(paths, j, t + 1), VertexIndex(paths, j, t))
    ensures VertexIndex(paths, j, 0) <= VertexIndex(paths, j, t)
    ensures VertexIndex(paths, j, t + 1) < VertexIndex(paths, j, |paths[j]|)
  {
    BuiltMesh(paths);
    IndicesLayout(paths, |paths|, j, t);
  }

  /** Every index is a valid vertex index. */
  lemma IndicesInRange(paths: seq<Path>)
    requires Drawable(paths)
    ensures GenerateMesh(paths).Ok?
    ensures forall q :: 0 <= q < |GenerateMesh(paths).value.indices| ==>
              0 <= GenerateMesh(paths).value.indices[q] < |GenerateMesh(paths).value.vertices|
  {
    if |paths| > 0 {
      BuiltMesh(paths);
      IndicesBelowVertexCount(paths, |paths|);
    }
  }

  /** The first path's UV strip starts at 0. */
  lemma UvStripStartsAtZero(paths: seq<Path>)
    requires Drawable(paths) && |paths| > 0
    ensures GenerateMesh(paths).Ok?
    ensures VertexIndex(paths, 0, 0) < |GenerateMesh(paths).value.uvs|
    ensures GenerateMesh(paths).value.uvs[VertexIndex(paths, 0, 0)].x == 0.0
  {
    BuiltMesh(paths);
    UvsLayout(paths, |paths|, StrokeCount(paths), 0, 0);
    DivZero(EdgesBefore(paths, 0), StrokeCount(paths));
  }

  /** Each path's UV strip starts exactly where the previous path's ended. */
  lemma UvStripsContiguous(paths: seq<Path>, j: nat)
    requires Drawable(paths) && j + 1 < |paths|
    ensures GenerateMesh(paths).Ok?
    ensures VertexIndex(paths, j, |paths[j]| - 1) < VertexIndex(paths, j + 1, 0)
    ensures VertexIndex(paths, j + 1, 0) < |GenerateMesh(paths).value.uvs|
    ensures GenerateMesh(paths).value.uvs[VertexIndex(paths, j + 1, 0)]
         == GenerateMesh(paths).value.uvs[VertexIndex(paths, j, |paths[j]| - 1)]
  {
    BuiltMesh(paths);
    UvsLayout(paths, |paths|, StrokeCount(paths), j, |paths[j]| - 1);
    UvsLayout(paths, |paths|, StrokeCount(paths), j + 1, 0);
  }

  /** The last path's UV strip ends exactly at 1. */
  lemma UvStripEndsAtOne(paths: seq<Path>)
    requires Drawable(paths) && |paths| > 0
    ensures GenerateMesh(paths).Ok?
    ensures VertexIndex(paths, |paths| - 1, |paths[|paths| - 1]| - 1) < |GenerateMesh(paths).value.uvs|
    ensures GenerateMesh(paths).value.uvs[VertexIndex(paths, |paths| - 1, |paths[|paths| - 1]| - 1)].x == 1.0
  {
    var n := |paths| - 1;
    BuiltMesh(paths);
    UvsLayout(paths, |paths|, StrokeCount(paths), n, |paths[n]| - 1);
    DivSelf(StrokeCount(paths));
  }

  /** Within one path UV.x strictly increases with the point index. */
  lemma UvIncreasingAlongPath(paths: seq<Path>, j: nat, i: nat, i': nat)
    requires Drawable(paths) && j < |paths|
    requires i < i' < |paths[j]|
    ensures GenerateMesh(paths).Ok?
    ensures VertexIndex(paths, j, i') < |GenerateMesh(paths).value.uvs|
    ensures GenerateMesh(paths).value.uvs[VertexIndex(paths, j, i)].x
          < GenerateMesh(paths).value.uvs[VertexIndex(paths, j, i')].x
  {
    BuiltMesh(paths);
    UvsIncreasing(paths, StrokeCount(paths), j, i, i');
  }

  /** `UvIncreasingAlongPath` for the UVs of all paths with any positive
      stroke count. */
  lemma UvsIncreasing(paths: seq<Path>, strokeCount: int, j: nat, i: nat, i': nat)
    requires Drawable(paths) && strokeCount > 0 && j < |paths|
    requires i < i' < |paths[j]|
    ensures VertexIndex(paths, j, i') < |Uvs(paths, |paths|, strokeCount)|
    ensures Uvs(paths, |paths|, strokeCount)[VertexIndex(paths, j, i)].x
          < Uvs(paths, |paths|, strokeCount)[VertexIndex(paths, j, i')].x
  {
    var a, b := EdgesBefore(paths, j) + i, EdgesBefore(paths, j) + i';
    UvsLayout(paths, |paths|, strokeCount, j, i);
    UvsLayout(paths, |paths|, strokeCount, j, i');
    UvsOrdered(Uvs(paths, |paths|, strokeCount), VertexIndex(paths, j, i), VertexIndex(paths, j, i'), a, b, strokeCount);
  }

  /** Two UVs at `a / s` and `b / s` with `a < b` are ordered the same way. */
  lemma UvsOrdered(uvs: seq<Vec2>, p: nat, q: nat, a: int, b: int, s: int)
    requires p < |uvs| && q < |uvs| && s > 0 && a < b
    requires uvs[p] == Vec2(a as real / s as real, 1.0)
    requires uvs[q] == Vec2(b as real / s as real, 1.0)
    ensures uvs[p].x < uvs[q].x
  {
    DivLess(a, b, s);
  }

  /** A band of heights that holds every input point and the apex holds every
      vertex of the mesh. */
  lemma MeshHeightsWithin(paths: seq<Path>, lo: real, hi: real)
    requires Drawable(paths) && HeightsWithin(paths, lo, hi) && lo <= 0.0 <= hi
    ensures GenerateMesh(paths).Ok?
    ensures forall v :: 0 <= v < |GenerateMesh(paths).value.vertices| ==>
              lo <= GenerateMesh(paths).value.vertices[v].y <= hi
  {
    if |paths| > 0 {
      BuiltMesh(paths);
    }
    VerticesWithin(paths, |paths|, lo, hi);
  }
}
