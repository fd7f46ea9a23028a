/**
 * The Marching Cubes extraction step for one cell, as values: the 8-bit
 * configuration of a cell's corner samples, the interpolated crossing point
 * on an edge, the de-duplicating vertex append, and the walk along one row of
 * the triangulation table. The Chunk class runs these steps in place; the
 * functions here are what its methods are proved against.
 */
module MarchingCubes {
  import opened Vectors
  import opened CubeTables

  /** The two lists a Chunk fills: vertex positions and triangle corner indices. */
  datatype Mesh = Mesh(vertices: seq<Vec3>, triangles: seq<int>)

  const EmptyMesh := Mesh([], [])

  predicate NoDuplicates(vs: seq<Vec3>) {
    forall i, j :: 0 <= i < j < |vs| ==> vs[i] != vs[j]
  }

  predicate IndicesInRange(m: Mesh) {
    forall k :: 0 <= k < |m.triangles| ==> 0 <= m.triangles[k] < |m.vertices|
  }

  /** No two vertices are equal and every triangle index names a vertex. */
  predicate WellFormed(m: Mesh) {
    NoDuplicates(m.vertices) && IndicesInRange(m)
  }

  /** Entry `pos` of the triangle list is the index of vertex `v`. */
  predicate NamesVertex(m: Mesh, pos: int, v: Vec3) {
    0 <= pos < |m.triangles| && 0 <= m.triangles[pos] < |m.vertices| && m.vertices[m.triangles[pos]] == v
  }

  /** `after` is `before` with (possibly nothing) appended to each list. */
  predicate Extends(before: Mesh, after: Mesh) {
    && |before.vertices| <= |after.vertices|
    && (forall i :: 0 <= i < |before.vertices| ==> after.vertices[i] == before.vertices[i])
    && |before.triangles| <= |after.triangles|
    && (forall i :: 0 <= i < |before.triangles| ==> after.triangles[i] == before.triangles[i])
  }

  lemma MultiplesOfThree(a: int, b: int, sum: int)
    requires a % 3 == 0 && b % 3 == 0 && sum == a + b
    ensures sum % 3 == 0
  {
    assert sum == 3 * (a / 3 + b / 3);
  }

  lemma ExtendsTransitive(a: Mesh, b: Mesh, c: Mesh)
    requires Extends(a, b) && Extends(b, c)
    ensures Extends(a, c)
  {
  }

  lemma ExtendsKeepsNames(before: Mesh, after: Mesh, pos: int, v: Vec3)
    requires Extends(before, after) && NamesVertex(before, pos, v)
    ensures NamesVertex(after, pos, v)
  {
    assert after.triangles[pos] == before.triangles[pos];
  }

  // ---------------------------------------------------------------------------
  // Cube configuration

  /** Bit `i` of an 8-bit configuration index. */
  predicate Bit(c: bv8, i: nat)
    requires i < 8
  {
    (c >> i) & 1 == 1
  }

  /** The configuration built from the first `n` corners, one `|=` at a time. */
  function ConfigPrefix(cube: seq<real>, surface: real, n: nat): bv8
    requires |cube| == 8 && n <= 8
  {
    if n == 0 then 0
    else ConfigPrefix(cube, surface, n - 1) | (if cube[n - 1] > surface then 1 << (n - 1) else 0)
  }

  lemma {:induction false} ConfigPrefixBits(cube: seq<real>, surface: real, n: nat)
    requires |cube| == 8 && n <= 8
    ensures forall i :: 0 <= i < n ==> (Bit(ConfigPrefix(cube, surface, n), i) <==> cube[i] > surface)
    ensures forall i :: n <= i < 8 ==> !Bit(ConfigPrefix(cube, surface, n), i)
  {
    if n > 0 {
      ConfigPrefixBits(cube, surface, n - 1);
      var c := ConfigPrefix(cube, surface, n - 1);
      var mask: bv8 := if cube[n - 1] > surface then 1 << (n - 1) else 0;
      assert ConfigPrefix(cube, surface, n) == c | mask;
      forall i | 0 <= i < 8
        ensures Bit(ConfigPrefix(cube, surface, n), i) <==> Bit(c, i) || (i == n - 1 && cube[n - 1] > surface)
      {
        OrBit(c, n - 1, cube[n - 1] > surface, i);
      }
    } else {
      forall i | 0 <= i < 8
        ensures !Bit(0, i)
      {
        OrBit(0, 0, false, i);
      }
    }
  }

  lemma OrBit(c: bv8, k: nat, set_: bool, i: nat)
    requires k < 8 && i < 8
    ensures Bit(c | (if set_ then 1 << k else 0), i) <==> Bit(c, i) || (i == k && set_)
  {
  }

  /** The configuration index of a cell: all eight corners folded in. */
  function Configuration(cube: seq<real>, surface: real): bv8
    requires |cube| == 8
  {
    ConfigPrefix(cube, surface, 8)
  }

  /** Bit `i` of the configuration is set exactly when corner `i` lies
      strictly above the surface value. */
  lemma ConfigurationBits(cube: seq<real>, surface: real)
    requires |cube| == 8
    ensures forall i :: 0 <= i < 8 ==> (Bit(Configuration(cube, surface), i) <==> cube[i] > surface)
  {
    ConfigPrefixBits(cube, surface, 8);
  }

  lemma ByteBits(c: bv8)
    ensures c == 0 <==> !Bit(c, 0) && !Bit(c, 1) && !Bit(c, 2) && !Bit(c, 3)
                        && !Bit(c, 4) && !Bit(c, 5) && !Bit(c, 6) && !Bit(c, 7)
    ensures c == 255 <==> Bit(c, 0) && Bit(c, 1) && Bit(c, 2) && Bit(c, 3)
                          && Bit(c, 4) && Bit(c, 5) && Bit(c, 6) && Bit(c, 7)
  {
  }

  /** Configuration 0 means every corner is at or below the surface, and 255
      means every corner is above it. */
  lemma ConfigurationUniform(cube: seq<real>, surface: real)
    requires |cube| == 8
    ensures Configuration(cube, surface) == 0 <==> forall i :: 0 <= i < 8 ==> cube[i] <= surface
    ensures Configuration(cube, surface) == 255 <==> forall i :: 0 <= i < 8 ==> cube[i] > surface
  {
    ConfigurationBits(cube, surface);
    ByteBits(Configuration(cube, surface));
  }

  // ---------------------------------------------------------------------------
  // Edge interpolation

  /** The interpolation factor along an edge whose end samples are s1 and s2. */
  function InterpolationFactor(s1: real, s2: real, surface: real): real {
    var difference := s2 - s1;
    if difference == 0.0 then surface else (surface - s1) / difference
  }

  /** The factor is where the linear density profile from s1 to s2 meets the
      surface; it falls back to the surface value itself when the two samples
      are equal; and on an edge the surface crosses it lies in [0, 1]. */
  lemma InterpolationFactorMeaning(s1: real, s2: real, surface: real)
    ensures var t := InterpolationFactor(s1, s2, surface);
      && (s1 != s2 ==> s1 + (s2 - s1) * t == surface)
      && (s1 == s2 ==> t == surface)
      && ((s1 > surface) != (s2 > surface) ==> 0.0 <= t <= 1.0)
  {
  }

  predicate Between(a: real, b: real, c: real) {
    (a <= c <= b) || (b <= c <= a)
  }

  lemma MulNonNegative(x: real, y: real)
    requires 0.0 <= x && 0.0 <= y
    ensures 0.0 <= x * y
  {
  }

  lemma LerpBetween(a: real, b: real, t: real)
    requires 0.0 <= t <= 1.0
    ensures Between(a, b, a + (b - a) * t)
  {
    if a <= b {
      MulNonNegative(b - a, t);
      MulNonNegative(b - a, 1.0 - t);
      assert (b - a) * t + (b - a) * (1.0 - t) == b - a;
    } else {
      MulNonNegative(a - b, t);
      MulNonNegative(a - b, 1.0 - t);
      assert (a - b) * t + (a - b) * (1.0 - t) == a - b;
      assert (b - a) * t == -((a - b) * t);
    }
  }

  /** The vertex on the edge from v1 to v2: v1 + (v2 - v1) * t. */
  function Interpolate(v1: Vec3, v2: Vec3, s1: real, s2: real, surface: real): Vec3 {
    v1.Plus(v2.Minus(v1).Scale(InterpolationFactor(s1, s2, surface)))
  }

  /** On an edge the surface crosses (one end above the surface, the other
      not), the interpolated vertex lies on the segment between the ends. */
  lemma CrossingVertexOnEdge(v1: Vec3, v2: Vec3, s1: real, s2: real, surface: real)
    requires (s1 > surface) != (s2 > surface)
    ensures var v := Interpolate(v1, v2, s1, s2, surface);
      Between(v1.x, v2.x, v.x) && Between(v1.y, v2.y, v.y) && Between(v1.z, v2.z, v.z)
  {
    var t := InterpolationFactor(s1, s2, surface);
    InterpolationFactorMeaning(s1, s2, surface);
    LerpBetween(v1.x, v2.x, t);
    LerpBetween(v1.y, v2.y, t);
    LerpBetween(v1.z, v2.z, t);
  }

  /** The crossing vertex on edge `e` of the cell whose minimum corner is `cell`. */
  function EdgeVertex(t: Tables, surface: real, cell: Int3, cube: seq<real>, e: int): Vec3
    requires t.Valid() && |cube| == 8 && 0 <= e < 12
  {
    var a := t.edge[e].0;
    var b := t.edge[e].1;
    Interpolate(cell.Plus(t.corner[a]).ToVec(), cell.Plus(t.corner[b]).ToVec(), cube[a], cube[b], surface)
  }

  // ---------------------------------------------------------------------------
  // Vertex de-duplication

  /** The first position of `v` in `vs`. */
  function IndexOf(vs: seq<Vec3>, v: Vec3): (i: nat)
    requires v in vs
    ensures i < |vs| && vs[i] == v
    ensures forall j :: 0 <= j < i ==> vs[j] != v
  {
    if vs[0] == v then 0 else 1 + IndexOf(vs[1..], v)
  }

  /** The vertex list after looking `v` up and the index found: the index of
      the first equal vertex, or `v` appended at the end when there is none. */
  function Dedup(vs: seq<Vec3>, v: Vec3): (seq<Vec3>, nat) {
    if v in vs then (vs, IndexOf(vs, v)) else (vs + [v], |vs|)
  }

  /** The index found names `v` and is its first occurrence; the list only
      grows, by one vertex exactly when `v` was missing; and a list without
      duplicates keeps having none. */
  lemma DedupMeaning(vs: seq<Vec3>, v: Vec3)
    ensures var r := Dedup(vs, v);
      && r.1 < |r.0| && r.0[r.1] == v
      && (forall j :: 0 <= j < r.1 ==> r.0[j] != v)
      && |vs| <= |r.0| <= |vs| + 1 && (forall j :: 0 <= j < |vs| ==> r.0[j] == vs[j])
      && (|r.0| == |vs| <==> v in vs)
      && (NoDuplicates(vs) ==> NoDuplicates(r.0))
  {
  }

  /** One `triangles.Add(VertForIndice(v))`. */
  function AddVertex(m: Mesh, v: Vec3): Mesh {
    var (vs, i) := Dedup(m.vertices, v);
    Mesh(vs, m.triangles + [i])
  }

  /** One append extends both lists, adds exactly one triangle index, that
      index names `v`, and a well-formed mesh stays well formed. */
  lemma AddVertexAppends(m: Mesh, v: Vec3)
    ensures var r := AddVertex(m, v);
      && Extends(m, r) && |r.triangles| == |m.triangles| + 1
      && NamesVertex(r, |m.triangles|, v)
      && (WellFormed(m) ==> WellFormed(r))
  {
    DedupMeaning(m.vertices, v);
  }

  /** `triangles.Add(VertForIndice(v))` for each `v` of `vs` in order. */
  function AddVertices(m: Mesh, vs: seq<Vec3>): Mesh
    decreases |vs|
  {
    if vs == [] then m else AddVertices(AddVertex(m, vs[0]), vs[1..])
  }

  /** Adding a list of vertices only appends, one triangle index per vertex,
      and keeps a well-formed mesh well formed. */
  lemma {:induction false} AddVerticesGrows(m: Mesh, vs: seq<Vec3>)
    ensures var r := AddVertices(m, vs);
      && Extends(m, r)
      && |r.triangles| == |m.triangles| + |vs|
      && (WellFormed(m) ==> WellFormed(r))
    decreases |vs|
  {
    if vs != [] {
      var m' := AddVertex(m, vs[0]);
      AddVertexAppends(m, vs[0]);
      AddVerticesGrows(m', vs[1..]);
      ExtendsTransitive(m, m', AddVertices(m, vs));
    }
  }

  /** The j-th index appended by adding `vs` names the vertex `vs[j]`. */
  lemma {:induction false} AddVerticesNames(m: Mesh, vs: seq<Vec3>)
    ensures forall j :: 0 <= j < |vs| ==> NamesVertex(AddVertices(m, vs), |m.triangles| + j, vs[j])
    decreases |vs|
  {
    if vs != [] {
      var m' := AddVertex(m, vs[0]);
      AddVertexAppends(m, vs[0]);
      var r := AddVertices(m, vs);
      assert r == AddVertices(m', vs[1..]);
      AddVerticesGrows(m', vs[1..]);
      AddVerticesNames(m', vs[1..]);
      ExtendsKeepsNames(m', r, |m.triangles|, vs[0]);
      forall j | 1 <= j < |vs|
        ensures NamesVertex(r, |m.triangles| + j, vs[j])
      {
        assert vs[j] == vs[1..][j - 1];
        assert NamesVertex(r, |m'.triangles| + (j - 1), vs[1..][j - 1]);
      }
    }
  }

  // ---------------------------------------------------------------------------
  // One cell

  /** The crossing vertices listed by a triangulation row, read left to right
      from entry `k` up to the first sentinel and never past entry 15: the
      crossing vertex of each listed edge, in row order. */
  function CrossingVertices(t: Tables, surface: real, cell: Int3, cube: seq<real>, row: seq<int>, k: nat): seq<Vec3>
    requires t.Valid() && |cube| == 8 && ValidRow(row) && k <= MaxIndicesPerCell
  {
    var stop := StopIndex(row, k);
    seq(stop - k, j requires 0 <= j < stop - k => EdgeVertex(t, surface, cell, cube, row[k + j]))
  }

  /** There is one crossing vertex per entry before the walk's stop, and each
      is the crossing vertex of the edge at that entry. */
  lemma CrossingVerticesShape(t: Tables, surface: real, cell: Int3, cube: seq<real>, row: seq<int>, k: nat)
    requires t.Valid() && |cube| == 8 && ValidRow(row) && k <= MaxIndicesPerCell
    ensures var vs := CrossingVertices(t, surface, cell, cube, row, k);
      && |vs| == StopIndex(row, k) - k
      && forall j :: 0 <= j < |vs| ==> 0 <= row[k + j] < 12 && vs[j] == EdgeVertex(t, surface, cell, cube, row[k + j])
  {
  }

  /** One step of the walk: a non-sentinel entry's crossing vertex comes
      first, followed by the walk from the next entry. */
  lemma CrossingVerticesUnfold(t: Tables, surface: real, cell: Int3, cube: seq<real>, row: seq<int>, k: nat)
    requires t.Valid() && |cube| == 8 && ValidRow(row) && k < MaxIndicesPerCell && row[k] != Sentinel
    ensures CrossingVertices(t, surface, cell, cube, row, k)
         == [EdgeVertex(t, surface, cell, cube, row[k])] + CrossingVertices(t, surface, cell, cube, row, k + 1)
  {
    var vs := CrossingVertices(t, surface, cell, cube, row, k);
    var rest := CrossingVertices(t, surface, cell, cube, row, k + 1);
    assert StopIndex(row, k) == StopIndex(row, k + 1);
    forall j | 1 <= j < |vs|
      ensures vs[j] == rest[j - 1]
    {
      assert k + j == (k + 1) + (j - 1);
    }
  }

  /** The same step on the mesh: adding the walk from a non-sentinel entry is
      adding that entry's crossing vertex and then the walk from the next. */
  lemma CrossingVerticesStep(t: Tables, surface: real, m: Mesh, cell: Int3, cube: seq<real>, row: seq<int>, k: nat)
    requires t.Valid() && |cube| == 8 && ValidRow(row) && k < MaxIndicesPerCell && row[k] != Sentinel
    ensures AddVertices(m, CrossingVertices(t, surface, cell, cube, row, k))
         == AddVertices(AddVertex(m, EdgeVertex(t, surface, cell, cube, row[k])), CrossingVertices(t, surface, cell, cube, row, k + 1))
  {
    var v := EdgeVertex(t, surface, cell, cube, row[k]);
    var rest := CrossingVertices(t, surface, cell, cube, row, k + 1);
    CrossingVerticesUnfold(t, surface, cell, cube, row, k);
    assert ([v] + rest)[1..] == rest;
  }

  /** MarchCube's effect on the mesh for one cell with corner samples `cube`. */
  function MarchCell(t: Tables, surface: real, m: Mesh, cell: Int3, cube: seq<real>): Mesh
    requires t.Valid() && |cube| == 8
  {
    var c := Configuration(cube, surface);
    if c == 0 || c == 255 then m
    else AddVertices(m, CrossingVertices(t, surface, cell, cube, t.triangle[c as int], 0))
  }

  /** A cell entirely above, or entirely at-or-below, the surface adds nothing. */
  lemma UniformCellAddsNothing(t: Tables, surface: real, m: Mesh, cell: Int3, cube: seq<real>)
    requires t.Valid() && |cube| == 8
    requires (forall i :: 0 <= i < 8 ==> cube[i] > surface) || (forall i :: 0 <= i < 8 ==> cube[i] <= surface)
    ensures MarchCell(t, surface, m, cell, cube) == m
  {
    ConfigurationUniform(cube, surface);
  }

  /** One cell appends whole triangles, at most 15 indices: one per entry of
      its configuration's row before the sentinel, and none for configurations
      0 and 255. The lists only grow and stay well formed. */
  lemma MarchCellAppends(t: Tables, surface: real, m: Mesh, cell: Int3, cube: seq<real>)
    requires t.Valid() && |cube| == 8
    ensures var r := MarchCell(t, surface, m, cell, cube);
      var c := Configuration(cube, surface);
      var added := if c == 0 || c == 255 then 0 else StopIndex(t.triangle[c as int], 0);
      && Extends(m, r)
      && |r.triangles| == |m.triangles| + added
      && added <= MaxIndicesPerCell && added % 3 == 0
      && (WellFormed(m) ==> WellFormed(r))
  {
    var c := Configuration(cube, surface);
    if c != 0 && c != 255 {
      var row := t.triangle[c as int];
      assert ValidRow(row) && StopIndex(row, 0) % 3 == 0;
      CrossingVerticesShape(t, surface, cell, cube, row, 0);
      AddVerticesGrows(m, CrossingVertices(t, surface, cell, cube, row, 0));
    }
  }

  /** With a table that lists a triangle for every crossed configuration, a
      cell the surface passes through (configuration neither 0 nor 255)
      appends at least one whole triangle. */
  lemma NonUniformCellAddsTriangle(t: Tables, surface: real, m: Mesh, cell: Int3, cube: seq<real>)
    requires t.Valid() && t.CrossedRowsNonEmpty() && |cube| == 8
    requires Configuration(cube, surface) != 0 && Configuration(cube, surface) != 255
    ensures |MarchCell(t, surface, m, cell, cube).triangles| >= |m.triangles| + 3
  {
    var c := Configuration(cube, surface);
    assert 0 < c as int < 255 && StopIndex(t.triangle[c as int], 0) >= 3;
    MarchCellAppends(t, surface, m, cell, cube);
  }

  /** The part of MarchCellAppends a pass over many cells composes: the mesh
      only grows, stays well formed, and keeps holding whole triangles. */
  lemma MarchCellGrows(t: Tables, surface: real, m: Mesh, cell: Int3, cube: seq<real>)
    requires t.Valid() && |cube| == 8
    ensures var r := MarchCell(t, surface, m, cell, cube);
      && Extends(m, r)
      && (WellFormed(m) ==> WellFormed(r))
      && (|m.triangles| % 3 == 0 ==> |r.triangles| % 3 == 0)
  {
    var c := Configuration(cube, surface);
    var added := if c == 0 || c == 255 then 0 else StopIndex(t.triangle[c as int], 0);
    MarchCellAppends(t, surface, m, cell, cube);
    if |m.triangles| % 3 == 0 {
      MultiplesOfThree(|m.triangles|, added, |MarchCell(t, surface, m, cell, cube).triangles|);
    }
  }

  /** Each index a non-uniform cell appends names the crossing vertex the walk
      over its configuration's row produced at that position (which
      CrossingVerticesShape identifies as the crossing vertex of the edge listed
      at that position of the row). */
  lemma MarchCellIndices(t: Tables, surface: real, m: Mesh, cell: Int3, cube: seq<real>)
    requires t.Valid() && |cube| == 8
    requires Configuration(cube, surface) != 0 && Configuration(cube, surface) != 255
    ensures var vs := CrossingVertices(t, surface, cell, cube, t.triangle[Configuration(cube, surface) as int], 0);
      forall j :: 0 <= j < |vs| ==> NamesVertex(MarchCell(t, surface, m, cell, cube), |m.triangles| + j, vs[j])
  {
    var row := t.triangle[Configuration(cube, surface) as int];
    assert ValidRow(row);
    var vs := CrossingVertices(t, surface, cell, cube, row, 0);
    assert MarchCell(t, surface, m, cell, cube) == AddVertices(m, vs);
    AddVerticesNames(m, vs);
  }
}
