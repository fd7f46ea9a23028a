/**
 * One terrain chunk: a density field of (width+1) x (height+1) x (width+1)
 * samples, written in place, and the mesh extracted from it with Marching
 * Cubes into two lists that are cleared and rebuilt on every change.
 */
module Chunks {
  import opened Vectors
  import opened CubeTables
  import opened MarchingCubes

  /** The static settings the terrain code reads from the GameData class:
      chunk size in cells, the surface value, the lookup tables and the
      noise-based height function. */
  datatype GameData = GameData(
    chunkWidth: nat,
    chunkHeight: nat,
    terrainSurface: real,
    tables: Tables,
    terrainHeight: (int, int) -> real)

  class Chunk {
    const chunkPosition: Int3
    const width: nat
    const height: nat
    const terrainSurface: real
    const tables: Tables
    const terrainMap: array3<real>
    var vertices: seq<Vec3>
    var triangles: seq<int>

    /** The field has one more sample than cells along every axis. */
    predicate Shaped() {
      && terrainMap.Length0 == width + 1
      && terrainMap.Length1 == height + 1
      && terrainMap.Length2 == width + 1
    }

    /** A well-shaped field and well-formed lookup tables. */
    predicate Valid() {
      tables.Valid() && Shaped()
    }

    /** A lattice point of the density field. */
    predicate InField(p: Int3) {
      0 <= p.x <= width && 0 <= p.y <= height && 0 <= p.z <= width
    }

    /** The minimum corner of a cell. */
    predicate InCells(p: Int3) {
      0 <= p.x < width && 0 <= p.y < height && 0 <= p.z < width
    }

    function SampleTerrain(p: Int3): real
      reads terrainMap
      requires Valid() && InField(p)
    {
      terrainMap[p.x, p.y, p.z]
    }

    /** Every corner of a cell is a lattice point of the field, so the eight
        samples MarchCube reads are all in bounds. */
    lemma CellCornersInField(cell: Int3, i: int)
      requires Valid() && InCells(cell) && 0 <= i < 8
      ensures InField(cell.Plus(tables.corner[i]))
    {
    }

    /** The eight corner samples of a cell, in corner-table order. */
    function CubeAt(cell: Int3): (cube: seq<real>)
      reads terrainMap
      requires Valid() && InCells(cell)
      ensures |cube| == 8
    {
      seq(8, i requires 0 <= i < 8 reads terrainMap =>
        CellCornersInField(cell, i);
        SampleTerrain(cell.Plus(tables.corner[i])))
    }

    /** The sample the terrain height function gives lattice point (x, y, z):
        its height above the terrain surface at that column. */
    function InitialSample(terrainHeight: (int, int) -> real, x: int, y: int, z: int): real {
      y as real - terrainHeight(x + chunkPosition.x, z + chunkPosition.z)
    }

    ghost predicate Populated(terrainHeight: (int, int) -> real)
      reads terrainMap
      requires Valid()
    {
      forall x, y, z :: 0 <= x <= width && 0 <= y <= height && 0 <= z <= width ==>
        terrainMap[x, y, z] == InitialSample(terrainHeight, x, y, z)
    }

    // -------------------------------------------------------------------------
    // The extraction pass, as a function of the field

    /** Cells (x, y, 0) .. (x, y, z-1) marched onto m. */
    function MeshZ(m: Mesh, x: int, y: int, z: nat): Mesh
      reads terrainMap
      requires Valid() && 0 <= x < width && 0 <= y < height && z <= width
    {
      if z == 0 then m
      else
        var cell := Int3(x, y, z - 1);
        MarchCell(tables, terrainSurface, MeshZ(m, x, y, z - 1), cell, CubeAt(cell))
    }

    lemma MeshZStep(m: Mesh, x: int, y: int, z: nat)
      requires Valid() && 0 <= x < width && 0 <= y < height && z < width
      ensures MeshZ(m, x, y, z + 1) == MarchCell(tables, terrainSurface, MeshZ(m, x, y, z), Int3(x, y, z), CubeAt(Int3(x, y, z)))
    {
    }

    /** Columns (x, 0) .. (x, y-1) marched onto m. */
    function MeshY(m: Mesh, x: int, y: nat): Mesh
      reads terrainMap
      requires Valid() && 0 <= x < width && y <= height
    {
      if y == 0 then m else MeshZ(MeshY(m, x, y - 1), x, y - 1, width)
    }

    lemma MeshYStep(m: Mesh, x: int, y: nat)
      requires Valid() && 0 <= x < width && y < height
      ensures MeshY(m, x, y + 1) == MeshZ(MeshY(m, x, y), x, y, width)
    {
    }

    /** Slabs 0 .. x-1 marched onto m. */
    function MeshX(m: Mesh, x: nat): Mesh
      reads terrainMap
      requires Valid() && x <= width
    {
      if x == 0 then m else MeshY(MeshX(m, x - 1), x - 1, height)
    }

    /** The mesh one full pass over all width x height x width cells builds,
        starting from empty lists. */
    function ExtractedMesh(): Mesh
      reads terrainMap
      requires Valid()
    {
      MeshX(EmptyMesh, width)
    }

    lemma {:induction false} MeshZGrows(m: Mesh, x: int, y: int, z: nat)
      requires Valid() && 0 <= x < width && 0 <= y < height && z <= width
      ensures var r := MeshZ(m, x, y, z);
        && Extends(m, r)
        && (WellFormed(m) ==> WellFormed(r))
        && (|m.triangles| % 3 == 0 ==> |r.triangles| % 3 == 0)
    {
      if z > 0 {
        var cell := Int3(x, y, z - 1);
        var m' := MeshZ(m, x, y, z - 1);
        var cube := CubeAt(cell);
        var r := MeshZ(m, x, y, z);
        assert r == MarchCell(tables, terrainSurface, m', cell, cube);
        MeshZGrows(m, x, y, z - 1);
        MarchCellGrows(tables, terrainSurface, m', cell, cube);
        ExtendsTransitive(m, m', r);
      }
    }

    lemma {:induction false} MeshYGrows(m: Mesh, x: int, y: nat)
      requires Valid() && 0 <= x < width && y <= height
      ensures var r := MeshY(m, x, y);
        && Extends(m, r)
        && (WellFormed(m) ==> WellFormed(r))
        && (|m.triangles| % 3 == 0 ==> |r.triangles| % 3 == 0)
    {
      if y > 0 {
        var m' := MeshY(m, x, y - 1);
        var r := MeshY(m, x, y);
        assert r == MeshZ(m', x, y - 1, width);
        MeshYGrows(m, x, y - 1);
        MeshZGrows(m', x, y - 1, width);
        ExtendsTransitive(m, m', r);
      }
    }

    lemma {:induction false} MeshXGrows(m: Mesh, x: nat)
      requires Valid() && x <= width
      ensures var r := MeshX(m, x);
        && Extends(m, r)
        && (WellFormed(m) ==> WellFormed(r))
        && (|m.triangles| % 3 == 0 ==> |r.triangles| % 3 == 0)
    {
      if x > 0 {
        var m' := MeshX(m, x - 1);
        var r := MeshX(m, x);
        assert r == MeshY(m', x - 1, height);
        MeshXGrows(m, x - 1);
        MeshYGrows(m', x - 1, height);
        ExtendsTransitive(m, m', r);
      }
    }

    /** The extracted mesh has no two equal vertices, every triangle index
        names a vertex, and the index list holds whole triangles. */
    lemma ExtractedMeshWellFormed()
      requires Valid()
      ensures WellFormed(ExtractedMesh())
      ensures |ExtractedMesh().triangles| % 3 == 0
    {
      MeshXGrows(EmptyMesh, width);
    }

    /** Every sample above the surface, or every sample at or below it. */
    predicate UniformField()
      reads terrainMap
      requires Valid()
    {
      || (forall x, y, z :: 0 <= x <= width && 0 <= y <= height && 0 <= z <= width ==> terrainMap[x, y, z] > terrainSurface)
      || (forall x, y, z :: 0 <= x <= width && 0 <= y <= height && 0 <= z <= width ==> terrainMap[x, y, z] <= terrainSurface)
    }

    lemma {:induction false} UniformMeshZ(m: Mesh, x: int, y: int, z: nat)
      requires Valid() && UniformField() && 0 <= x < width && 0 <= y < height && z <= width
      ensures MeshZ(m, x, y, z) == m
    {
      if z > 0 {
        var cell := Int3(x, y, z - 1);
        UniformMeshZ(m, x, y, z - 1);
        UniformCube(cell);
        MeshZStep(m, x, y, z - 1);
        UniformCellAddsNothing(tables, terrainSurface, m, cell, CubeAt(cell));
      }
    }

    /** In a uniform field every cell's corners lie on one side of the surface. */
    lemma UniformCube(cell: Int3)
      requires Valid() && UniformField() && InCells(cell)
      ensures var cube := CubeAt(cell);
        || (forall i :: 0 <= i < 8 ==> cube[i] > terrainSurface)
        || (forall i :: 0 <= i < 8 ==> cube[i] <= terrainSurface)
    {
      var cube := CubeAt(cell);
      forall i | 0 <= i < 8
        ensures cube[i] == terrainMap[cell.Plus(tables.corner[i]).x, cell.Plus(tables.corner[i]).y, cell.Plus(tables.corner[i]).z]
      {
        CellCornersInField(cell, i);
      }
    }

    lemma {:induction false} UniformMeshY(m: Mesh, x: int, y: nat)
      requires Valid() && UniformField() && 0 <= x < width && y <= height
      ensures MeshY(m, x, y) == m
    {
      if y > 0 {
        UniformMeshY(m, x, y - 1);
        assert MeshY(m, x, y) == MeshZ(m, x, y - 1, width);
        UniformMeshZ(m, x, y - 1, width);
      }
    }

    lemma {:induction false} UniformMeshX(m: Mesh, x: nat)
      requires Valid() && UniformField() && x <= width
      ensures MeshX(m, x) == m
    {
      if x > 0 {
        UniformMeshX(m, x - 1);
        assert MeshX(m, x) == MeshY(m, x - 1, height);
        UniformMeshY(m, x - 1, height);
      }
    }

    /** A field entirely above (air) or entirely at-or-below (solid) the
        surface yields no vertices and no triangles. */
    lemma UniformFieldHasNoSurface()
      requires Valid() && UniformField()
      ensures ExtractedMesh() == EmptyMesh
    {
      UniformMeshX(EmptyMesh, width);
    }

    // -------------------------------------------------------------------------
    // The methods

    constructor(position: Int3, data: GameData)
      requires data.tables.Valid()
      ensures Valid() && fresh(terrainMap)
      ensures chunkPosition == position && width == data.chunkWidth && height == data.chunkHeight
      ensures terrainSurface == data.terrainSurface && tables == data.tables
      ensures Populated(data.terrainHeight)
      ensures Mesh(vertices, triangles) == ExtractedMesh()
    {
      chunkPosition := position;
      width := data.chunkWidth;
      height := data.chunkHeight;
      terrainSurface := data.terrainSurface;
      tables := data.tables;
      vertices := [];
      triangles := [];
      terrainMap := new real[data.chunkWidth + 1, data.chunkHeight + 1, data.chunkWidth + 1];
      new;
      PopulateTerrainMap(data.terrainHeight);
      CreateMeshData();
    }

    /** Fills every sample of the field from the height function. */
    method PopulateTerrainMap(terrainHeight: (int, int) -> real)
      requires Valid()
      modifies terrainMap
      ensures Populated(terrainHeight)
    {
      for x := 0 to width + 1
        invariant forall x', y', z' :: 0 <= x' < x && 0 <= y' <= height && 0 <= z' <= width ==>
          terrainMap[x', y', z'] == InitialSample(terrainHeight, x', y', z')
      {
        for z := 0 to width + 1
          invariant forall x', y', z' :: 0 <= x' < x && 0 <= y' <= height && 0 <= z' <= width ==>
            terrainMap[x', y', z'] == InitialSample(terrainHeight, x', y', z')
          invariant forall y', z' :: 0 <= y' <= height && 0 <= z' < z ==>
            terrainMap[x, y', z'] == InitialSample(terrainHeight, x, y', z')
        {
          for y := 0 to height + 1
            invariant forall x', y', z' :: 0 <= x' < x && 0 <= y' <= height && 0 <= z' <= width ==>
              terrainMap[x', y', z'] == InitialSample(terrainHeight, x', y', z')
            invariant forall y', z' :: 0 <= y' <= height && 0 <= z' < z ==>
              terrainMap[x, y', z'] == InitialSample(terrainHeight, x, y', z')
            invariant forall y' :: 0 <= y' < y ==>
              terrainMap[x, y', z] == InitialSample(terrainHeight, x, y', z)
          {
            var thisHeight := terrainHeight(x + chunkPosition.x, z + chunkPosition.z);
            terrainMap[x, y, z] := y as real - thisHeight;
          }
        }
      }
    }

    method ClearMeshData()
      modifies this`vertices, this`triangles
      ensures vertices == [] && triangles == []
    {
      vertices := [];
      triangles := [];
    }

    /** The index of the first vertex equal to `vert`, appending `vert` first
        when there is none. */
    method VertForIndice(vert: Vec3) returns (index: nat)
      modifies this`vertices
      ensures (vertices, index) == Dedup(old(vertices), vert)
    {
      var i := 0;
      while i < |vertices|
        invariant 0 <= i <= |vertices| && vertices == old(vertices)
        invariant forall j :: 0 <= j < i ==> vertices[j] != vert
      {
        if vertices[i] == vert {
          return i;
        }
        i := i + 1;
      }
      vertices := vertices + [vert];
      index := |vertices| - 1;
    }

    /** The configuration index of the eight samples in `cube`. */
    method GetCubeConfiguration(cube: array<real>) returns (configurationIndex: bv8)
      requires cube.Length == 8
      ensures configurationIndex == Configuration(cube[..], terrainSurface)
      ensures forall i :: 0 <= i < 8 ==> (Bit(configurationIndex, i) <==> cube[i] > terrainSurface)
    {
      configurationIndex := 0;
      for i := 0 to 8
        invariant configurationIndex == ConfigPrefix(cube[..], terrainSurface, i)
      {
        if cube[i] > terrainSurface {
          configurationIndex := configurationIndex | (1 << i);
        }
      }
      ConfigurationBits(cube[..], terrainSurface);
    }

    /** Marches one cell: appends to the lists exactly what MarchCell does. */
    method MarchCube(position: Int3)
      requires Valid() && InCells(position)
      modifies this`vertices, this`triangles
      ensures Mesh(vertices, triangles)
        == MarchCell(tables, terrainSurface, old(Mesh(vertices, triangles)), position, CubeAt(position))
    {
      ghost var samples := CubeAt(position);
      var cube := new real[8];
      for i := 0 to 8
        modifies cube
        invariant forall j :: 0 <= j < i ==> cube[j] == samples[j]
      {
        CellCornersInField(position, i);
        cube[i] := SampleTerrain(position.Plus(tables.corner[i]));
      }
      assert cube[..] == samples;

      var configIndex := GetCubeConfiguration(cube);
      if configIndex == 0 || configIndex == 255 {
        return;
      }

      MarchEdges(position, cube, configIndex);
    }

    /** The second half of MarchCube: for a cell whose configuration is neither
        0 nor 255, walks the configuration's triangulation row, at most 5
        triangles of 3 entries, stopping at the first sentinel, and adds the
        crossing vertex of every listed edge. */
    method MarchEdges(position: Int3, cube: array<real>, configIndex: bv8)
      requires Valid() && InCells(position) && cube.Length == 8
      requires configIndex != 0 && configIndex != 255
      modifies this`vertices, this`triangles
      ensures Mesh(vertices, triangles)
        == AddVertices(old(Mesh(vertices, triangles)),
                       CrossingVertices(tables, terrainSurface, position, cube[..], tables.triangle[configIndex as int], 0))
    {
      ghost var samples := cube[..];
      ghost var row := tables.triangle[configIndex as int];
      ghost var goal := AddVertices(Mesh(vertices, triangles), CrossingVertices(tables, terrainSurface, position, samples, row, 0));
      var edgeIndex := 0;
      for i := 0 to 5
        invariant edgeIndex == 3 * i
        invariant AddVertices(Mesh(vertices, triangles), CrossingVertices(tables, terrainSurface, position, samples, row, edgeIndex)) == goal
      {
        for p := 0 to 3
          invariant edgeIndex == 3 * i + p
          invariant AddVertices(Mesh(vertices, triangles), CrossingVertices(tables, terrainSurface, position, samples, row, edgeIndex)) == goal
        {
          var indice := tables.triangle[configIndex as int][edgeIndex];
          if indice == -1 {
            return;
          }
          // The edge's end corners, their samples, and the point between
          // them where the samples cross the surface.
          var vertPosition := EdgeVertex(tables, terrainSurface, position, cube[..], indice);

          ghost var before := Mesh(vertices, triangles);
          CrossingVerticesStep(tables, terrainSurface, before, position, samples, row, edgeIndex);

          var index := VertForIndice(vertPosition);
          triangles := triangles + [index];
          assert Mesh(vertices, triangles) == AddVertex(before, vertPosition);
          edgeIndex := edgeIndex + 1;
        }
      }
    }

    /** Rebuilds both lists from scratch with one pass over every cell. */
    method CreateMeshData()
      requires Valid()
      modifies this`vertices, this`triangles
      ensures Mesh(vertices, triangles) == ExtractedMesh()
    {
      ClearMeshData();
      for x := 0 to width
        invariant Mesh(vertices, triangles) == MeshX(EmptyMesh, x)
      {
        ghost var slabStart := MeshX(EmptyMesh, x);
        for y := 0 to height
          invariant Mesh(vertices, triangles) == MeshY(slabStart, x, y)
        {
          MarchColumn(x, y, slabStart);
        }
      }
    }

    /** The innermost loop of CreateMeshData: cells (x, y, 0) .. (x, y, width-1),
        which complete column y of slab x. */
    method MarchColumn(x: int, y: int, ghost slabStart: Mesh)
      requires Valid() && 0 <= x < width && 0 <= y < height
      requires Mesh(vertices, triangles) == MeshY(slabStart, x, y)
      modifies this`vertices, this`triangles
      ensures Mesh(vertices, triangles) == MeshY(slabStart, x, y + 1)
    {
      ghost var columnStart := Mesh(vertices, triangles);
      for z := 0 to width
        invariant Mesh(vertices, triangles) == MeshZ(columnStart, x, y, z)
      {
        MarchCube(Int3(x, y, z));
        MeshZStep(columnStart, x, y, z);
      }
      MeshYStep(slabStart, x, y);
    }

    /** Sets the sample at the ceiling of `pos` (in chunk coordinates) to 0
        and rebuilds the mesh. */
    method PlaceTerrain(pos: Vec3)
      requires Valid() && InField(pos.Ceil().Minus(chunkPosition))
      modifies terrainMap, this`vertices, this`triangles
      ensures var p := pos.Ceil().Minus(chunkPosition); terrainMap[p.x, p.y, p.z] == 0.0
      ensures forall x, y, z ::
                (0 <= x <= width && 0 <= y <= height && 0 <= z <= width && Int3(x, y, z) != pos.Ceil().Minus(chunkPosition))
                ==> terrainMap[x, y, z] == old(terrainMap[x, y, z])
      ensures Mesh(vertices, triangles) == ExtractedMesh()
    {
      var v3Int := pos.Ceil();
      v3Int := v3Int.Minus(chunkPosition);
      terrainMap[v3Int.x, v3Int.y, v3Int.z] := 0.0;
      CreateMeshData();
    }

    /** Sets the sample at the floor of `pos` (in chunk coordinates) to 1 and
        rebuilds the mesh. */
    method RemoveTerrain(pos: Vec3)
      requires Valid() && InField(pos.Floor().Minus(chunkPosition))
      modifies terrainMap, this`vertices, this`triangles
      ensures var p := pos.Floor().Minus(chunkPosition); terrainMap[p.x, p.y, p.z] == 1.0
      ensures forall x, y, z ::
                (0 <= x <= width && 0 <= y <= height && 0 <= z <= width && Int3(x, y, z) != pos.Floor().Minus(chunkPosition))
                ==> terrainMap[x, y, z] == old(terrainMap[x, y, z])
      ensures Mesh(vertices, triangles) == ExtractedMesh()
    {
      var v3Int := pos.Floor();
      v3Int := v3Int.Minus(chunkPosition);
      terrainMap[v3Int.x, v3Int.y, v3Int.z] := 1.0;
      CreateMeshData();
    }
  }
}
