# Marching Cubes voxel terrain: chunk meshing, chunk grid and game clock

This project is a Dafny model of the core of a small Unity voxel-terrain game. It has three parts.

- **Chunk** (`Chunks.Chunk`, in `chunk.dfy`). A chunk holds a density field of
  `(width+1) x (height+1) x (width+1)` samples, `terrainMap`.
  - The field is first filled from a terrain height function. Each sample is its height `y` minus the terrain height of its column.
  - The Marching Cubes algorithm then turns the field into two lists: `vertices`, and `triangles`, which holds vertex indices.
  - Each cell's eight corner samples give an 8-bit configuration. Bit `i` is set exactly when corner `i` lies above the surface value.
  - The configuration selects a row of the triangulation table. That row is read up to its `-1` sentinel.
  - Each listed edge contributes the point where the samples cross the surface. This point is found by linear interpolation.
  - Each point is de-duplicated against the vertex list by a linear search before its index is appended.
  - Placing terrain sets the sample at the ceiling of the point to 0. Removing terrain sets the sample at its floor to 1. Both edits then clear the mesh and rebuild it from scratch.

  The pure parts are modelled as functions on values in `marching_cubes.dfy`, and the class methods are proved against them. That covers the configuration, the interpolation, the de-duplicating append and the walk over one cell. Vector arithmetic and rounding are in `vectors.dfy`. The lookup tables are in `tables.dfy`.
- **Chunk grid** (`ChunkGrid.WorldGenerator`, in `world_generator.dfy`). This is a dictionary from integer chunk origins to chunks.
  - `Generate` fills it with a nested loop over a `WorldSizeInChunks x WorldSizeInChunks` grid. Each chunk is keyed `(x*ChunkWidth, 0, z*ChunkWidth)`.
  - `GetChunkFromVector3` truncates a world position toward zero and looks up exactly that key.
- **Game clock** (`GameClock.World`, in `game_clock.dfy`).
  - The time of day is a minute counter. Setting it past 1439 wraps it to 0 and advances the day number.
  - Every change rewrites the clock label as `DAY: <day> TIME: <hh>:<mm>`. The hours and minutes are padded to two digits. The day is shown in red on horde nights, which are the days divisible by the horde frequency.

Some things the game reads are not shown in its sources. These are the static `GameData` class, with chunk sizes, the surface value, the three Marching Cubes lookup tables and the Perlin-noise height function. In the model they become a `GameData` value that is passed to the constructors. The tables are a `CubeTables.Tables` value whose `Valid()` states the shape the extraction code relies on:
- 8 corner offsets in `{0,1}^3`;
- 12 edges between corners 0..7;
- 256 rows of 16 entries in `-1..11`, each listing whole triangles before its sentinel.

A second table predicate, `Tables.CrossedRowsNonEmpty()`, says that every configuration other than 0 and 255 lists at least one triangle. The standard Marching Cubes triangulation table has this property. Only the lemma about cells the surface passes through requires it.

Densities and positions are mathematical reals. Chunk origins, loop counters and the clock are mathematical integers.

The comment in front of `GetCubeConfiguration` (Chunk.cs) speaks of corners "below" the surface, but the code sets a bit when a sample is greater than the surface value. The model follows the code.

## Model

| member | source | states |
|---|---|---|
| Vectors.FloorToInt | 05-game-time-day-night-cycle/Chunk.cs:168-175 | `Mathf.FloorToInt` on reals: the largest integer not above the value |
| Vectors.CeilToInt | 05-game-time-day-night-cycle/Chunk.cs:159-166 | `Mathf.CeilToInt` on reals: the smallest integer not below the value |
| Vectors.TruncToInt | 05-game-time-day-night-cycle/WorldGenerator.cs:40-42 | the `(int)` cast rounds toward zero: floor for non-negative values, ceiling for negative ones |
| Vectors.TruncVersusFloor | 05-game-time-day-night-cycle/WorldGenerator.cs:40-42 | truncation and floor differ exactly on negative non-integers, and then by one |
| Vectors.CeilFloorGap | 05-game-time-day-night-cycle/Chunk.cs:159-175 | ceiling and floor agree exactly on integers and otherwise differ by one |
| Vectors.LatticeRoundTrip | 05-game-time-day-night-cycle/Chunk.cs:159-175 | an integer point converted to reals rounds back to itself under floor, ceiling and truncation |
| Vectors.EditTargetsCoincide | 05-game-time-day-night-cycle/Chunk.cs:159-175 | place and remove edit the same sample exactly when the point is a lattice point; otherwise their targets differ by at most one per axis |
| CubeTables.StopIndex | 05-game-time-day-night-cycle/Chunk.cs:100-109 | the walk over a triangulation row stops at the first `-1` sentinel, or after 15 entries when there is none |
| MarchingCubes.ConfigPrefixBits | 05-game-time-day-night-cycle/Chunk.cs:142-157 | after `i` loop steps exactly the bits of the corners before `i` that lie above the surface are set, and no higher bit |
| MarchingCubes.OrBit | 05-game-time-day-night-cycle/Chunk.cs:151-152 | or-ing in `1 << i` sets bit `i` and keeps every other bit |
| MarchingCubes.ConfigurationBits | 05-game-time-day-night-cycle/Chunk.cs:142-157 | bit `i` of the configuration is set exactly when `cube[i] > terrainSurface`, so the value is a byte in 0..255 |
| MarchingCubes.ByteBits | 05-game-time-day-night-cycle/Chunk.cs:96-97 | a configuration is 0 exactly when no bit is set and 255 exactly when all eight are set |
| MarchingCubes.ConfigurationUniform | 05-game-time-day-night-cycle/Chunk.cs:93-97 | configuration 0 means all eight corners are at or below the surface; 255 means all are above |
| MarchingCubes.InterpolationFactorMeaning | 05-game-time-day-night-cycle/Chunk.cs:118-128 | the factor is where the linear profile from `s1` to `s2` meets the surface; it equals the surface value when the samples are equal; it lies in [0, 1] on an edge the surface crosses |
| MarchingCubes.LerpBetween | 05-game-time-day-night-cycle/Chunk.cs:131 | `a + (b - a) * t` lies between `a` and `b` for `t` in [0, 1] |
| MarchingCubes.CrossingVertexOnEdge | 05-game-time-day-night-cycle/Chunk.cs:112-131 | on a crossed edge the vertex `vert1 + (vert2 - vert1) * t` lies on the segment between the edge's corners |
| MarchingCubes.IndexOf | 05-game-time-day-night-cycle/Chunk.cs:185-193 | the index found names the vertex and is its first occurrence |
| MarchingCubes.DedupMeaning | 05-game-time-day-night-cycle/Chunk.cs:183-198 | the returned index names `vert` and is its first occurrence; the list grows by one vertex exactly when `vert` was missing; it never shrinks and stays duplicate-free |
| MarchingCubes.AddVertexAppends | 05-game-time-day-night-cycle/Chunk.cs:134 | `triangles.Add(VertForIndice(v))` appends one index that names `v`, only extends both lists, and keeps a well-formed mesh well formed |
| MarchingCubes.AddVerticesGrows | 05-game-time-day-night-cycle/Chunk.cs:100-139 | adding a sequence of crossing vertices appends one index per vertex and keeps the mesh duplicate-free with every index in range |
| MarchingCubes.AddVerticesNames | 05-game-time-day-night-cycle/Chunk.cs:131-134 | the j-th appended index names the j-th vertex added |
| MarchingCubes.CrossingVerticesShape | 05-game-time-day-night-cycle/Chunk.cs:100-131 | the walk yields one crossing vertex per row entry before the sentinel (at most 15), the j-th being the interpolated vertex of the edge listed at that position, an edge number in 0..11 |
| MarchingCubes.CrossingVerticesUnfold | 05-game-time-day-night-cycle/Chunk.cs:104-134 | reading a non-sentinel entry puts its crossing vertex first, followed by the walk from the next entry |
| MarchingCubes.CrossingVerticesStep | 05-game-time-day-night-cycle/Chunk.cs:104-136 | one iteration of the inner loop: adding the vertex of entry `k` and then the rest of the row is the same as adding the rest from `k` |
| MarchingCubes.UniformCellAddsNothing | 05-game-time-day-night-cycle/Chunk.cs:93-97 | a cell entirely above, or entirely at or below, the surface appends nothing to either list |
| MarchingCubes.MarchCellAppends | 05-game-time-day-night-cycle/Chunk.cs:93-139 | one cell appends exactly as many indices as its row has entries before the sentinel, a multiple of 3 and at most 15 (none for configurations 0 and 255); it only appends and keeps the mesh well formed |
| MarchingCubes.NonUniformCellAddsTriangle | 05-game-time-day-night-cycle/Chunk.cs:93-139 | with a table that lists a triangle for every crossed configuration, a cell with configuration other than 0 and 255 appends at least one whole triangle (3 indices) |
| MarchingCubes.MarchCellGrows | 05-game-time-day-night-cycle/Chunk.cs:82-140 | one cell only extends the lists, keeps them well formed and keeps the triangle list a whole number of triangles |
| MarchingCubes.MarchCellIndices | 05-game-time-day-night-cycle/Chunk.cs:100-134 | every index a non-uniform cell appends names the crossing vertex computed at that position of the walk |
| MarchingCubes.ExtendsTransitive | 05-game-time-day-night-cycle/Chunk.cs:41-59 | appending in two passes is appending |
| MarchingCubes.ExtendsKeepsNames | 05-game-time-day-night-cycle/Chunk.cs:134 | later appends never change which vertex an earlier index names |
| Chunks.Chunk.CellCornersInField | 05-game-time-day-night-cycle/Chunk.cs:85-90 | every corner a cell samples is inside the density field, so the lookups are in bounds |
| Chunks.Chunk.CubeAt | 05-game-time-day-night-cycle/Chunk.cs:85-90 | a cell has exactly eight corner samples, in corner-table order |
| Chunks.Chunk.MeshZStep | 05-game-time-day-night-cycle/Chunk.cs:48-53 | the inner loop's step: marching one more cell of a column is one `MarchCell` on the mesh so far |
| Chunks.Chunk.MeshYStep | 05-game-time-day-night-cycle/Chunk.cs:47-54 | the middle loop's step: one more column is a full inner pass over z |
| Chunks.Chunk.MeshZGrows | 05-game-time-day-night-cycle/Chunk.cs:48-53 | marching a column only extends the lists, keeps them well formed and keeps whole triangles |
| Chunks.Chunk.MeshYGrows | 05-game-time-day-night-cycle/Chunk.cs:47-54 | the same for a slab of columns |
| Chunks.Chunk.MeshXGrows | 05-game-time-day-night-cycle/Chunk.cs:46-55 | the same for a set of slabs |
| Chunks.Chunk.ExtractedMeshWellFormed | 05-game-time-day-night-cycle/Chunk.cs:41-59 | a full rebuild from empty lists yields duplicate-free vertices, triangle indices that all name a vertex, and a whole number of triangles |
| Chunks.Chunk.UniformCube | 05-game-time-day-night-cycle/Chunk.cs:85-97 | in a field with no sample on one side of the surface, every cell's corners lie on the same side |
| Chunks.Chunk.UniformMeshZ | 05-game-time-day-night-cycle/Chunk.cs:48-53 | in such a field a column adds nothing |
| Chunks.Chunk.UniformMeshY | 05-game-time-day-night-cycle/Chunk.cs:47-54 | in such a field a slab adds nothing |
| Chunks.Chunk.UniformMeshX | 05-game-time-day-night-cycle/Chunk.cs:46-55 | in such a field the whole pass adds nothing |
| Chunks.Chunk.UniformFieldHasNoSurface | 05-game-time-day-night-cycle/Chunk.cs:41-59 | a field entirely above, or entirely at or below, the surface yields an empty mesh |
| Chunks.Chunk.constructor | 05-game-time-day-night-cycle/Chunk.cs:23-39 | a new chunk has a freshly allocated field of the right shape filled from the height function, and its lists hold the mesh extracted from that field |
| Chunks.Chunk.PopulateTerrainMap | 05-game-time-day-night-cycle/Chunk.cs:61-80 | every sample becomes its height `y` minus the terrain height of its world column |
| Chunks.Chunk.ClearMeshData | 05-game-time-day-night-cycle/Chunk.cs:200-205 | both lists become empty |
| Chunks.Chunk.VertForIndice | 05-game-time-day-night-cycle/Chunk.cs:183-198 | the vertex list and index afterwards are what `Dedup` gives: the first equal vertex's index, or `vert` appended and its new index |
| Chunks.Chunk.GetCubeConfiguration | 05-game-time-day-night-cycle/Chunk.cs:142-157 | bit `i` of the result is set exactly when `cube[i] > terrainSurface`; the result equals `Configuration` |
| Chunks.Chunk.MarchCube | 05-game-time-day-night-cycle/Chunk.cs:82-140 | the lists afterwards are `MarchCell` of the lists before, applied to the cell's eight samples from the field |
| Chunks.Chunk.MarchEdges | 05-game-time-day-night-cycle/Chunk.cs:100-139 | for a non-uniform cell the lists afterwards are the lists before plus the crossing vertices of the row's edges, appended in row order until the sentinel |
| Chunks.Chunk.MarchColumn | 05-game-time-day-night-cycle/Chunk.cs:48-53 | the innermost loop advances the lists from `MeshY(y)` to `MeshY(y + 1)` |
| Chunks.Chunk.CreateMeshData | 05-game-time-day-night-cycle/Chunk.cs:41-59 | afterwards the lists equal `ExtractedMesh()`, a function of the field alone, so rebuilding an unchanged field gives identical lists |
| Chunks.Chunk.PlaceTerrain | 05-game-time-day-night-cycle/Chunk.cs:159-166 | the sample at `ceil(pos) - chunkPosition` becomes 0, every other sample is unchanged, and the lists are the mesh of the edited field |
| Chunks.Chunk.RemoveTerrain | 05-game-time-day-night-cycle/Chunk.cs:168-175 | the sample at `floor(pos) - chunkPosition` becomes 1, every other sample is unchanged, and the lists are the mesh of the edited field |
| ChunkGrid.ChunkOriginInjective | 05-game-time-day-night-cycle/WorldGenerator.cs:26-27 | for a positive chunk width distinct grid cells get distinct keys, so `Dictionary.Add` never meets a duplicate |
| ChunkGrid.GridOriginsShape | 05-game-time-day-night-cycle/WorldGenerator.cs:23-26 | a key is generated exactly when its y is 0 and its x and z are non-negative multiples of the chunk width no greater than `(WorldSizeInChunks-1)*ChunkWidth` |
| ChunkGrid.TwoByTwoWorld | 05-game-time-day-night-cycle/WorldGenerator.cs:23-27 | a 2 x 2 world of 16-wide chunks has the four origins (0,0,0), (16,0,0), (0,0,16) and (16,0,16) |
| ChunkGrid.OriginsBeforeStep | 05-game-time-day-night-cycle/WorldGenerator.cs:24-27 | one inner iteration adds exactly the origin of chunk (x, z) |
| ChunkGrid.OriginsBeforeRow | 05-game-time-day-night-cycle/WorldGenerator.cs:23-31 | finishing row x is starting row x + 1 |
| ChunkGrid.NotYetAdded | 05-game-time-day-night-cycle/WorldGenerator.cs:26-27 | the key about to be added is not among the keys added before it |
| ChunkGrid.AddedIsOriginsBefore | 05-game-time-day-night-cycle/WorldGenerator.cs:23-31 | the keys added in loop order are the keys of every earlier row plus the first z of row x |
| ChunkGrid.NotYetInserted | 05-game-time-day-night-cycle/WorldGenerator.cs:26-27 | the same in loop order |
| ChunkGrid.AddedCount | 05-game-time-day-night-cycle/WorldGenerator.cs:23-31 | after x full rows and z chunks the loop has added exactly `x*n + z` distinct keys |
| ChunkGrid.InGrid | 05-game-time-day-night-cycle/WorldGenerator.cs:26 | every key the loop builds is a grid origin |
| ChunkGrid.AllAdded | 05-game-time-day-night-cycle/WorldGenerator.cs:23-31 | when the outer loop ends, the keys added are exactly the grid origins |
| ChunkGrid.WorldGenerator.StoredChunkValid | 05-game-time-day-night-cycle/WorldGenerator.cs:11-27 | every stored chunk has a well-shaped field and sits at the origin it is keyed under |
| ChunkGrid.WorldGenerator.constructor | 05-game-time-day-night-cycle/WorldGenerator.cs:7-11 | the dictionary starts empty |
| ChunkGrid.WorldGenerator.Generate | 05-game-time-day-night-cycle/WorldGenerator.cs:19-36 | the keys become the old keys plus exactly the `WorldSizeInChunks`² grid origins; old entries are kept; new chunks are freshly made for their own origin; the count grows by exactly `WorldSizeInChunks`² |
| ChunkGrid.WorldGenerator.GenerateRow | 05-game-time-day-night-cycle/WorldGenerator.cs:24-30 | one row of the outer loop adds the row's origins, keeps every entry already there, and makes each new chunk fresh |
| ChunkGrid.WorldGenerator.NewChunk | 05-game-time-day-night-cycle/WorldGenerator.cs:27 | `new Chunk(chunkPos)` is a fresh chunk made for that origin from the shared settings, its field filled from the height function and its lists holding the mesh extracted from that field |
| ChunkGrid.WorldGenerator.GetChunkFromVector3 | 05-game-time-day-night-cycle/WorldGenerator.cs:38-46 | the lookup succeeds exactly when the point truncated toward zero is a stored key and returns that key's chunk; otherwise it fails and nothing is created |
| ChunkGrid.WorldGenerator.LookupAfterGenerate | 05-game-time-day-night-cycle/WorldGenerator.cs:23-46 | after generation a lookup succeeds exactly when the truncated point is a grid origin, and the chunk found sits at that point |
| GameClock.CsRemSmall | 06-our-first-zombie/World.cs:25 | the C# remainder is smaller in magnitude than the divisor |
| GameClock.CsRemZero | 06-our-first-zombie/World.cs:25 | the C# remainder, which truncates toward zero, is zero exactly when the mathematical remainder is |
| GameClock.SmallMultipleIsZero | 06-our-first-zombie/World.cs:25 | a multiple of `b` smaller in magnitude than `b` is zero |
| GameClock.NatToString | 06-our-first-zombie/World.cs:94-96 | `ToString()` of a non-negative day is a non-empty string of decimal digits without leading zeros |
| GameClock.NatToStringRoundTrip | 06-our-first-zombie/World.cs:94-96 | reading back the digits `ToString()` writes gives the number |
| GameClock.D2TwoDigits | 06-our-first-zombie/World.cs:98-99 | below 100, `ToString("D2")` writes exactly the tens and units digits, which read back as the number |
| GameClock.D2Wide | 06-our-first-zombie/World.cs:98-99 | from 10 up, `"D2"` adds no padding |
| GameClock.D2Negative | 06-our-first-zombie/World.cs:98-99 | a negative number is written as a minus sign followed by at least two digits |
| GameClock.SplitMinutes | 06-our-first-zombie/World.cs:89-90 | `hours*60 + minutes == t`; for `t >= 0`, `hours == t/60` and `0 <= minutes < 60`; for negative `t` both are non-positive |
| GameClock.HordeNight | 06-our-first-zombie/World.cs:23-30 | defined exactly when the frequency is non-zero, and then true exactly when the day is divisible by the frequency |
| GameClock.ClockText | 06-our-first-zombie/World.cs:87-101 | the label text exists exactly when the horde-night test does not divide by zero |
| GameClock.ClockTextShape | 06-our-first-zombie/World.cs:89-99 | within a day the label is `"DAY: "`, the day text (wrapped in red exactly on horde nights), `" TIME: "` and five characters `hh:mm`: two-digit fields that read back as an hour below 24 and a minute below 60 making up `t` |
| GameClock.TimeFields | 06-our-first-zombie/World.cs:99 | two-digit hour and minute fields joined by `:` show the time they came from |
| GameClock.TicksCount | 06-our-first-zombie/World.cs:42-51 | starting within a day, n ticks advance the minute by n modulo 1440, add one day per wrap, and keep the time in [0, 1439] |
| GameClock.World.constructor | 06-our-first-zombie/World.cs:11-35 | the defaults: day from 240 to 1360, so the day length is 1120 minutes; a horde every 7th day; day 1 at minute 0; the label starts blank, an arbitrary value (the scene supplies the real first text) |
| GameClock.World.IsHordeNight | 06-our-first-zombie/World.cs:23-30 | true exactly when `Day % HordeNightFrequency == 0`; undefined when the frequency is 0 |
| GameClock.World.UpdateClock | 06-our-first-zombie/World.cs:87-101 | the label becomes the clock text of the current day and time; when the horde test would divide by zero it fails and the label is unchanged |
| GameClock.World.SetTimeOfDay | 06-our-first-zombie/World.cs:42-53 | a value above 1439 stores 0 and advances the day by exactly one; any other value is stored unchanged with the same day; then the label is rewritten |
| GameClock.World.Update | 06-our-first-zombie/World.cs:119-130 | when the tick fires, the clock advances by one minute (wrapping at midnight) and the label becomes the clock text of the new day and time, or stays unchanged when the horde test would divide by zero; otherwise nothing changes; a time within the day stays within the day |

Some definitions have no row. They carry no contract of their own: the members above state what they mean.
- `MarchingCubes.Configuration` (Chunk.cs:142-157) is described by `ConfigurationBits` and `ConfigurationUniform`.
- `InterpolationFactor` (Chunk.cs:118-128) is described by `InterpolationFactorMeaning`.
- `Interpolate` (Chunk.cs:131) and `EdgeVertex` (Chunk.cs:112-131) are described by `CrossingVertexOnEdge`.
- `Dedup` (Chunk.cs:183-198) is described by `DedupMeaning` and `Chunks.Chunk.VertForIndice`.
- `AddVertex` and `AddVertices` (Chunk.cs:134) are described by `AddVertexAppends`, `AddVerticesGrows` and `AddVerticesNames`.
- `CrossingVertices` (Chunk.cs:100-136) is described by `CrossingVerticesShape` and `CrossingVerticesUnfold`.
- `MarchCell` (Chunk.cs:82-140) is described by the `MarchCell*` lemmas and `Chunks.Chunk.MarchCube`.
- `Chunks.Chunk.SampleTerrain` (Chunk.cs:177-181) is a plain read of the field, used by `CubeAt` and `MarchCube`.
- `MeshZ`, `MeshY`, `MeshX` and `ExtractedMesh` (Chunk.cs:46-55) are the three loops as functions. They are described by the `Mesh*Step`, `Mesh*Grows` and `Uniform*` lemmas and by `CreateMeshData`.
- `ChunkGrid.ChunkOrigin` and `GridOrigins` (WorldGenerator.cs:23-26) are described by `ChunkOriginInjective`, `GridOriginsShape` and `TwoByTwoWorld`.
- `GameClock.CsDiv` and `CsRem` (World.cs:25, 89) are described by `SplitMinutes`, `CsRemSmall` and `CsRemZero`.
- `D2` and `IntToString` (World.cs:94-99) are described by the `D2*` lemmas, `NatToString` and `NatToStringRoundTrip`.
- `DayText` (World.cs:92-96) is described by `ClockTextShape`.
- `SetTime` and `Tick` (World.cs:42-51, 126) are described by `TicksCount` and `World.SetTimeOfDay`.
- `World.DayLength` (World.cs:13) is described by `World.constructor`.

## Left out

- Unity's `Vector3 ==` compares within a small tolerance. The model compares vertices exactly, on reals, so `VertForIndice` may merge fewer vertices than the game does. Float rounding in the interpolation and in the density samples is not modelled.
- The GameObject, MeshFilter, MeshCollider and MeshRenderer setup, `Resources.Load`, the tag, and `BuildMesh` with `RecalculateNormals` (Chunk.cs:25-34, 207-216) are foreign rendering calls. The mesh is the pair of lists the model keeps, which `BuildMesh` would hand to the engine.
- GameData.cs is not part of this model. Its three lookup tables and its Perlin-noise `GetTerrainHeight` are parameters. The tables are assumed to have the shape `Tables.Valid()` states, including that every row lists whole triangles before its sentinel.
- Sun rotation (World.cs:14-15, 55-82) is float angle arithmetic written to a Transform.
- `Awake`'s singleton check and `Destroy` (World.cs:103-117) are engine lifecycle.
- In `Update`, the float `secondCounter`, `Time.deltaTime` and `ClockSpeed` (World.cs:119-129) become the boolean `tickFires`.
- In `Generate`, the loading screen, `SetParent(World.Instance.transform)` and `Debug.Log` are UI and scene-graph calls.
- 32-bit wrap-around is not modelled: chunk origins, day numbers and minute counts are unbounded integers.
- C# exceptions become failure results or preconditions:
  - a lookup of a missing key gives `None`;
  - a zero horde frequency makes `HordeNight`, `ClockText` and `UpdateClock` report failure;
  - out-of-range edits are excluded by `PlaceTerrain`/`RemoveTerrain`'s preconditions.
- ChunkGrid.WorldGenerator.Generate: the contract pins down the keys, which chunks are kept and which are fresh, and that each new chunk was made for its own origin from the shared settings.
  - It does not restate each new chunk's field and mesh. `NewChunk`, which builds every new chunk, and the `Chunks.Chunk.constructor` contract state those.
  - It requires the existing keys to be disjoint from the grid, because a duplicate `Dictionary.Add` throws. `Start` calls it on an empty dictionary.
- Chunks.Chunk.MarchCube, Chunks.Chunk.CreateMeshData and ChunkGrid.WorldGenerator.Generate have their loops split into helper methods:
  - MarchCube's edge walk is `MarchEdges`;
  - CreateMeshData's innermost loop is `MarchColumn`;
  - Generate's outer loop body is `GenerateRow`;
  - `new Chunk` is `NewChunk`.

  Each helper keeps the source's order of operations.
- MarchingCubes.MarchCellIndices: states that the j-th appended index names the j-th vertex of `CrossingVertices`. The link from that vertex to the interpolated vertex of the j-th row entry is `CrossingVerticesShape`, a separate lemma.
- MarchingCubes.NonUniformCellAddsTriangle: the table's contents are not part of this model. So that every crossed configuration yields a triangle is a property the lemma requires of the table (`CrossedRowsNonEmpty`), not one proved about the game's actual table.
- Vectors.EditTargetsCoincide: place followed by remove at the same point edits the same sample only at lattice points. The model states this and does not claim a round trip.
