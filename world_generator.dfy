/**
 * The world's chunk grid: a dictionary from integer chunk origins to chunks,
 * filled once by a nested loop and queried by truncating a world position to
 * integers and looking up exactly that key.
 */
module ChunkGrid {
  import opened Wrappers
  import opened Vectors
  import opened MarchingCubes
  import opened Chunks

  /** The origin of grid chunk (x, z): its minimum corner in world units. */
  function ChunkOrigin(x: int, z: int, chunkWidth: int): Int3 {
    Int3(x * chunkWidth, 0, z * chunkWidth)
  }

  /** Origins of the chunks the generation loop has added before it reaches
      chunk (x, z): every earlier row, then the first z chunks of row x. */
  ghost function OriginsBefore(x: int, z: int, n: int, chunkWidth: int): set<Int3> {
    set i, j | 0 <= i <= x && 0 <= j < n && (i < x || j < z) :: ChunkOrigin(i, j, chunkWidth)
  }

  /** The same origins in the order the loop adds them: chunk (x, z - 1) last,
      or, at the start of a row, the whole of the previous row last. */
  ghost function Added(x: nat, z: nat, n: int, chunkWidth: int): set<Int3>
    decreases x, z
  {
    if z > 0 then Added(x, z - 1, n, chunkWidth) + {ChunkOrigin(x, z - 1, chunkWidth)}
    else if x > 0 && n > 0 then Added(x - 1, n, n, chunkWidth)
    else {}
  }

  /** Origins of all n x n grid chunks. */
  ghost function GridOrigins(n: int, chunkWidth: int): set<Int3> {
    set i, j | 0 <= i < n && 0 <= j < n :: ChunkOrigin(i, j, chunkWidth)
  }

  /** Distinct grid coordinates give distinct origins when chunks have a
      positive width, so the generation loop never adds a key twice. */
  lemma ChunkOriginInjective(x1: int, z1: int, x2: int, z2: int, chunkWidth: int)
    requires chunkWidth > 0
    ensures ChunkOrigin(x1, z1, chunkWidth) == ChunkOrigin(x2, z2, chunkWidth) <==> x1 == x2 && z1 == z2
  {
    if x1 != x2 {
      MulDiffers(x1, x2, chunkWidth);
    }
    if z1 != z2 {
      MulDiffers(z1, z2, chunkWidth);
    }
  }

  lemma MulDiffers(a: int, b: int, w: int)
    requires w > 0 && a != b
    ensures a * w != b * w
  {
    if a < b {
      assert b * w - a * w == (b - a) * w;
    } else {
      assert a * w - b * w == (a - b) * w;
    }
  }

  /** A point is a grid origin exactly when it lies on the ground plane and
      both horizontal coordinates are non-negative multiples of the chunk
      width no greater than (n - 1) times it. */
  lemma GridOriginsShape(n: int, chunkWidth: int, k: Int3)
    requires chunkWidth > 0
    ensures k in GridOrigins(n, chunkWidth) <==>
      && k.y == 0
      && k.x % chunkWidth == 0 && 0 <= k.x <= (n - 1) * chunkWidth
      && k.z % chunkWidth == 0 && 0 <= k.z <= (n - 1) * chunkWidth
  {
    var w := chunkWidth;
    if k in GridOrigins(n, w) {
      var i, j :| 0 <= i < n && 0 <= j < n && k == ChunkOrigin(i, j, w);
      MultipleBounds(i, n, w);
      MultipleBounds(j, n, w);
    }
    if k.y == 0 && k.x % w == 0 && 0 <= k.x <= (n - 1) * w && k.z % w == 0 && 0 <= k.z <= (n - 1) * w {
      var i, j := k.x / w, k.z / w;
      QuotientBounds(k.x, n, w);
      QuotientBounds(k.z, n, w);
      assert k == ChunkOrigin(i, j, w);
    }
  }

  lemma MultipleBounds(i: int, n: int, w: int)
    requires w > 0 && 0 <= i < n
    ensures (i * w) % w == 0 && 0 <= i * w <= (n - 1) * w
  {
    MulDivCancel(i, w);
    MulAtLeastZero(i, w);
    MulAtLeastZero(n - 1 - i, w);
    assert (n - 1) * w - i * w == (n - 1 - i) * w;
  }

  lemma MulAtLeastZero(d: int, w: int)
    requires d >= 0 && w > 0
    ensures d * w >= 0
    decreases d
  {
    if d > 0 {
      MulAtLeastZero(d - 1, w);
      assert d * w == (d - 1) * w + w;
    }
  }

  /** Only a zero multiple of w lies in [0, w). */
  lemma SmallMultiple(d: int, w: int, r: int)
    requires w > 0 && 0 <= r < w && d * w == r
    ensures d == 0
  {
    if d >= 1 {
      MulAtLeastZero(d - 1, w);
      assert false;
    } else if d <= -1 {
      MulAtLeastZero(-d - 1, w);
      assert false;
    }
  }

  lemma MulDivCancel(i: int, w: int)
    requires w > 0
    ensures (i * w) / w == i && (i * w) % w == 0
  {
    var q, r := (i * w) / w, (i * w) % w;
    assert i * w == q * w + r;
    assert (i - q) * w == i * w - q * w;
    SmallMultiple(i - q, w, r);
  }

  lemma QuotientBounds(a: int, n: int, w: int)
    requires w > 0 && a % w == 0 && 0 <= a <= (n - 1) * w
    ensures a == (a / w) * w && 0 <= a / w < n
  {
    var q := a / w;
    assert a == q * w + a % w;
    if q < 0 {
      MulAtLeastZero(-q, w);
      assert false;
    }
    if q >= n {
      MulAtLeastZero(q - n, w);
      assert false;
    }
  }

  /** With the default chunk width of 16, a 2 x 2 world has exactly these four
      chunk origins. */
  lemma TwoByTwoWorld()
    ensures GridOrigins(2, 16) == {Int3(0, 0, 0), Int3(16, 0, 0), Int3(0, 0, 16), Int3(16, 0, 16)}
  {
    var expected := {Int3(0, 0, 0), Int3(16, 0, 0), Int3(0, 0, 16), Int3(16, 0, 16)};
    assert ChunkOrigin(0, 0, 16) in GridOrigins(2, 16);
    assert ChunkOrigin(1, 0, 16) in GridOrigins(2, 16);
    assert ChunkOrigin(0, 1, 16) in GridOrigins(2, 16);
    assert ChunkOrigin(1, 1, 16) in GridOrigins(2, 16);
    forall k | k in GridOrigins(2, 16)
      ensures k in expected
    {
      var i, j :| 0 <= i < 2 && 0 <= j < 2 && k == ChunkOrigin(i, j, 16);
    }
  }

  /** Adding the origin of chunk (x, z) to those before it gives those before
      its successor in the row. */
  lemma OriginsBeforeStep(x: int, z: int, n: int, w: int)
    requires 0 <= x && 0 <= z < n
    ensures OriginsBefore(x, z + 1, n, w) == OriginsBefore(x, z, n, w) + {ChunkOrigin(x, z, w)}
  {
    assert ChunkOrigin(x, z, w) in OriginsBefore(x, z + 1, n, w);
  }

  /** Finishing row x is starting row x + 1. */
  lemma OriginsBeforeRow(x: int, n: int, w: int)
    requires 0 <= x && 0 <= n
    ensures OriginsBefore(x, n, n, w) == OriginsBefore(x + 1, 0, n, w)
  {
    forall k | k in OriginsBefore(x + 1, 0, n, w)
      ensures k in OriginsBefore(x, n, n, w)
    {
      var i, j :| 0 <= i <= x + 1 && 0 <= j < n && (i < x + 1 || j < 0) && k == ChunkOrigin(i, j, w);
    }
  }

  /** The origin the loop is about to add is not among those already added. */
  lemma NotYetAdded(x: int, z: int, n: int, w: int)
    requires w > 0 && 0 <= x && 0 <= z
    ensures ChunkOrigin(x, z, w) !in OriginsBefore(x, z, n, w)
  {
    if ChunkOrigin(x, z, w) in OriginsBefore(x, z, n, w) {
      var i, j :| 0 <= i <= x && 0 <= j < n && (i < x || j < z) && ChunkOrigin(x, z, w) == ChunkOrigin(i, j, w);
      ChunkOriginInjective(x, z, i, j, w);
    }
  }

  /** Adding origins one at a time yields exactly the origins before (x, z). */
  lemma {:induction false} AddedIsOriginsBefore(x: nat, z: nat, n: int, w: int)
    requires z <= n || z == 0
    ensures Added(x, z, n, w) == OriginsBefore(x, z, n, w)
    decreases x, z
  {
    if z > 0 {
      AddedIsOriginsBefore(x, z - 1, n, w);
      OriginsBeforeStep(x, z - 1, n, w);
    } else if x > 0 && n > 0 {
      AddedIsOriginsBefore(x - 1, n, n, w);
      OriginsBeforeRow(x - 1, n, w);
    } else if x > 0 {
      assert OriginsBefore(x, z, n, w) == {};
    }
  }

  /** The origin about to be added is not among those added so far. */
  lemma NotYetInserted(x: nat, z: nat, n: int, w: int)
    requires w > 0 && z < n
    ensures ChunkOrigin(x, z, w) !in Added(x, z, n, w)
  {
    AddedIsOriginsBefore(x, z, n, w);
    NotYetAdded(x, z, n, w);
  }

  /** The loop adds a new origin at every step, so after x full rows and z
      more chunks it has added x * n + z of them. */
  lemma {:induction false} AddedCount(x: nat, z: nat, n: int, w: int)
    requires w > 0 && z <= n
    ensures |Added(x, z, n, w)| == x * n + z
    decreases x, z
  {
    if z > 0 {
      AddedCount(x, z - 1, n, w);
      NotYetInserted(x, z - 1, n, w);
    } else if x > 0 {
      AddedCount(x - 1, n, n, w);
      assert (x - 1) * n + n == x * n;
    }
  }

  /** Every origin the loop adds is a grid origin. */
  lemma InGrid(x: int, z: int, n: int, w: int)
    requires 0 <= x < n && 0 <= z < n
    ensures ChunkOrigin(x, z, w) in GridOrigins(n, w)
  {
  }

  /** Once every row is done, exactly the grid origins have been added. */
  lemma AllAdded(x: nat, n: int, w: int)
    requires x == n || (n < 0 && x == 0)
    ensures Added(x, 0, n, w) == GridOrigins(n, w)
  {
    AddedIsOriginsBefore(x, 0, n, w);
    if n < 0 {
      assert OriginsBefore(x, 0, n, w) == {} == GridOrigins(n, w);
    } else {
      assert OriginsBefore(x, 0, n, w) == GridOrigins(n, w);
    }
  }

  class WorldGenerator {
    const worldSizeInChunks: int
    const gameData: GameData
    var chunks: map<Int3, Chunk>

    /** Chunks have a positive width, the lookup tables are well formed, and
        every chunk was made from these settings for the key it is stored under. */
    predicate Valid()
      reads this
    {
      && gameData.chunkWidth > 0
      && gameData.tables.Valid()
      && AllMadeFor()
    }

    /** Every chunk was made from these settings for the key it is stored under. */
    predicate AllMadeFor()
      reads this
    {
      forall k :: k in chunks ==> MadeFor(chunks[k], k)
    }

    /** A chunk made for origin `key` from this generator's settings. */
    predicate MadeFor(c: Chunk, key: Int3) {
      && c.Shaped()
      && c.chunkPosition == key
      && c.width == gameData.chunkWidth && c.height == gameData.chunkHeight
      && c.terrainSurface == gameData.terrainSurface && c.tables == gameData.tables
    }

    /** Every stored chunk can be edited and rebuilt. */
    lemma StoredChunkValid(k: Int3)
      requires Valid() && k in chunks
      ensures chunks[k].Valid() && chunks[k].chunkPosition == k
    {
    }

    constructor(size: int, data: GameData)
      requires data.chunkWidth > 0 && data.tables.Valid()
      ensures Valid() && worldSizeInChunks == size && gameData == data && chunks == map[]
    {
      worldSizeInChunks := size;
      gameData := data;
      chunks := map[];
    }

    /** Adds one new chunk for every grid coordinate (x, z) in
        [0, worldSizeInChunks)^2, keyed by its origin; nothing is removed or
        replaced. */
    method Generate()
      requires Valid()
      requires chunks.Keys !! GridOrigins(worldSizeInChunks, gameData.chunkWidth)
      modifies this`chunks
      ensures Valid()
      ensures chunks.Keys == old(chunks).Keys + GridOrigins(worldSizeInChunks, gameData.chunkWidth)
      ensures forall k :: k in old(chunks) ==> chunks[k] == old(chunks)[k]
      ensures forall k :: k in chunks && k !in old(chunks) ==> fresh(chunks[k])
      ensures worldSizeInChunks >= 0 ==> |chunks| == |old(chunks)| + worldSizeInChunks * worldSizeInChunks
    {
      var n := worldSizeInChunks;
      var w := gameData.chunkWidth;
      var x := 0;
      while x < n
        invariant 0 <= x && (x <= n || x == 0)
        invariant AllMadeFor()
        invariant chunks.Keys == old(chunks).Keys + Added(x, 0, n, w)
        invariant forall k :: k in old(chunks) ==> k in chunks && chunks[k] == old(chunks)[k]
        invariant forall k :: k in chunks && k !in old(chunks) ==> fresh(chunks[k])
      {
        GenerateRow(x, old(chunks));
        x := x + 1;
      }
      AllAdded(x, n, w);
      if n >= 0 {
        AddedCount(x, 0, n, w);
      }
    }

    /** The inner loop of Generate: adds the chunks of grid row x, given that
        the rows before it were added onto `start`. */
    method GenerateRow(x: nat, ghost start: map<Int3, Chunk>)
      requires Valid() && x < worldSizeInChunks
      requires start.Keys !! GridOrigins(worldSizeInChunks, gameData.chunkWidth)
      requires chunks.Keys == start.Keys + Added(x, 0, worldSizeInChunks, gameData.chunkWidth)
      requires forall k :: k in start ==> k in chunks && chunks[k] == start[k]
      modifies this`chunks
      ensures AllMadeFor()
      ensures chunks.Keys == start.Keys + Added(x + 1, 0, worldSizeInChunks, gameData.chunkWidth)
      ensures forall k :: k in old(chunks) ==> k in chunks && chunks[k] == old(chunks)[k]
      ensures forall k :: k in chunks && k !in old(chunks) ==> fresh(chunks[k])
    {
      var n := worldSizeInChunks;
      var w := gameData.chunkWidth;
      var z := 0;
      while z < n
        invariant 0 <= z <= n
        invariant AllMadeFor()
        invariant chunks.Keys == start.Keys + Added(x, z, n, w)
        invariant forall k :: k in old(chunks) ==> k in chunks && chunks[k] == old(chunks)[k]
        invariant forall k :: k in chunks && k !in old(chunks) ==> fresh(chunks[k])
      {
        var chunkPos := ChunkOrigin(x, z, w);
        InGrid(x, z, n, w);
        NotYetInserted(x, z, n, w);
        var chunk := NewChunk(chunkPos);
        chunks := chunks[chunkPos := chunk];
        assert Added(x, z + 1, n, w) == Added(x, z, n, w) + {chunkPos};
        z := z + 1;
      }
    }

    /** A fresh chunk for origin `pos` built from this generator's settings,
        its field filled from the height function and its lists holding the
        mesh extracted from that field. */
    method NewChunk(pos: Int3) returns (c: Chunk)
      requires gameData.tables.Valid()
      ensures fresh(c) && MadeFor(c, pos)
      ensures c.Populated(gameData.terrainHeight)
      ensures Mesh(c.vertices, c.triangles) == c.ExtractedMesh()
    {
      c := new Chunk(pos, gameData);
    }

    /** The chunk stored under the point's coordinates truncated toward zero,
        or None where the dictionary indexer would throw. */
    function GetChunkFromVector3(pos: Vec3): (r: Option<Chunk>)
      reads this
      ensures r.Some? <==> pos.Truncate() in chunks
      ensures r.Some? ==> r.value == chunks[pos.Truncate()]
    {
      var key := pos.Truncate();
      if key in chunks then Some(chunks[key]) else None
    }

    /** After generation on an empty grid a lookup finds a chunk exactly when
        the truncated point is a grid origin, and that chunk's position is the
        truncated point itself. */
    lemma LookupAfterGenerate(pos: Vec3)
      requires Valid() && chunks.Keys == GridOrigins(worldSizeInChunks, gameData.chunkWidth)
      ensures var k := pos.Truncate(); var w := gameData.chunkWidth; var n := worldSizeInChunks;
        GetChunkFromVector3(pos).Some? <==>
          && k.y == 0
          && k.x % w == 0 && 0 <= k.x <= (n - 1) * w
          && k.z % w == 0 && 0 <= k.z <= (n - 1) * w
      ensures GetChunkFromVector3(pos).Some? ==> GetChunkFromVector3(pos).value.chunkPosition == pos.Truncate()
    {
      GridOriginsShape(worldSizeInChunks, gameData.chunkWidth, pos.Truncate());
    }
  }
}
