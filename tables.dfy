/**
 * The three Marching Cubes lookup tables (GameData.CornerTable,
 * GameData.EdgeIndexes and GameData.TriangleTable). Their contents are not
 * part of this model; they are a parameter, and Valid() states the shape the
 * extraction code relies on.
 */
module CubeTables {
  import opened Vectors

  /** The value that ends a row of the triangulation table. */
  const Sentinel := -1
  /** A cell never yields more than 5 triangles of 3 corners each. */
  const MaxIndicesPerCell := 15

  /** A triangulation row: 16 entries, each an edge number 0..11 or the sentinel. */
  predicate ValidRow(row: seq<int>) {
    |row| == 16 && forall k :: 0 <= k < 16 ==> Sentinel <= row[k] <= 11
  }

  /** Where a left-to-right walk over `row` that starts at `k` stops: at the
      first sentinel at or after `k`, and never later than entry 15. */
  function StopIndex(row: seq<int>, k: nat): (s: nat)
    requires ValidRow(row) && k <= MaxIndicesPerCell
    ensures k <= s <= MaxIndicesPerCell
    ensures forall j :: k <= j < s ==> row[j] != Sentinel
    ensures s < MaxIndicesPerCell ==> row[s] == Sentinel
    decreases MaxIndicesPerCell - k
  {
    if k == MaxIndicesPerCell || row[k] == Sentinel then k else StopIndex(row, k + 1)
  }

  datatype Tables = Tables(corner: seq<Int3>, edge: seq<(int, int)>, triangle: seq<seq<int>>) {
    /** Corner offsets lie in {0,1}^3, edge endpoints are corner numbers 0..7,
        and each of the 256 triangulation rows is well formed and lists whole
        triangles before its sentinel. */
    predicate Valid() {
      && |corner| == 8
      && (forall i :: 0 <= i < 8 ==>
            0 <= corner[i].x <= 1 && 0 <= corner[i].y <= 1 && 0 <= corner[i].z <= 1)
      && |edge| == 12
      && (forall e :: 0 <= e < 12 ==> 0 <= edge[e].0 < 8 && 0 <= edge[e].1 < 8)
      && |triangle| == 256
      && (forall c :: 0 <= c < 256 ==> ValidRow(triangle[c]) && StopIndex(triangle[c], 0) % 3 == 0)
    }

    /** Every configuration other than 0 and 255 (a cell the surface passes
        through) lists at least one triangle. A fact about the table's
        contents, kept apart from Valid() because only the lemma about
        non-empty cells needs it. */
    predicate CrossedRowsNonEmpty()
      requires Valid()
    {
      forall c :: 0 < c < 255 ==> StopIndex(triangle[c], 0) >= 3
    }
  }
}
