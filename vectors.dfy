/**
 * Integer lattice points (Unity's Vector3Int) and real-valued positions
 * (Unity's Vector3, with float replaced by real), together with the three
 * real-to-integer conversions the terrain code uses: Mathf.FloorToInt,
 * Mathf.CeilToInt and the C# (int) cast, which truncates toward zero.
 */
module Vectors {

  datatype Int3 = Int3(x: int, y: int, z: int) {
    function Plus(o: Int3): Int3 { Int3(x + o.x, y + o.y, z + o.z) }
    function Minus(o: Int3): Int3 { Int3(x - o.x, y - o.y, z - o.z) }
    /** The implicit Vector3Int -> Vector3 conversion. */
    function ToVec(): Vec3 { Vec3(x as real, y as real, z as real) }
  }

  datatype Vec3 = Vec3(x: real, y: real, z: real) {
    function Plus(o: Vec3): Vec3 { Vec3(x + o.x, y + o.y, z + o.z) }
    function Minus(o: Vec3): Vec3 { Vec3(x - o.x, y - o.y, z - o.z) }
    function Scale(t: real): Vec3 { Vec3(x * t, y * t, z * t) }
    /** Component-wise Mathf.CeilToInt. */
    function Ceil(): Int3 { Int3(CeilToInt(x), CeilToInt(y), CeilToInt(z)) }
    /** Component-wise Mathf.FloorToInt. */
    function Floor(): Int3 { Int3(FloorToInt(x), FloorToInt(y), FloorToInt(z)) }
    /** Component-wise (int) cast. */
    function Truncate(): Int3 { Int3(TruncToInt(x), TruncToInt(y), TruncToInt(z)) }
    predicate IsLatticePoint() { x == x.Floor as real && y == y.Floor as real && z == z.Floor as real }
  }

  /** The largest integer not above r. */
  function FloorToInt(r: real): (n: int)
    ensures n as real <= r < n as real + 1.0
  {
    r.Floor
  }

  /** The smallest integer not below r. */
  function CeilToInt(r: real): (n: int)
    ensures n as real - 1.0 < r <= n as real
  {
    -((-r).Floor)
  }

  /** The integer part of r: rounds toward zero, so it is the floor for
      non-negative r and the ceiling for negative r. */
  function TruncToInt(r: real): (n: int)
    ensures 0.0 <= r ==> 0 <= n && n as real <= r < n as real + 1.0
    ensures r < 0.0 ==> n <= 0 && n as real - 1.0 < r <= n as real
  {
    if r < 0.0 then -((-r).Floor) else r.Floor
  }

  /** Ceiling and floor pick the same integer exactly at integers; elsewhere
      the ceiling is one above the floor. */
  lemma CeilFloorGap(r: real)
    ensures CeilToInt(r) == FloorToInt(r) <==> r == FloorToInt(r) as real
    ensures CeilToInt(r) != FloorToInt(r) ==> CeilToInt(r) == FloorToInt(r) + 1
  {
  }

  /** Truncation and floor differ exactly on negative non-integers. */
  lemma TruncVersusFloor(r: real)
    ensures TruncToInt(r) != FloorToInt(r) <==> r < 0.0 && r != FloorToInt(r) as real
    ensures TruncToInt(r) != FloorToInt(r) ==> TruncToInt(r) == FloorToInt(r) + 1
  {
  }

  /** A point on the lattice converts back to itself under all three roundings. */
  lemma LatticeRoundTrip(p: Int3)
    ensures p.ToVec().Floor() == p && p.ToVec().Ceil() == p && p.ToVec().Truncate() == p
  {
  }

  /** The place and remove edits aim at the same lattice point exactly when the
      edit point is itself a lattice point; otherwise the ceiling target lies
      one step further along every non-integral axis. */
  lemma EditTargetsCoincide(pos: Vec3)
    ensures pos.Ceil() == pos.Floor() <==> pos.IsLatticePoint()
    ensures pos.Ceil().x - pos.Floor().x in {0, 1}
    ensures pos.Ceil().y - pos.Floor().y in {0, 1}
    ensures pos.Ceil().z - pos.Floor().z in {0, 1}
  {
    CeilFloorGap(pos.x);
    CeilFloorGap(pos.y);
    CeilFloorGap(pos.z);
  }
}
