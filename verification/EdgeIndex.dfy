/** The numbering of the voxel grid's edges: a mixed-radix code of the cell and of
    the edge's place in it, and its inverse. */
module EdgeIndex {

  /** The number of an edge; binY and binZ are the bin counts along y and z. */
  function EdgeId(binY: nat, binZ: nat, x: nat, y: nat, z: nat, index: nat): nat {
    12 * (z + y * (binZ + 1) + x * (binZ + 1) * (binY + 1)) + index
  }

  lemma Larger(k: int, d: nat)
    requires k >= 1
    ensures k * d >= d
  {
  }

  /** Division with a remainder in range has one answer. */
  lemma DivisionIsUnique(n: nat, d: nat, q: nat, r: nat)
    requires n == q * d + r && r < d
    ensures n / d == q && n % d == r
  {
    var k := n / d - q;
    assert k * d == r - n % d;
    if k >= 1 { Larger(k, d); }
    if k <= -1 { Larger(-k, d); }
  }

  /** The steps of the decoding, each a division of what is left. */
  lemma DigitsOf(binY: nat, binZ: nat, x: nat, y: nat, z: nat, index: nat)
    requires y <= binY && z <= binZ && index < 12
    ensures var id := EdgeId(binY, binZ, x, y, z, index); var plane := (binZ + 1) * (binY + 1);
            && id % 12 == index
            && id / 12 / plane == x
            && (id / 12 - x * plane) / (binZ + 1) == y
            && id / 12 - x * plane - y * (binZ + 1) == z
  {
    var id, plane := EdgeId(binY, binZ, x, y, z, index), (binZ + 1) * (binY + 1);
    var cell, row := z + y * (binZ + 1) + x * (binZ + 1) * (binY + 1), z + y * (binZ + 1);
    DivisionIsUnique(id, 12, cell, index);
    assert x * (binZ + 1) * (binY + 1) == x * plane;
    assert row < plane by {
      assert plane - y * (binZ + 1) == (binZ + 1) * (binY + 1 - y);
      Larger(binY + 1 - y, binZ + 1);
    }
    DivisionIsUnique(cell, plane, x, row);
    DivisionIsUnique(row, binZ + 1, y, z);
  }

  lemma Divided(n: nat, d: nat)
    requires d > 0
    ensures n == n / d * d + n % d && n - n / d * d == n % d < d
  {
  }

  lemma RowInPlane(row: nat, binY: nat, binZ: nat)
    requires row < (binZ + 1) * (binY + 1)
    ensures row / (binZ + 1) <= binY
  {
    var k := row / (binZ + 1) - binY - 1;
    Divided(row, binZ + 1);
    assert k * (binZ + 1) == row / (binZ + 1) * (binZ + 1) - (binZ + 1) * (binY + 1);
    if k >= 1 { Larger(k, binZ + 1); }
  }

  lemma Assembled(binY: nat, binZ: nat, id: nat, x: nat, y: nat, z: nat)
    requires id / 12 == x * ((binZ + 1) * (binY + 1)) + (y * (binZ + 1) + z)
    ensures EdgeId(binY, binZ, x, y, z, id % 12) == id
  {
    assert x * (binZ + 1) * (binY + 1) == x * ((binZ + 1) * (binY + 1));
  }

  /** Recovers the cell and the axis of an edge: of the cells within the bounds
      along y and z, the only one that has an edge of this number. */
  method GetEdgeCell(binY: nat, binZ: nat, edgeUniqId: nat)
    returns (x: nat, y: nat, z: nat, axis: nat)
    ensures y <= binY && z <= binZ && axis == edgeUniqId % 12 / 4 < 3
    ensures EdgeId(binY, binZ, x, y, z, edgeUniqId % 12) == edgeUniqId
  {
    hide *;
    axis := edgeUniqId % 12 / 4;
    var tmp := edgeUniqId / 12;
    Divided(tmp, (binZ + 1) * (binY + 1));
    x := tmp / ((binZ + 1) * (binY + 1));
    tmp := tmp - x * ((binZ + 1) * (binY + 1));
    RowInPlane(tmp, binY, binZ);
    Divided(tmp, binZ + 1);
    y := tmp / (binZ + 1);
    tmp := tmp - y * (binZ + 1);
    z := tmp;
    Assembled(binY, binZ, edgeUniqId, x, y, z);
  }

  /** Distinct edges of cells within the bounds have distinct numbers. */
  lemma EdgeIdInjective(binY: nat, binZ: nat, x: nat, y: nat, z: nat, e: nat, x': nat, y': nat, z': nat, e': nat)
    requires y <= binY && z <= binZ && e < 12 && y' <= binY && z' <= binZ && e' < 12
    requires EdgeId(binY, binZ, x, y, z, e) == EdgeId(binY, binZ, x', y', z', e')
    ensures x == x' && y == y' && z == z' && e == e'
  {
    DigitsOf(binY, binZ, x, y, z, e);
    DigitsOf(binY, binZ, x', y', z', e');
  }

  /** The bound is needed: one past the end along z is the first cell of the next row. */
  lemma PastTheEndCollides(binY: nat, binZ: nat, x: nat, y: nat, e: nat)
    ensures EdgeId(binY, binZ, x, y, binZ + 1, e) == EdgeId(binY, binZ, x, y + 1, 0, e)
  {
    assert (y + 1) * (binZ + 1) == y * (binZ + 1) + (binZ + 1);
  }

  /** Decoding inverts the numbering. */
  method RoundTrip(binY: nat, binZ: nat, x: nat, y: nat, z: nat, index: nat)
    returns (x': nat, y': nat, z': nat, axis: nat)
    requires y <= binY && z <= binZ && index < 12
    ensures (x', y', z', axis) == (x, y, z, index / 4)
  {
    hide *;
    var id := EdgeId(binY, binZ, x, y, z, index);
    x', y', z', axis := GetEdgeCell(binY, binZ, id);
    EdgeIdInjective(binY, binZ, x, y, z, index, x', y', z', id % 12);
  }
}
