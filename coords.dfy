/**
  Grid coordinates as the map and the search share them: the (x, y) pair, the
  row-major flat index y * width + x, and 4-neighbourhood adjacency.
*/
module Coords {

  /** A cell position: x is the column, y the row. */
  type Coord = (int, int)

  function Abs(v: int): nat {
    if v < 0 then -v else v
  }

  /** Whether (x, y) lies inside a width-by-height grid. */
  predicate InGrid(x: int, y: int, width: int, height: int) {
    0 <= x < width && 0 <= y < height
  }

  /**
    The row-major flat index of (x, y) in a grid of the given width. For a
    column inside the width, the index decodes back: the row is the quotient
    and the column the remainder.
  */
  function Encode(x: int, y: int, width: int): (k: int)
    ensures 0 <= x < width ==> k / width == y && k % width == x
  {
    if 0 <= x < width then DecodeRowMajor(x, y, width); y * width + x else y * width + x
  }

  /** Division by the width undoes the row-major layout. */
  lemma DecodeRowMajor(x: int, y: int, width: int)
    requires 0 <= x < width
    ensures (y * width + x) / width == y && (y * width + x) % width == x
  {
    var k := y * width + x;
    var q, r := k / width, k % width;
    assert k == q * width + r && 0 <= r < width;
    assert (q - y) * width == x - r;
    if q > y {
      MulMonotone(1, q - y, width);
    } else if q < y {
      MulMonotone(1, y - q, width);
    }
  }

  lemma MulMonotone(a: int, b: int, c: int)
    requires a <= b && 0 <= c
    ensures a * c <= b * c
  {
    assert b * c - a * c == (b - a) * c;
  }

  /** Every in-bounds coordinate has its index inside the width * height buffer. */
  lemma EncodeInRange(x: int, y: int, width: int, height: int)
    requires InGrid(x, y, width, height)
    ensures 0 <= Encode(x, y, width) < width * height
  {
    MulMonotone(0, y, width);
    MulMonotone(y, height - 1, width);
    assert (height - 1) * width + width == height * width;
  }

  /** Two columns inside the width never share an index: the encoding is injective. */
  lemma EncodeInjective(x1: int, y1: int, x2: int, y2: int, width: int)
    requires 0 <= x1 < width && 0 <= x2 < width
    ensures Encode(x1, y1, width) == Encode(x2, y2, width) <==> x1 == x2 && y1 == y2
  {
    if y1 < y2 {
      MulMonotone(y1 + 1, y2, width);
      assert (y1 + 1) * width == y1 * width + width;
    } else if y2 < y1 {
      MulMonotone(y2 + 1, y1, width);
      assert (y2 + 1) * width == y2 * width + width;
    }
  }

  /** 4-neighbours: equal in one coordinate and exactly one apart in the other. */
  predicate Adjacent(a: Coord, b: Coord) {
    (a.1 == b.1 && Abs(a.0 - b.0) == 1) || (a.0 == b.0 && Abs(a.1 - b.1) == 1)
  }

  /** The cell reached from c by the offset d. */
  function Step(c: Coord, d: Coord): Coord {
    (c.0 + d.0, c.1 + d.1)
  }
}
