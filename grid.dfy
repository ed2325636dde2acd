/**
 * Row-major grid arithmetic shared by both map snapshots (src/map.ts and
 * src/game.ts): the bounds test and the slot `x + y * width` of a cell.
 */
module Grid {

  /** A coordinate pair lies outside a `width` by `height` grid. */
  predicate OutOfBounds(width: int, height: int, x: int, y: int)
  {
    x < 0 || y < 0 || x >= width || y >= height
  }

  /** The row-major slot of the cell at `(x, y)`. */
  function Index(width: int, x: int, y: int): int
  {
    x + y * width
  }

  /**
   * The slot of `(x, y)` in a `width` by `height` grid, or -1 when the pair
   * is out of bounds.
   */
  function Slot(width: int, height: int, x: int, y: int): (i: int)
    ensures i == -1 <==> OutOfBounds(width, height, x, y)
    ensures i != -1 ==> 0 <= i < width * height && i == Index(width, x, y)
  {
    if OutOfBounds(width, height, x, y) then -1
    else
      IndexInRange(width, height, x, y);
      Index(width, x, y)
  }

  /** The coordinates of slot `i`: the inverse of `Index`. */
  function CoordsOf(width: nat, i: nat): (xy: (int, int))
    requires width > 0
    ensures 0 <= xy.0 < width && 0 <= xy.1
  {
    (i % width, i / width)
  }

  lemma MulMonotone(a: int, b: int, c: nat)
    requires a <= b
    ensures a * c <= b * c
  {
    assert b * c - a * c == (b - a) * c;
  }

  /** Every in-bounds coordinate pair has a slot inside the cell array. */
  lemma IndexInRange(width: int, height: int, x: int, y: int)
    requires !OutOfBounds(width, height, x, y)
    ensures 0 <= Index(width, x, y) < width * height
  {
    MulMonotone(0, y, width);
    MulMonotone(y, height - 1, width);
    assert (height - 1) * width == width * height - width;
  }

  /** Two in-bounds coordinate pairs share a slot only when they are equal. */
  lemma IndexInjective(width: int, height: int, x1: int, y1: int, x2: int, y2: int)
    requires !OutOfBounds(width, height, x1, y1) && !OutOfBounds(width, height, x2, y2)
    requires Index(width, x1, y1) == Index(width, x2, y2)
    ensures x1 == x2 && y1 == y2
  {
    if y1 < y2 {
      MulMonotone(y1 + 1, y2, width);
    } else if y2 < y1 {
      MulMonotone(y2 + 1, y1, width);
    }
  }

  /** `CoordsOf` inverts `Index` on the slots of the grid, in both directions. */
  lemma CoordsRoundTrip(width: nat, height: nat, i: nat)
    requires i < width * height
    ensures width > 0
    ensures !OutOfBounds(width, height, CoordsOf(width, i).0, CoordsOf(width, i).1)
    ensures Index(width, CoordsOf(width, i).0, CoordsOf(width, i).1) == i
  {
    var x, y := i % width, i / width;
    assert i == x + y * width;
    if y >= height {
      MulMonotone(height, y, width);
      assert false;
    }
  }

  lemma IndexRoundTrip(width: nat, height: nat, x: int, y: int)
    requires !OutOfBounds(width, height, x, y)
    ensures CoordsOf(width, Index(width, x, y) as nat) == (x, y)
  {
    IndexInRange(width, height, x, y);
    var i := Index(width, x, y);
    CoordsRoundTrip(width, height, i);
    var (x', y') := CoordsOf(width, i);
    IndexInjective(width, height, x, y, x', y');
  }
}
