/** Screen geometry of the terrain editor: rectangles, the isometric
    projection of grid cells and the back-to-front order in which the
    cells' sprites are added. */
module Geometry {

  /** Size of a tile image, in pixels. */
  const TileW: int := 64
  const TileH: int := 64

  /** A screen rectangle: top-left corner and size. */
  datatype Rect = Rect(x: int, y: int, w: int, h: int) {
    /** Half-open containment of a point, as a rectangle's point test does. */
    predicate Contains(px: int, py: int) {
      x <= px < x + w && y <= py < y + h
    }
  }

  predicate InGrid(gridX: int, gridY: int, x: int, y: int) {
    0 <= x < gridX && 0 <= y < gridY
  }

  /** Top-left screen corner of the sprite of cell (x, y) in a world of
      gridX columns and gridY rows, computed step by step as the editor
      does: half tile sizes, Cartesian offsets, then the isometric turn.
      The result is 16 pixels right per column of the world, 32 right per
      step of x - y, and 16 up per step of x + y. */
  function ScreenPos(gridX: int, gridY: int, x: int, y: int): (p: (int, int))
    ensures p == (16 * gridX + 32 * (x - y) + 200, 32 * gridY - 16 * (x + y))
  {
    var tw2, th2 := TileW / 2, TileH / 2;
    var cartX, cartY := x * tw2, y * th2;
    var isoX := cartX - cartY;
    var isoY := (cartX + cartY) / 2;
    assert tw2 == 32 && th2 == 32;
    assert cartX + cartY == 2 * (16 * (x + y));
    assert gridX * th2 == 2 * (16 * gridX);
    (gridX * th2 / 2 + isoX + 200, gridY * th2 - isoY)
  }

  /** Every halving in ScreenPos is exact, so the integer positions are
      the ones the floating-point computation yields. */
  lemma ScreenPosExact(gridX: int, gridY: int, x: int, y: int)
    ensures TileW % 2 == 0 && TileH % 2 == 0
    ensures (x * (TileW / 2) + y * (TileH / 2)) % 2 == 0
    ensures (gridX * (TileH / 2)) % 2 == 0
  {
    assert TileW / 2 == 32 && TileH / 2 == 32;
    DoubleIsEven(16 * (x + y));
    DoubleIsEven(16 * gridX);
  }

  lemma DoubleIsEven(h: int)
    ensures (2 * h) % 2 == 0
  {
  }

  /** Distinct cells get distinct sprite positions. */
  lemma ScreenPosInjective(gridX: int, gridY: int, x: int, y: int, x': int, y': int)
    requires ScreenPos(gridX, gridY, x, y) == ScreenPos(gridX, gridY, x', y')
    ensures x == x' && y == y'
  {
  }

  /** The cell one step nearer the viewer along either grid axis is drawn
      16 pixels lower on the screen. */
  lemma NearerCellIsLower(gridX: int, gridY: int, x: int, y: int)
    ensures ScreenPos(gridX, gridY, x - 1, y).1 == ScreenPos(gridX, gridY, x, y).1 + 16
    ensures ScreenPos(gridX, gridY, x, y - 1).1 == ScreenPos(gridX, gridY, x, y).1 + 16
  {
  }

  lemma MulMonotone(a: int, b: int, c: int)
    requires a <= b && 0 <= c
    ensures a * c <= b * c
  {
    assert b * c - a * c == (b - a) * c;
  }

  lemma MulSucc(a: int, c: int)
    ensures (a + 1) * c == a * c + c
  {
  }

  lemma MulNonneg(a: int, c: int)
    requires 0 <= a && 0 <= c
    ensures 0 <= a * c
  {
  }

  /** Position of cell (x, y) in the list of sprites when the cells are
      added with x descending and, within one x, y descending. */
  function DrawIndex(gridX: int, gridY: int, x: int, y: int): (k: nat)
    requires InGrid(gridX, gridY, x, y)
    ensures k < gridX * gridY
  {
    var a := gridX - 1 - x;
    MulNonneg(a, gridY);
    MulSucc(a, gridY);
    MulMonotone(a + 1, gridX, gridY);
    a * gridY + (gridY - 1 - y)
  }

  /** Cell (x, y) is added before cell (x', y') exactly when it comes
      first in descending lexicographic order. */
  lemma DrawIndexOrder(gridX: int, gridY: int, x: int, y: int, x': int, y': int)
    requires InGrid(gridX, gridY, x, y) && InGrid(gridX, gridY, x', y')
    ensures DrawIndex(gridX, gridY, x, y) < DrawIndex(gridX, gridY, x', y')
        <==> x > x' || (x == x' && y > y')
  {
    var a, a' := gridX - 1 - x, gridX - 1 - x';
    var p, p' := a * gridY, a' * gridY;
    assert DrawIndex(gridX, gridY, x, y) == p + (gridY - 1 - y);
    assert DrawIndex(gridX, gridY, x', y') == p' + (gridY - 1 - y');
    if x > x' {
      MulSucc(a, gridY);
      MulMonotone(a + 1, a', gridY);
      assert p + gridY <= p';
    } else if x < x' {
      MulSucc(a', gridY);
      MulMonotone(a' + 1, a, gridY);
      assert p' + gridY <= p;
    }
  }

  /** The cell whose sprite is the k-th one added. */
  function CellAtIndex(gridX: int, gridY: int, k: int): (c: (int, int))
    requires 0 < gridY && 0 <= k < gridX * gridY
    ensures InGrid(gridX, gridY, c.0, c.1) && DrawIndex(gridX, gridY, c.0, c.1) == k
  {
    var q, r := k / gridY, k % gridY;
    assert 0 <= q < gridX by {
      assert k == q * gridY + r;
      if q >= gridX {
        MulMonotone(gridX, q, gridY);
      }
      if q < 0 {
        MulMonotone(q, -1, gridY);
      }
    }
    (gridX - 1 - q, gridY - 1 - r)
  }

  /** Different cells have different draw indices. */
  lemma DrawIndexInjective(gridX: int, gridY: int, x: int, y: int, x': int, y': int)
    requires InGrid(gridX, gridY, x, y) && InGrid(gridX, gridY, x', y')
    requires DrawIndex(gridX, gridY, x, y) == DrawIndex(gridX, gridY, x', y')
    ensures x == x' && y == y'
  {
    DrawIndexOrder(gridX, gridY, x, y, x', y');
    DrawIndexOrder(gridX, gridY, x', y', x, y);
  }

  /** Back to front: a cell that is behind another one (not nearer along
      either axis) has its sprite added earlier, so the nearer sprite is
      drawn over it. */
  lemma BackToFront(gridX: int, gridY: int, x: int, y: int, x': int, y': int)
    requires InGrid(gridX, gridY, x, y) && InGrid(gridX, gridY, x', y')
    requires x' <= x && y' <= y && (x, y) != (x', y')
    ensures DrawIndex(gridX, gridY, x, y) < DrawIndex(gridX, gridY, x', y')
  {
    DrawIndexOrder(gridX, gridY, x, y, x', y');
  }
}
