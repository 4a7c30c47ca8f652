/** The editing state of the terrain editor: the grid of tiles, the
    selection, the tool palette and the active tool value. */
module Editor {
  import opened Geometry
  import opened Blocks

  /** The terrain the editor starts with, one row per x. */
  const InitialModel: seq<seq<int>> := [
    [2, 0, 1, 1, 1, 0],
    [1, 1, 1, 1, 2, 1],
    [1, 1, 2, 1, 1, 0],
    [1, 0, 0, 0, 1, 0],
    [1, 1, 1, 1, 2, 1]
  ]

  /** The palette: tool i paints value i and sits in ToolRects[i]. */
  const ToolRects: seq<Rect> := [Rect(10, 10, 64, 64), Rect(10, 90, 64, 64), Rect(10, 170, 64, 64)]

  /** No screen point lies in two tools. */
  lemma ToolRectsDisjoint(i: int, j: int, px: int, py: int)
    requires 0 <= i < |ToolRects| && 0 <= j < |ToolRects|
    requires ToolRects[i].Contains(px, py) && ToolRects[j].Contains(px, py)
    ensures i == j
  {
  }

  /** A matrix with at least one row and rows of equal length. */
  predicate IsRectangular(model: seq<seq<int>>) {
    |model| > 0 && forall x | 0 <= x < |model| :: |model[x]| == |model[0]|
  }

  /** The rectangle of the sprite of cell (x, y). */
  function CellRect(gridX: int, gridY: int, x: int, y: int): Rect {
    var pos := ScreenPos(gridX, gridY, x, y);
    Rect(pos.0, pos.1, TileW, TileH)
  }

  /** The sprite b is hit at (px, py): the point is in its rectangle and
      the mask of its image is set at the point's offset in it. */
  predicate Hits(b: Block, px: int, py: int, mask: (Image, int, int) -> bool)
    reads b
  {
    b.rect.Contains(px, py) && mask(b.image, px - b.rect.x, py - b.rect.y)
  }

  class World {
    const model: seq<seq<int>>
    const X: int
    const Y: int
    /** m[x, y] is the block of cell (x, y). */
    const m: array2<Block?>
    /** Every grid block, in the order they were added: back to front. */
    var blocks: seq<Block>
    /** The palette's blocks. */
    var tools: seq<Block>
    var selected: Block?
    var toolValue: int

    /** The grid has its X by Y shape and every cell holds one of the
        listed blocks. */
    ghost predicate Filled()
      reads this, m, blocks
    {
      && m.Length0 == X && m.Length1 == Y
      && forall x, y | InGrid(X, Y, x, y) :: m[x, y] != null && m[x, y] in blocks
    }

    /** The grid keeps its shape and coordinates, the only highlighted
        grid block is the selected one, the selection is a grid block and
        the palette is fixed. */
    ghost predicate Valid()
      reads this, m, blocks, tools
    {
      && IsRectangular(model) && X == |model| && Y == |model[0]|
      && Filled()
      && |blocks| == X * Y
      && (forall x, y | InGrid(X, Y, x, y) ::
            && m[x, y].cellX == x && m[x, y].cellY == y
            && blocks[DrawIndex(X, Y, x, y)] == m[x, y]
            && m[x, y].rect == CellRect(X, Y, x, y)
            && m[x, y].Valid()
            && (m[x, y].highlighted <==> m[x, y] == selected))
      && (forall k | 0 <= k < |blocks| ::
            InGrid(X, Y, blocks[k].cellX, blocks[k].cellY) && m[blocks[k].cellX, blocks[k].cellY] == blocks[k])
      && (selected != null ==> InGrid(X, Y, selected.cellX, selected.cellY) && m[selected.cellX, selected.cellY] == selected)
      && |tools| == |ToolRects|
      && (forall i | 0 <= i < |tools| :: tools[i].value == i && tools[i].rect == ToolRects[i] && tools[i] !in blocks)
      && 0 <= toolValue < |tools|
    }

    /** A new world: the palette, then the grid built from InitialModel,
        nothing selected and the terrain tool active. */
    constructor ()
      ensures Valid()
      ensures model == InitialModel
      ensures selected == null && toolValue == 0
      ensures fresh(m)
      ensures forall k | 0 <= k < |blocks| :: fresh(blocks[k])
      ensures forall i | 0 <= i < |tools| :: fresh(tools[i])
      ensures forall i | 0 <= i < |tools| :: !tools[i].highlighted && !tools[i].dirty
      ensures forall x, y | InGrid(X, Y, x, y) :: m[x, y].value == model[x][y] && !m[x, y].dirty
    {
      model := InitialModel;
      X := |InitialModel|;
      Y := |InitialModel[0]|;
      m := new Block?[|InitialModel|, |InitialModel[0]|];
      blocks := [];
      tools := [];
      selected := null;
      toolValue := 0;
      new;
      CreateTools();
      CreateBlocks();
    }

    /** The palette: one block per terrain value, each in its own
        64 by 64 rectangle. */
    method CreateTools()
      modifies this`tools
      ensures |tools| == |ToolRects|
      ensures forall i | 0 <= i < |tools| ::
        && fresh(tools[i]) && tools[i].cellX == 0 && tools[i].cellY == 0
        && tools[i].value == i && tools[i].rect == ToolRects[i]
        && !tools[i].highlighted && !tools[i].dirty && tools[i].Valid()
    {
      var b0 := new Block(0, 0, 0);
      b0.rect := Rect(10, 10, 64, 64);
      var b1 := new Block(0, 0, 1);
      b1.rect := Rect(10, 90, 64, 64);
      var b2 := new Block(0, 0, 2);
      b2.rect := Rect(10, 170, 64, 64);
      tools := [b0, b1, b2];
    }

    /** Block b is the freshly built block of cell (x, y): right
        coordinates, position and value, unhighlighted and clean. */
    ghost predicate Built(b: Block, x: int, y: int)
      reads b
      requires InGrid(X, Y, x, y) && IsRectangular(model) && X == |model| && Y == |model[0]|
    {
      && b.cellX == x && b.cellY == y
      && b.rect == CellRect(X, Y, x, y)
      && b.value == model[x][y]
      && !b.highlighted && !b.dirty && b.Valid()
    }

    /** Fills the grid from the model, adding the blocks from the back:
        x descending and, within one x, y descending. Each block sits at
        the isometric position of its cell. */
    method CreateBlocks()
      requires IsRectangular(model) && X == |model| && Y == |model[0]|
      requires m.Length0 == X && m.Length1 == Y
      modifies this`blocks, m
      ensures |blocks| == X * Y
      ensures forall k | 0 <= k < |blocks| :: fresh(blocks[k])
      ensures forall x, y | InGrid(X, Y, x, y) ::
        m[x, y] != null && Built(m[x, y], x, y) && blocks[DrawIndex(X, Y, x, y)] == m[x, y]
      ensures forall k | 0 <= k < |blocks| ::
        InGrid(X, Y, blocks[k].cellX, blocks[k].cellY) && m[blocks[k].cellX, blocks[k].cellY] == blocks[k]
    {
      blocks := [];
      var x := X;
      while x > 0
        invariant 0 <= x <= X
        invariant |blocks| == (X - x) * Y
        invariant forall k | 0 <= k < |blocks| :: fresh(blocks[k])
        invariant forall x', y' | InGrid(X, Y, x', y') && x <= x' ::
          && m[x', y'] != null && Built(m[x', y'], x', y')
          && DrawIndex(X, Y, x', y') < |blocks| && blocks[DrawIndex(X, Y, x', y')] == m[x', y']
      {
        x := x - 1;
        var y := Y;
        while y > 0
          invariant 0 <= y <= Y
          invariant |blocks| == (X - 1 - x) * Y + (Y - y)
          invariant forall k | 0 <= k < |blocks| :: fresh(blocks[k])
          invariant forall x', y' | InGrid(X, Y, x', y') && (x < x' || (x == x' && y <= y')) ::
            && m[x', y'] != null && Built(m[x', y'], x', y')
            && DrawIndex(X, Y, x', y') < |blocks| && blocks[DrawIndex(X, Y, x', y')] == m[x', y']
        {
          y := y - 1;
          var b := new Block(x, y, model[x][y]);
          var pos := ScreenPos(X, Y, x, y);
          b.rect := b.rect.(x := pos.0, y := pos.1);
          assert DrawIndex(X, Y, x, y) == |blocks|;
          m[x, y] := b;
          blocks := blocks + [b];
        }
        assert (X - 1 - x) * Y + Y == (X - x) * Y;
      }
      forall k | 0 <= k < |blocks|
        ensures InGrid(X, Y, blocks[k].cellX, blocks[k].cellY) && m[blocks[k].cellX, blocks[k].cellY] == blocks[k]
      {
        var c := CellAtIndex(X, Y, k);
      }
    }

    /** The cells whose value is 2, a building. */
    ghost function BuildingCells(): set<(int, int)>
      reads this, m, blocks
      requires Filled()
    {
      set x, y | 0 <= x < X && 0 <= y < Y && m[x, y].value == 2 :: (x, y)
    }

    /** The building cells that come before (i, j) when the grid is read
        row by row. */
    ghost function BuildingsBefore(i: int, j: int): set<(int, int)>
      reads this, m, blocks
      requires Filled()
    {
      set x, y | 0 <= x < X && 0 <= y < Y && (x < i || (x == i && y < j)) && m[x, y].value == 2 :: (x, y)
    }

    /** Reading cell (i, j) adds it to the building cells read so far
        exactly when its value is 2. */
    lemma BuildingsBeforeStep(i: int, j: int)
      requires Filled() && InGrid(X, Y, i, j)
      ensures (i, j) !in BuildingsBefore(i, j)
      ensures BuildingsBefore(i, j + 1)
        == BuildingsBefore(i, j) + (if m[i, j].value == 2 then {(i, j)} else {})
      ensures |BuildingsBefore(i, j + 1)| == |BuildingsBefore(i, j)| + (if m[i, j].value == 2 then 1 else 0)
    {
      var next, now := BuildingsBefore(i, j + 1), BuildingsBefore(i, j);
      forall x, y | InGrid(X, Y, x, y) && (x, y) in next
        ensures (x, y) in now + (if m[i, j].value == 2 then {(i, j)} else {})
      {
      }
    }

    /** Finishing row i is starting row i + 1. */
    lemma BuildingsBeforeNextRow(i: int)
      requires Filled()
      ensures BuildingsBefore(i + 1, 0) == BuildingsBefore(i, Y)
    {
      var next, now := BuildingsBefore(i + 1, 0), BuildingsBefore(i, Y);
      forall x, y | InGrid(X, Y, x, y) && (x, y) in next ensures (x, y) in now {
      }
    }

    /** Nothing is read before the first cell; everything is read before
        the row past the last. */
    lemma BuildingsBeforeEnds()
      requires Filled()
      ensures BuildingsBefore(0, 0) == {} && |BuildingsBefore(0, 0)| == 0
      ensures BuildingsBefore(X, 0) == BuildingCells()
    {
      var none, all := BuildingsBefore(0, 0), BuildingsBefore(X, 0);
      forall x, y | (x, y) in none ensures false {
      }
      forall x, y | InGrid(X, Y, x, y) && (x, y) in BuildingCells() ensures (x, y) in all {
      }
    }

    /** Counts the building cells, reading the grid row by row. */
    method NbBuildings() returns (count: nat)
      requires Filled()
      ensures count == |BuildingCells()|
    {
      BuildingsBeforeEnds();
      count := 0;
      for x := 0 to X
        invariant count == |BuildingsBefore(x, 0)|
      {
        for y := 0 to Y
          invariant count == |BuildingsBefore(x, y)|
        {
          BuildingsBeforeStep(x, y);
          if m[x, y].value == 2 {
            count := count + 1;
          }
        }
        BuildingsBeforeNextRow(x);
      }
    }

    /** Selects b. Selecting nothing or the current selection changes
        nothing and answers false; otherwise the old selection loses its
        highlight, b gains it and the answer is true. */
    method SetSelection(b: Block?) returns (changed: bool)
      requires Valid()
      requires b == null || b in blocks
      modifies this`selected, blocks`highlighted, blocks`dirty
      ensures Valid()
      ensures changed == (b != null && b != old(selected))
      ensures selected == if changed then b else old(selected)
      ensures forall k | 0 <= k < |blocks| :: blocks[k].highlighted == (blocks[k] == selected)
      ensures forall k | 0 <= k < |blocks| ::
        blocks[k].dirty == (old(blocks[k].dirty) || blocks[k].highlighted != old(blocks[k].highlighted))
    {
      if b == null {
        return false;
      }
      if b == selected {
        return false;
      }
      if selected != null {
        selected.SetHighlighted(false);
      }
      selected := b;
      selected.SetHighlighted(true);
      return true;
    }

    /** In a valid world a grid block is highlighted exactly when it is
        the selection, so at most one grid block is highlighted. */
    lemma HighlightIsSelection(b: Block)
      requires Valid() && b in blocks
      ensures b.highlighted <==> b == selected
    {
      var k :| 0 <= k < |blocks| && blocks[k] == b;
    }

    /** The cell select_neighbour aims at: the selection moved by
        (dx, dy), or (dx, dy) itself when nothing is selected. */
    function NeighbourTarget(dx: int, dy: int): (int, int)
      reads this
    {
      if selected != null then (selected.cellX + dx, selected.cellY + dy) else (dx, dy)
    }

    /** Moves the selection by (dx, dy). A target outside the grid is
        refused: the answer is null and nothing changes. */
    method SelectNeighbour(dx: int, dy: int) returns (r: Block?)
      requires Valid()
      modifies this`selected, blocks`highlighted, blocks`dirty
      ensures Valid()
      ensures var t := old(NeighbourTarget(dx, dy));
        && (r == null <==> !InGrid(X, Y, t.0, t.1))
        && (r != null ==> r == m[t.0, t.1] && selected == r)
      ensures r == null ==> selected == old(selected) && unchanged(blocks)
      ensures forall k | 0 <= k < |blocks| ::
        blocks[k].dirty == (old(blocks[k].dirty) || blocks[k].highlighted != old(blocks[k].highlighted))
    {
      var x, y := 0, 0;
      if selected != null {
        x, y := selected.cellX, selected.cellY;
      }
      var x', y' := x + dx, y + dy;
      if !InGrid(X, Y, x', y') {
        return null;
      }
      r := m[x', y'];
      var _ := SetSelection(r);
    }

    /** Paints the active tool's value on the selected block, if any. */
    method BuildOnSelection()
      requires Valid()
      modifies blocks`value, blocks`dirty
      ensures Valid()
      ensures forall k | 0 <= k < |blocks| ::
        blocks[k].value == if blocks[k] == selected then toolValue else old(blocks[k].value)
      ensures forall k | 0 <= k < |blocks| ::
        blocks[k].dirty == (old(blocks[k].dirty) || blocks[k].value != old(blocks[k].value))
    {
      var b := selected;
      if b == null {
        return;
      }
      b.SetValue(toolValue);
    }

    /** Finds the front-most grid block hit at (px, py): the sprites are
        tried from the last added to the first. */
    method SpriteForPos(px: int, py: int, mask: (Image, int, int) -> bool) returns (s: Block?)
      ensures s == null ==> forall k | 0 <= k < |blocks| :: !Hits(blocks[k], px, py, mask)
      ensures s != null ==> exists k | 0 <= k < |blocks| ::
        && blocks[k] == s && Hits(s, px, py, mask)
        && forall j | k < j < |blocks| :: !Hits(blocks[j], px, py, mask)
    {
      var i := |blocks|;
      while i > 0
        invariant 0 <= i <= |blocks|
        invariant forall j | i <= j < |blocks| :: !Hits(blocks[j], px, py, mask)
      {
        i := i - 1;
        var b := blocks[i];
        if b.rect.Contains(px, py) {
          if mask(b.image, px - b.rect.x, py - b.rect.y) {
            return b;
          }
        }
      }
      return null;
    }

    /** Picks the tool under (px, py): the first tool whose rectangle
        holds the point becomes active and the answer is true; when none
        does, the answer is false and the active tool stays. */
    method UpdateToolsWithHit(px: int, py: int) returns (hit: bool)
      requires Valid()
      modifies this`toolValue
      ensures Valid()
      ensures hit <==> exists i | 0 <= i < |ToolRects| :: ToolRects[i].Contains(px, py)
      ensures hit ==> ToolRects[toolValue].Contains(px, py)
      ensures hit ==> forall j | 0 <= j < toolValue :: !ToolRects[j].Contains(px, py)
      ensures !hit ==> toolValue == old(toolValue)
    {
      var i := 0;
      while i < |tools|
        invariant 0 <= i <= |tools|
        invariant forall j | 0 <= j < i :: !ToolRects[j].Contains(px, py)
      {
        var b := tools[i];
        if b.rect.Contains(px, py) {
          toolValue := b.value;
          return true;
        }
        i := i + 1;
      }
      return false;
    }
  }
}
