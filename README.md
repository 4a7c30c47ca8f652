# Terrain editor: editing state

A model of the editing state of a small isometric terrain editor built on
pygame. The world is an X by Y grid of tiles (blocks). Each block holds a
terrain value (0 terrain, 1 wall drawn as forest, 2 building), a highlight
flag and a dirty flag that says whether the image it shows is stale. The
world holds the grid, the list of sprites in the order they were added
(back to front), at most one selected block, a palette of three tools and
the active tool value.

The model has three modules:

- `Geometry` (geometry.dfy): screen rectangles with half-open point
  containment, the isometric position of a cell's sprite, and the index at
  which a cell's sprite is added when the grid is filled from the back.
- `Blocks` (blocks.dfy): the six tile images as an enumeration, the choice
  of image from a value and a highlight, and the `Block` class with its two
  setters and `Update`.
- `Editor` (world.dfy): the `World` class: construction of the palette and
  of the grid, the building count, the selection state machine, neighbour
  navigation, painting, tool picking and hit testing.

Invariants kept by every operation:

- `Block.Valid`: a block that is not dirty shows the images its value and
  highlight call for. The setters mark a block dirty only on a real change.
- `World.Valid`: the grid keeps its shape, and every block keeps its
  coordinates and its isometric rectangle. The sprite list holds the grid
  blocks x descending, then y descending. The only highlighted grid block
  is the selected one. The selection, when there is one, is a grid block.
  The palette is fixed, and the active tool value is one of its values.

## Model

| member | source | states |
|---|---|---|
| `Blocks.Block.constructor` | terrain_editor/terrain_editor.py:20-40 | a new block has its cell and value, is unhighlighted, has already been updated (clean, standard image) and its rectangle is the tile's, at the origin |
| `Blocks.Block.SetValue` | terrain_editor/terrain_editor.py:46-50 | the value becomes v; the dirty flag is set exactly when v differs from the old value and is otherwise left as it was; the block stays valid |
| `Blocks.Block.SetHighlighted` | terrain_editor/terrain_editor.py:56-60 | the highlight becomes b; the dirty flag is set exactly when b differs from the old highlight; the block stays valid |
| `Blocks.Block.Update` | terrain_editor/terrain_editor.py:68-88 | a clean block is left unchanged; a dirty one ends clean, showing an image of its value's kind that is the highlighted variant if and only if it is highlighted |
| `Blocks.StandardImage` | terrain_editor/terrain_editor.py:75-83 | the standard image depicts the value's kind (2 building, 1 forest, anything else terrain) and is not a highlighted variant |
| `Blocks.HighlightedImage` | terrain_editor/terrain_editor.py:75-83 | the highlighted image depicts the value's kind and is a highlighted variant |
| `Blocks.ImageFor` | terrain_editor/terrain_editor.py:85 | the shown image depicts the value's kind and is a highlighted variant if and only if the block is highlighted |
| `Blocks.ImageForSame` | terrain_editor/terrain_editor.py:75-85 | two states show the same image if and only if they agree on the highlight and on the kind of terrain |
| `Geometry.ScreenPos` | terrain_editor/terrain_editor.py:154-171 | the top-left corner of cell (x, y)'s sprite, computed from half tile sizes, Cartesian offsets and the isometric turn, is (16X + 32(x - y) + 200, 32Y - 16(x + y)) |
| `Geometry.ScreenPosExact` | terrain_editor/terrain_editor.py:154-171 | every halving in the position computation (of the tile sizes, of cartX + cartY and of the grid origin) is exact |
| `Geometry.ScreenPosInjective` | terrain_editor/terrain_editor.py:164-171 | two cells with the same sprite position are the same cell |
| `Geometry.NearerCellIsLower` | terrain_editor/terrain_editor.py:164-171 | one step nearer the viewer along either axis puts the sprite 16 pixels lower |
| `Geometry.DrawIndex` | terrain_editor/terrain_editor.py:157-159 | the index at which a cell's sprite is added lies in [0, X*Y) |
| `Geometry.DrawIndexOrder` | terrain_editor/terrain_editor.py:157-159 | cell (x, y) is added before (x', y') if and only if x > x', or x = x' and y > y' |
| `Geometry.CellAtIndex` | terrain_editor/terrain_editor.py:157-159 | every index below X*Y is the draw index of some cell of the grid |
| `Geometry.DrawIndexInjective` | terrain_editor/terrain_editor.py:157-159 | different cells are added at different indices |
| `Geometry.BackToFront` | terrain_editor/terrain_editor.py:157-159 | a cell behind another one (not nearer along either axis) is added before it, so the nearer sprite is drawn over it |
| `Editor.ToolRectsDisjoint` | terrain_editor/terrain_editor.py:183-188 | no screen point lies in two of the three 64 by 64 tool rectangles at (10,10), (10,90) and (10,170) |
| `Editor.World.constructor` | terrain_editor/terrain_editor.py:92-121 | the new world is valid; nothing is selected; the active tool value is 0; every cell holds a clean block whose value is the initial matrix's; the grid array, every grid block and every tool are newly allocated; every tool is unhighlighted and clean |
| `Editor.World.CreateTools` | terrain_editor/terrain_editor.py:179-192 | the palette has three fresh blocks; tool i is a block of cell (0, 0) with value i and the i-th tool rectangle, unhighlighted, clean and valid |
| `Editor.World.CreateBlocks` | terrain_editor/terrain_editor.py:150-177 | every cell (x, y) holds a block with cell (x, y), the model's value, unhighlighted and clean, at its isometric rectangle; the sprite list has X*Y entries, cell (x, y) at its back-to-front draw index, and every entry is the grid block of its own cell and newly allocated |
| `Editor.World.BuildingsBeforeStep` | terrain_editor/terrain_editor.py:125-128 | reading cell (i, j) adds it to the building cells read so far, growing their number by one, exactly when its value is 2 |
| `Editor.World.BuildingsBeforeNextRow` | terrain_editor/terrain_editor.py:125-126 | the cells read at the end of row i are those read at the start of row i + 1 |
| `Editor.World.BuildingsBeforeEnds` | terrain_editor/terrain_editor.py:123-129 | nothing is read before the first cell, and all building cells are read after the last row |
| `Editor.World.NbBuildings` | terrain_editor/terrain_editor.py:123-129 | the count is the number of grid cells whose value is 2; nothing is modified |
| `Editor.World.SetSelection` | terrain_editor/terrain_editor.py:131-148 | the answer is true exactly when b is a block other than the current selection; then b becomes the selection, otherwise the selection stays; afterwards exactly the selected block is highlighted and a block's dirty flag is newly set only if its highlight changed |
| `Editor.World.HighlightIsSelection` | terrain_editor/terrain_editor.py:131-148 | in a valid world a grid block is highlighted if and only if it is the selection, so at most one grid block is highlighted |
| `Editor.World.SelectNeighbour` | terrain_editor/terrain_editor.py:221-240 | the target is the selection's cell plus (dx, dy), or (dx, dy) with no selection; the answer is null exactly when the target is outside [0,X)x[0,Y), and then nothing changes; otherwise the answer is the target's block and it is selected |
| `Editor.World.BuildOnSelection` | terrain_editor/terrain_editor.py:194-200 | only the selected block's value changes, and it becomes the active tool value; with no selection nothing changes; dirty flags are newly set only where a value changed |
| `Editor.World.SpriteForPos` | terrain_editor/terrain_editor.py:202-209 | the answer is null exactly when no sprite has the point in its rectangle with its mask set at the point's offset; otherwise it is the last-added such sprite |
| `Editor.World.UpdateToolsWithHit` | terrain_editor/terrain_editor.py:211-219 | the answer is true exactly when some tool rectangle holds the point; then the active tool becomes the first such tool's value; otherwise the active tool stays |

## Left out

- Image loading, surfaces and the whole of `draw()` (fonts, blits, display updates, and the palette highlight it sets): these are graphics-library calls. Images are the enumeration `Image`.
- The opacity mask built from an image surface: `SpriteForPos` takes it as a parameter `mask` from an image and an offset to a boolean, so the mask of a block is that of its current image.
- Tile image sizes: the rectangle a block takes from its image is assumed to be 64 by 64, the tile size the projection uses; the image files are not part of this model.
- `Rect.collidepoint` belongs to pygame; it is taken to be half-open containment (x <= px < x + w, y <= py < y + h).
- Floating-point arithmetic in the projection: positions are integers, and `ScreenPosExact` shows that every division by 2 there is exact.
- The `main()` event loop: the window, the frame clock, the event queue, mouse state, the screenshot file and process exit. Its uses of the modelled operations (arrow keys, the paint key, clicks and drags) are not modelled as a whole.
- Console output (`print`, `Block.__str__`, `Block.hit`) and the unused `info_sprite`.
- Sprite groups are modelled as sequences in insertion order, which is the order pygame iterates them in.
- `Editor.World.SetSelection`: requires its argument to be null or a grid block; every caller passes the result of a hit test or a grid cell, and the invariant that the selection lies in the grid rests on it.
- Cell values are integers, as in the program; values other than 0, 1 and 2 never arise from the palette and are shown as terrain.
