/** One tile of the editor: a grid cell's sprite with its terrain value,
    its highlight flag and the dirty flag that says whether the image it
    shows is stale. */
module Blocks {
  import opened Geometry

  /** The six tile images: a standard and a highlighted variant of each
      kind of terrain. */
  datatype Image =
    | Terrain | TerrainHighlighted
    | Forest | ForestHighlighted
    | Building | BuildingHighlighted
  {
    predicate IsHighlightVariant() {
      TerrainHighlighted? || ForestHighlighted? || BuildingHighlighted?
    }
  }

  /** What a cell value stands for: 0 terrain, 1 wall (drawn as forest),
      2 building. */
  datatype Kind = TerrainKind | WallKind | BuildingKind

  function KindOfValue(v: int): Kind {
    if v == 2 then BuildingKind else if v == 1 then WallKind else TerrainKind
  }

  function KindOfImage(img: Image): Kind {
    match img
    case Terrain | TerrainHighlighted => TerrainKind
    case Forest | ForestHighlighted => WallKind
    case Building | BuildingHighlighted => BuildingKind
  }

  /** The standard image a block of value v shows: 2 is a building, 1 a
      forest, and any other value plain terrain. */
  function StandardImage(v: int): (img: Image)
    ensures KindOfImage(img) == KindOfValue(v) && !img.IsHighlightVariant()
  {
    if v == 2 then Building else if v == 1 then Forest else Terrain
  }

  /** The highlighted counterpart of StandardImage. */
  function HighlightedImage(v: int): (img: Image)
    ensures KindOfImage(img) == KindOfValue(v) && img.IsHighlightVariant()
  {
    if v == 2 then BuildingHighlighted else if v == 1 then ForestHighlighted else TerrainHighlighted
  }

  /** The image a clean block of value v shows, highlighted or not. */
  function ImageFor(v: int, highlighted: bool): (img: Image)
    ensures KindOfImage(img) == KindOfValue(v)
    ensures img.IsHighlightVariant() == highlighted
  {
    if highlighted then HighlightedImage(v) else StandardImage(v)
  }

  /** Two (value, highlight) states need the same image exactly when they
      agree on the highlight and on the kind of terrain. */
  lemma ImageForSame(v: int, h: bool, v': int, h': bool)
    ensures ImageFor(v, h) == ImageFor(v', h') <==> h == h' && KindOfValue(v) == KindOfValue(v')
  {
    if h == h' && KindOfValue(v) == KindOfValue(v') {
      assert v == 2 <==> v' == 2;
      assert v == 1 <==> v' == 1;
    }
  }

  class Block {
    const cellX: int
    const cellY: int
    var value: int
    var highlighted: bool
    var dirty: bool
    var imageStandard: Image
    var imageHighlighted: Image
    var image: Image
    var rect: Rect

    /** The dirty flag is accurate: a block that is not dirty shows the
        images its value and highlight call for. */
    ghost predicate Valid()
      reads this
    {
      !dirty ==>
        && imageStandard == StandardImage(value)
        && imageHighlighted == HighlightedImage(value)
        && image == ImageFor(value, highlighted)
    }

    /** A new block is unhighlighted, already updated, and its rectangle
        is the tile image's, at the origin. */
    constructor (x: int, y: int, v: int)
      ensures Valid()
      ensures cellX == x && cellY == y && value == v
      ensures !highlighted && !dirty
      ensures image == StandardImage(v)
      ensures rect == Rect(0, 0, TileW, TileH)
    {
      cellX, cellY, value := x, y, v;
      highlighted, dirty := false, true;
      new;
      Update();
      rect := Rect(0, 0, TileW, TileH);
    }

    /** The value setter: it stores v and marks the block dirty only when
        v differs from the current value. */
    method SetValue(v: int)
      requires Valid()
      modifies this`value, this`dirty
      ensures Valid()
      ensures value == v
      ensures dirty == (old(dirty) || v != old(value))
    {
      if v != value {
        value := v;
        dirty := true;
      }
    }

    /** The highlight setter: it stores b and marks the block dirty only
        when b differs from the current highlight. */
    method SetHighlighted(b: bool)
      requires Valid()
      modifies this`highlighted, this`dirty
      ensures Valid()
      ensures highlighted == b
      ensures dirty == (old(dirty) || b != old(highlighted))
    {
      if b != highlighted {
        highlighted := b;
        dirty := true;
      }
    }

    /** Prepares the block for drawing: a clean block is left as it is; a
        dirty one picks its images from its value and highlight and
        becomes clean. */
    method Update()
      requires Valid()
      modifies this`imageStandard, this`imageHighlighted, this`image, this`dirty
      ensures Valid() && !dirty
      ensures image == ImageFor(value, highlighted)
      ensures KindOfImage(image) == KindOfValue(value)
      ensures image.IsHighlightVariant() == highlighted
      ensures !old(dirty) ==> unchanged(this)
    {
      if !dirty {
        return;
      }
      if value == 2 {
        imageStandard, imageHighlighted := Building, BuildingHighlighted;
      } else if value == 1 {
        imageStandard, imageHighlighted := Forest, ForestHighlighted;
      } else {
        imageStandard, imageHighlighted := Terrain, TerrainHighlighted;
      }
      image := if highlighted then imageHighlighted else imageStandard;
      dirty := false;
    }
  }
}
