/** The tile grid queries of `TileMap`: a row-major walkability matrix and a
    row-major occupant list, both `width * height` long, with bounds-checked
    access.  The grid is given directly rather than parsed from a Tiled map. */
module TileMaps {
  import opened Foundation

  /** A tile coordinate `(col, row)`. */
  type Tile = (int, int)

  class TileMap {
    const width: nat
    const height: nat
    const tileWidth: nat
    const tileHeight: nat
    /** Pixel origin of the map; the constructor sets it to (0, 0). */
    var x: int
    var y: int
    const walkMatrix: seq<bool>
    var occupants: seq<Actor?>

    ghost predicate Valid()
      reads this
    {
      tileWidth > 0 && tileHeight > 0 &&
      |walkMatrix| == width * height && |occupants| == width * height
    }

    /** Builds the grid from its size in tiles, the tile size in pixels and
        the walkability of every cell; no cell is occupied. */
    constructor (width: nat, height: nat, tileWidth: nat, tileHeight: nat, walkMatrix: seq<bool>)
      requires tileWidth > 0 && tileHeight > 0 && |walkMatrix| == width * height
      ensures Valid()
      ensures this.width == width && this.height == height
      ensures this.tileWidth == tileWidth && this.tileHeight == tileHeight
      ensures this.walkMatrix == walkMatrix && x == 0 && y == 0
      ensures forall i :: 0 <= i < |occupants| ==> occupants[i] == null
    {
      this.width, this.height := width, height;
      this.tileWidth, this.tileHeight := tileWidth, tileHeight;
      this.walkMatrix := walkMatrix;
      x, y := 0, 0;
      occupants := seq(width * height, _ => null);
    }

    predicate InBounds(col: int, row: int)
      reads this
    {
      0 <= col < width && 0 <= row < height
    }

    /** Row-major position of an in-bounds cell. */
    function Index(col: int, row: int): (i: nat)
      reads this
      requires InBounds(col, row)
      ensures i < width * height
    {
      CellIndex(width, height, col, row);
      row * width + col
    }

    /** `pixels_to_coords`: floor division of the offset from the map origin
        by the tile size, so the pixel lies inside the returned tile. */
    function PixelsToCoords(p: Position): (t: Tile)
      reads this
      requires Valid()
      ensures t.0 * tileWidth <= p.0 - x < (t.0 + 1) * tileWidth
      ensures t.1 * tileHeight <= p.1 - y < (t.1 + 1) * tileHeight
    {
      FloorDiv(p.0 - x, tileWidth);
      FloorDiv(p.1 - y, tileHeight);
      ((p.0 - x) / tileWidth, (p.1 - y) / tileHeight)
    }

    /** Top-left pixel of a tile (`walk_update` computes the destination
        pixel this way). */
    function TileToPixels(t: Tile): Position
      reads this
    {
      (t.0 * tileWidth + x, t.1 * tileHeight + y)
    }

    /** `is_walkable_at(col, row)`: false outside the grid; inside, the cell
        must be walkable and have no occupant. */
    predicate IsWalkableAt(col: int, row: int)
      reads this
      requires Valid()
      ensures IsWalkableAt(col, row) ==> InBounds(col, row)
      ensures InBounds(col, row) ==>
        (IsWalkableAt(col, row) <==> walkMatrix[Index(col, row)] && GetOccupantAt(col, row) == null)
    {
      if InBounds(col, row) then
        var i := Index(col, row);
        walkMatrix[i] && occupants[i] == null
      else false
    }

    /** `get_occupant_at(col, row)`: `None` outside the grid. */
    function GetOccupantAt(col: int, row: int): (a: Actor?)
      reads this
      requires Valid()
      ensures !InBounds(col, row) ==> a == null
      ensures InBounds(col, row) ==> a == occupants[Index(col, row)]
    {
      if InBounds(col, row) then occupants[Index(col, row)] else null
    }

    /** `set_occupant_at(col, row, occupant)`: writes exactly the one cell;
        outside the grid nothing changes. */
    method SetOccupantAt(col: int, row: int, occupant: Actor?)
      requires Valid()
      modifies this`occupants
      ensures Valid()
      ensures InBounds(col, row) ==> occupants == old(occupants)[Index(col, row) := occupant]
      ensures !InBounds(col, row) ==> occupants == old(occupants)
      ensures InBounds(col, row) ==> GetOccupantAt(col, row) == occupant
      ensures InBounds(col, row) && occupant != null ==> !IsWalkableAt(col, row)
      ensures forall c, r :: (c, r) != (col, row) ==> GetOccupantAt(c, r) == old(GetOccupantAt(c, r))
    {
      if InBounds(col, row) {
        var i := Index(col, row);
        occupants := occupants[i := occupant];
        forall c, r | (c, r) != (col, row)
          ensures GetOccupantAt(c, r) == old(GetOccupantAt(c, r))
        {
          if InBounds(c, r) { CellIndexInjective(width, height, col, row, c, r); }
        }
      }
    }

    /** `get_nearest_occupants(col, row)`: the occupants of the west, east,
        north and south neighbours, in that order, skipping empty ones. */
    function GetNearestOccupants(col: int, row: int): (r: seq<Actor>)
      reads this
      requires Valid()
      ensures |r| <= 4
      ensures forall t :: t in Neighbours(col, row) && GetOccupantAt(t.0, t.1) != null ==>
        GetOccupantAt(t.0, t.1) in r
      ensures forall a :: a in r ==> exists t :: t in Neighbours(col, row) && GetOccupantAt(t.0, t.1) == a
      ensures r == Present([GetOccupantAt(col - 1, row), GetOccupantAt(col + 1, row),
                            GetOccupantAt(col, row - 1), GetOccupantAt(col, row + 1)])
    {
      var n := Neighbours(col, row);
      var s := [GetOccupantAt(n[0].0, n[0].1), GetOccupantAt(n[1].0, n[1].1),
                GetOccupantAt(n[2].0, n[2].1), GetOccupantAt(n[3].0, n[3].1)];
      assert forall t :: t in n ==> GetOccupantAt(t.0, t.1) in s;
      Present(s)
    }
  }

  /** Distinct tiles have distinct top-left pixels. */
  lemma TileToPixelsInjective(tm: TileMap, t: Tile, u: Tile)
    requires tm.Valid() && t != u
    ensures tm.TileToPixels(t) != tm.TileToPixels(u)
  {
    if u.0 != t.0 { MulCancel(u.0, t.0, tm.tileWidth); } else { MulCancel(u.1, t.1, tm.tileHeight); }
  }

  /** The top-left pixel of a tile converts back to that tile. */
  lemma TileToPixelsRoundTrip(tm: TileMap, t: Tile)
    requires tm.Valid()
    ensures tm.PixelsToCoords(tm.TileToPixels(t)) == t
  {
    DivExact(t.0, tm.tileWidth);
    DivExact(t.1, tm.tileHeight);
  }

  /** West, east, north and south of a tile. */
  function Neighbours(col: int, row: int): (n: seq<Tile>)
    ensures |n| == 4
    ensures n[0] == (col - 1, row) && n[1] == (col + 1, row)
    ensures n[2] == (col, row - 1) && n[3] == (col, row + 1)
  {
    [(col - 1, row), (col + 1, row), (col, row - 1), (col, row + 1)]
  }

  /** The non-null entries, in order. */
  function Present(s: seq<Actor?>): (r: seq<Actor>)
    ensures |r| <= |s|
    ensures forall i :: 0 <= i < |s| && s[i] != null ==> s[i] in r
    ensures forall a :: a in r ==> a in s
  {
    if s == [] then []
    else (if s[0] == null then [] else [s[0]]) + Present(s[1..])
  }

  /** `Present` keeps order and multiplicity: appending an entry appends
      it to the result exactly when it is not null. */
  lemma {:induction false} PresentAppend(s: seq<Actor?>, x: Actor?)
    ensures Present(s + [x]) == Present(s) + (if x == null then [] else [x])
  {
    if s == [] {
      assert s + [x] == [x];
    } else {
      assert (s + [x])[1..] == s[1..] + [x];
      PresentAppend(s[1..], x);
    }
  }

  /** The result of `Present` has one entry per non-null entry of `s`. */
  lemma {:induction false} PresentCount(s: seq<Actor?>)
    ensures |Present(s)| == |s| - multiset(s)[null]
  {
    if s != [] {
      PresentCount(s[1..]);
      assert s == [s[0]] + s[1..];
      assert multiset(s) == multiset{s[0]} + multiset(s[1..]);
    }
  }

  lemma {:induction false} MulLe(a: int, b: int, c: nat)
    requires a <= b
    ensures a * c <= b * c
  {
    if c > 0 {
      MulLe(a, b, c - 1);
      assert a * c == a * (c - 1) + a && b * c == b * (c - 1) + b;
    }
  }

  lemma MulCancel(a: int, b: int, c: nat)
    requires a != b && c > 0
    ensures a * c != b * c
  {
    if a < b { MulLe(a + 1, b, c); } else { MulLe(b + 1, a, c); }
  }

  lemma CellIndex(width: nat, height: nat, col: int, row: int)
    requires 0 <= col < width && 0 <= row < height
    ensures 0 <= row * width + col < width * height
  {
    MulLe(row + 1, height, width);
    MulLe(0, row, width);
  }

  lemma CellIndexInjective(width: nat, height: nat, c1: int, r1: int, c2: int, r2: int)
    requires 0 <= c1 < width && 0 <= r1 < height && 0 <= c2 < width && 0 <= r2 < height
    requires (c1, r1) != (c2, r2)
    ensures r1 * width + c1 != r2 * width + c2
  {
    if r1 < r2 { MulLe(r1 + 1, r2, width); }
    else if r2 < r1 { MulLe(r2 + 1, r1, width); }
  }

  lemma DivExact(k: int, b: nat)
    requires b > 0
    ensures (k * b) / b == k
  {
    var q, r := (k * b) / b, (k * b) % b;
    assert k * b == q * b + r && 0 <= r < b;
    if q < k { MulLe(q + 1, k, b); }
    else if q > k { MulLe(k + 1, q, b); }
  }

  lemma FloorDiv(a: int, b: nat)
    requires b > 0
    ensures (a / b) * b <= a < (a / b + 1) * b
  {
  }
}
