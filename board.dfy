/**
 * The board: a fixed row-major sequence of tiles, each holding at most one
 * cell, with a fixed neighbour list per tile and a per-tile lifepoint
 * modifier. Tile, Board and Coord are not part of this model beyond what the
 * engine uses of them; the neighbour relation is a parameter of the board,
 * and MooreNeighbors gives the Moore-8, edge-clipped instance.
 */
module BoardModel {
  import opened CellRules
  import opened StepSpec
  import opened CellModel

  class Board {
    /** tiles[i] is the occupant of tile i (null for an empty tile). */
    const tiles: seq<Cell?>
    /** neighbors[i] lists the tiles adjacent to tile i, in the tile's order. */
    const neighbors: seq<seq<nat>>
    /** modifiers[i] is what tile i adds to its occupant's lifepoints each step. */
    const modifiers: seq<int>

    constructor (tiles: seq<Cell?>, neighbors: seq<seq<nat>>, modifiers: seq<int>)
      ensures this.tiles == tiles && this.neighbors == neighbors && this.modifiers == modifiers
    {
      this.tiles := tiles;
      this.neighbors := neighbors;
      this.modifiers := modifiers;
    }

    /** The structure a board has from construction: one neighbour list and
        one modifier per tile, neighbours inside the board, and no cell on two
        tiles. */
    predicate Valid()
    {
      && |neighbors| == |tiles| && |modifiers| == |tiles|
      && NeighborsWellFormed(neighbors)
      && forall i, j :: 0 <= i < |tiles| && 0 <= j < |tiles| && i != j && tiles[i] != null ==> tiles[i] != tiles[j]
    }

    /** Every tile has an occupant. */
    predicate Full()
    {
      forall i :: 0 <= i < |tiles| ==> tiles[i] != null
    }

    /** The first tile without an occupant. */
    function FirstEmpty(): (k: nat)
      requires !Full()
      ensures k < |tiles| && tiles[k] == null
      ensures forall i :: 0 <= i < k ==> tiles[i] != null
    {
      FirstEmptyFrom(0)
    }

    function FirstEmptyFrom(from: nat): (k: nat)
      requires from <= |tiles| && exists i :: from <= i < |tiles| && tiles[i] == null
      ensures from <= k < |tiles| && tiles[k] == null
      ensures forall i :: from <= i < k ==> tiles[i] != null
      decreases |tiles| - from
    {
      if tiles[from] == null then from else FirstEmptyFrom(from + 1)
    }

    /** The cells of the board (Board.getCellSet). */
    function CellSet(): set<Cell>
    {
      set c: Cell | c in tiles
    }

    /** The state of every occupant, in tile order. */
    function States(): (s: seq<CellState>)
      requires Full()
      reads CellSet()
      ensures |s| == |tiles| && forall i :: 0 <= i < |tiles| ==> s[i] == tiles[i].State()
    {
      seq(|tiles|, i requires 0 <= i < |tiles| && Full() reads CellSet() => tiles[i].State())
    }

    /** Whether each tile holds a live cell. */
    function AliveFlags(): (f: seq<bool>)
      reads CellSet()
      ensures |f| == |tiles|
      ensures forall i :: 0 <= i < |tiles| ==> f[i] == (tiles[i] != null && tiles[i].isAlive)
    {
      seq(|tiles|, i requires 0 <= i < |tiles| reads CellSet() => tiles[i] != null && tiles[i].isAlive)
    }

    /** Whether each tile holds a live vampire. */
    function VampireFlags(): (f: seq<bool>)
      reads CellSet()
      ensures |f| == |tiles|
      ensures forall i :: 0 <= i < |tiles| ==>
        f[i] == (tiles[i] != null && tiles[i].isAlive && tiles[i].cellMood == Vampire)
    {
      seq(|tiles|, i requires 0 <= i < |tiles| reads CellSet() =>
        tiles[i] != null && tiles[i].isAlive && tiles[i].cellMood == Vampire)
    }

    /** On a full board the flags are those of the cell states. */
    lemma FlagsOfStates()
      requires Full()
      ensures AliveFlags() == AliveOf(States())
      ensures VampireFlags() == VampiresOf(States())
    {
    }

    /** Cell.countAliveNeighbors for the occupant of tile i: the number of
        neighbour tiles holding a live cell, between 0 and the number of
        neighbour tiles. */
    method CountAliveNeighbors(i: nat) returns (count: nat)
      requires Valid() && i < |tiles|
      ensures count == CountAlive(AliveFlags(), neighbors[i])
      ensures count <= |neighbors[i]|
    {
      var ns := neighbors[i];
      count := 0;
      var k := 0;
      while k < |ns|
        invariant 0 <= k <= |ns|
        invariant count == CountAlive(AliveFlags(), ns[..k])
      {
        var t := tiles[ns[k]];
        if t != null && t.isAlive {
          count := count + 1;
        }
        assert ns[..k + 1][..k] == ns[..k];
        k := k + 1;
      }
      assert ns[..k] == ns;
    }
  }

  // -----------------------------------------------------------------------
  // The Moore-8, edge-clipped neighbour relation of a width x height grid,
  // tile (x, y) at index y * width + x
  // -----------------------------------------------------------------------

  /** The eight (dx, dy) offsets, row above, same row, row below. */
  const MooreOffsets: seq<(int, int)> :=
    [(-1, -1), (0, -1), (1, -1), (-1, 0), (1, 0), (-1, 1), (0, 1), (1, 1)]

  /** The index of tile (x, y). */
  function TileIndex(width: nat, x: int, y: int): int
  {
    y * width + x
  }

  /** The in-grid tiles at the given offsets from (x, y). */
  function Clipped(width: nat, height: nat, x: int, y: int, offs: seq<(int, int)>): (r: seq<nat>)
    ensures |r| <= |offs|
    decreases |offs|
  {
    if offs == [] then []
    else
      var rest := Clipped(width, height, x, y, offs[1..]);
      var nx, ny := x + offs[0].0, y + offs[0].1;
      if 0 <= nx < width && 0 <= ny < height then [TileIndex(width, nx, ny) as nat] + rest else rest
  }

  function MooreNeighbors(width: nat, height: nat): (r: seq<seq<nat>>)
    ensures |r| == width * height
  {
    seq(width * height, i requires 0 <= i < width * height =>
      Clipped(width, height, i % width, i / width, MooreOffsets))
  }

  lemma MulMonotone(a: int, b: int, c: nat)
    requires a <= b
    ensures a * c <= b * c
  {
    assert b * c - a * c == (b - a) * c;
  }

  /** In-grid coordinates have indices below width * height. */
  lemma TileIndexBound(width: nat, height: nat, x: int, y: int)
    requires 0 <= x < width && 0 <= y < height
    ensures 0 <= TileIndex(width, x, y) < width * height
  {
    MulMonotone(y, height - 1, width);
    MulMonotone(0, y, width);
    assert (height - 1) * width + width == width * height;
  }

  /** Distinct in-grid coordinates have distinct indices. */
  lemma TileIndexInjective(width: nat, x1: int, y1: int, x2: int, y2: int)
    requires 0 <= x1 < width && 0 <= x2 < width && 0 <= y1 < y2
    ensures TileIndex(width, x1, y1) < TileIndex(width, x2, y2)
  {
    MulMonotone(y1 + 1, y2, width);
    assert (y1 + 1) * width == y1 * width + width;
  }

  lemma TileIndexFacts(width: nat, height: nat, x1: int, y1: int, x2: int, y2: int)
    requires 0 <= x1 < width && 0 <= y1 < height && 0 <= x2 < width && 0 <= y2 < height
    ensures 0 <= TileIndex(width, x1, y1) < width * height
    ensures TileIndex(width, x1, y1) == TileIndex(width, x2, y2) ==> x1 == x2 && y1 == y2
  {
    TileIndexBound(width, height, x1, y1);
    if y1 < y2 {
      TileIndexInjective(width, x1, y1, x2, y2);
    } else if y2 < y1 {
      TileIndexInjective(width, x2, y2, x1, y1);
    }
  }

  /** Every entry of r is a tile index below bound other than self. */
  predicate OtherTilesBelow(r: seq<nat>, bound: int, self: int)
  {
    forall k :: 0 <= k < |r| ==> r[k] < bound && r[k] != self
  }

  lemma {:induction false} ClippedWellFormed(width: nat, height: nat, x: int, y: int, offs: seq<(int, int)>)
    requires 0 <= x < width && 0 <= y < height
    requires forall k :: 0 <= k < |offs| ==> offs[k] != (0, 0)
    ensures OtherTilesBelow(Clipped(width, height, x, y, offs), width * height, TileIndex(width, x, y))
    decreases |offs|
  {
    if offs != [] {
      ClippedWellFormed(width, height, x, y, offs[1..]);
      var rest := Clipped(width, height, x, y, offs[1..]);
      var nx, ny := x + offs[0].0, y + offs[0].1;
      if 0 <= nx < width && 0 <= ny < height {
        TileIndexFacts(width, height, nx, ny, x, y);
        var a := TileIndex(width, nx, ny) as nat;
        assert offs[0] != (0, 0);
        var r := [a] + rest;
        assert Clipped(width, height, x, y, offs) == r;
        forall k | 0 <= k < |r|
          ensures r[k] < width * height && r[k] != TileIndex(width, x, y)
        {
          if k == 0 {
            assert r[k] == a;
          } else {
            assert r[k] == rest[k - 1];
          }
        }
      } else {
        assert Clipped(width, height, x, y, offs) == rest;
      }
    }
  }

  /** Tile index i of a width x height grid lies at column i % width of row
      i / width. */
  lemma RowColumn(width: nat, height: nat, i: int)
    requires 0 <= i < width * height
    ensures width > 0
    ensures 0 <= i % width < width && 0 <= i / width < height
    ensures TileIndex(width, i % width, i / width) == i
  {
    if width == 0 {
      assert false;
    }
    var x, y := i % width, i / width;
    assert y * width + x == i;
    if y >= height {
      MulMonotone(height, y, width);
      assert false;
    }
  }

  /** The Moore relation is a well-formed neighbour table with at most eight
      neighbours per tile. */
  lemma MooreWellFormed(width: nat, height: nat)
    ensures NeighborsWellFormed(MooreNeighbors(width, height))
    ensures forall i :: 0 <= i < width * height ==> |MooreNeighbors(width, height)[i]| <= 8
  {
    var r := MooreNeighbors(width, height);
    forall i, k | 0 <= i < |r| && 0 <= k < |r[i]|
      ensures r[i][k] < |r| && r[i][k] != i
    {
      RowColumn(width, height, i);
      var x, y := i % width, i / width;
      assert r[i] == Clipped(width, height, x, y, MooreOffsets);
      ClippedWellFormed(width, height, x, y, MooreOffsets);
      assert OtherTilesBelow(r[i], width * height, TileIndex(width, x, y));
    }
  }
}
