/**
 Geometry of the "shattered" slide: the image is cut into a fixed grid of
 tiles, each showing the part of the image that lies under it. Random entry
 delays and rotations are cosmetic and not modelled. Sizes and offsets are
 percentages of the carousel container; `100 / 4` is exact, so they are
 integers here.
 */
module ShatterGrid {

  const Pieces: nat := 16
  const Rows: nat := 4
  const Cols: nat := 4

  /** One tile: its position in the grid, its box, and the image offset it shows. */
  datatype Tile = Tile(
    index: nat,
    row: nat,
    col: nat,
    widthPct: int,
    heightPct: int,
    leftPct: int,
    topPct: int,
    backgroundXPct: int,
    backgroundYPct: int,
    backgroundSizeXPct: int,
    backgroundSizeYPct: int,
    image: string)

  /** `100 / COLS` and `100 / ROWS`. */
  const PieceWidth: int := 100 / Cols
  const PieceHeight: int := 100 / Rows

  /** The tile built on loop iteration `i`: `row = floor(i / COLS)`, `col = i % COLS`. */
  function TileAt(i: nat, image: string): Tile {
    var row := i / Cols;
    var col := i % Cols;
    Tile(i, row, col, PieceWidth, PieceHeight, col * PieceWidth, row * PieceHeight,
         -col * 100, -row * 100, Cols * 100, Rows * 100, image)
  }

  /** The index of the tile that covers grid cell (`row`, `col`). */
  function CellIndex(row: nat, col: nat): nat {
    row * Cols + col
  }

  /** The index-to-cell map and the cell-to-index map are inverse to each other
      on the 16 tiles and the 4 by 4 cells. */
  lemma CellBijection(i: nat, row: nat, col: nat)
    ensures i < Pieces ==> TileAt(i, "").row < Rows && TileAt(i, "").col < Cols
    ensures i < Pieces ==> CellIndex(TileAt(i, "").row, TileAt(i, "").col) == i
    ensures row < Rows && col < Cols ==>
      CellIndex(row, col) < Pieces && TileAt(CellIndex(row, col), "").row == row && TileAt(CellIndex(row, col), "").col == col
  {
    if row < Rows && col < Cols {
      var k := CellIndex(row, col);
      assert k == row * 4 + col;
    }
  }

  /** `createShatteredPieces(imageUrl)`. */
  method ShatteredPieces(image: string) returns (tiles: seq<Tile>)
    ensures |tiles| == Pieces == Rows * Cols
    ensures forall i :: 0 <= i < |tiles| ==> tiles[i].index == i && tiles[i].image == image
    ensures forall i :: 0 <= i < |tiles| ==> tiles[i].row < Rows && tiles[i].col < Cols
    ensures forall i, j :: 0 <= i < j < |tiles| ==>
      tiles[i].row != tiles[j].row || tiles[i].col != tiles[j].col
    ensures forall row: nat, col: nat :: row < Rows && col < Cols ==>
      tiles[CellIndex(row, col)].row == row && tiles[CellIndex(row, col)].col == col
    ensures forall i :: 0 <= i < |tiles| ==>
      tiles[i].leftPct == tiles[i].col * 25 && tiles[i].topPct == tiles[i].row * 25 &&
      tiles[i].widthPct == 25 && tiles[i].heightPct == 25
    ensures forall i :: 0 <= i < |tiles| ==>
      tiles[i].leftPct + tiles[i].widthPct <= 100 && tiles[i].topPct + tiles[i].heightPct <= 100
    ensures forall i :: 0 <= i < |tiles| ==>
      tiles[i].backgroundXPct == -(tiles[i].col as int) * 100 && tiles[i].backgroundYPct == -(tiles[i].row as int) * 100
    ensures forall i :: 0 <= i < |tiles| ==>
      tiles[i].backgroundSizeXPct == 400 && tiles[i].backgroundSizeYPct == 400
  {
    tiles := [];
    var i := 0;
    while i < Pieces
      invariant 0 <= i <= Pieces
      invariant |tiles| == i
      invariant forall k :: 0 <= k < i ==> tiles[k] == TileAt(k, image)
    {
      tiles := tiles + [TileAt(i, image)];
      i := i + 1;
    }
    forall row: nat, col: nat | row < Rows && col < Cols
      ensures tiles[CellIndex(row, col)].row == row && tiles[CellIndex(row, col)].col == col
    {
      CellBijection(0, row, col);
    }
    forall i, j | 0 <= i < j < |tiles|
      ensures tiles[i].row != tiles[j].row || tiles[i].col != tiles[j].col
    {
      CellBijection(i, 0, 0);
      CellBijection(j, 0, 0);
    }
  }
}
