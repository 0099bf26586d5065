/** alphaconnect4/interfaces/quarto/quarto_board.py: the Quarto board. The 4 x 4
    cells hold 8-bit codes: a piece is an id 0 .. 15 whose four low bits are its
    four attributes, and 16 (bit 4 set) marks an empty cell. A player wins by
    completing a line of four pieces that agree on one attribute. The board is
    kept row-major, cell (r, c) at offset 4r + c. */
module QuartoBoard {
  import opened Common

  const EMPTY_CODE := 16
  const PIECE_COUNT := 16

  type QCells = s: seq<int> | |s| == 16 witness seq(16, _ => 16)

  /** Bit k of v, least significant first (`np.unpackbits(..., bitorder='little')`). */
  function Bit(v: int, k: nat): (bit: int)
    ensures bit == 0 || bit == 1
    decreases k
  {
    if k == 0 then v % 2 else Bit(v / 2, k - 1)
  }

  /** The piece ids 0 .. n-1 that are not on the board, ascending. */
  function MissingBelow(b: seq<int>, n: nat): (ids: seq<int>)
    requires n <= PIECE_COUNT
    ensures forall i :: 0 <= i < |ids| ==> 0 <= ids[i] < n
    ensures forall p :: p in ids <==> 0 <= p < n && p !in b
    ensures forall i, j :: 0 <= i < j < |ids| ==> ids[i] < ids[j]
  {
    if n == 0 then [] else MissingBelow(b, n - 1) + (if n - 1 in b then [] else [n - 1])
  }

  /** `sorted(set(range(16)) - set(board.flatten()))` */
  function Missing(b: seq<int>): seq<int> {
    MissingBelow(b, PIECE_COUNT)
  }

  /** The index of the first occurrence of x in s. */
  function IndexOf(s: seq<int>, x: int): (i: nat)
    requires x in s
    ensures i < |s| && s[i] == x && x !in s[..i]
  {
    if s[0] == x then 0
    else
      var i := 1 + IndexOf(s[1..], x);
      assert s[..i] == [s[0]] + s[1..][..i - 1];
      i
  }

  /** `list.remove(x)`: drop the first occurrence of x, or fail with
      ValueError when there is none. */
  function Remove(s: seq<int>, x: int): (r: Result<seq<int>>)
    ensures r.Err? <==> x !in s
    ensures r.Err? ==> r.error == ValueError
    ensures r.Ok? ==> exists i :: 0 <= i < |s| && s[i] == x && x !in s[..i] && r.value == s[..i] + s[i + 1..]
  {
    if x !in s then Err(ValueError)
    else
      var i := IndexOf(s, x);
      Ok(s[..i] + s[i + 1..])
  }

  /** The detection kernels: a row, a column, the diagonal (`np.eye`) and the
      anti-diagonal (`np.fliplr(np.eye)`). */
  datatype Kernel = RowKernel | ColumnKernel | Eye | FlippedEye

  const KERNELS := [RowKernel, ColumnKernel, Eye, FlippedEye]

  /** How many placements a kernel has in a "valid" convolution over 4 x 4. */
  function Placements(k: Kernel): nat {
    match k
    case RowKernel => 4
    case ColumnKernel => 4
    case Eye => 1
    case FlippedEye => 1
  }

  /** The offset of the i-th cell under placement p of kernel k. */
  function KernelCell(k: Kernel, p: int, i: int): int {
    match k
    case RowKernel => 4 * p + i
    case ColumnKernel => 4 * i + p
    case Eye => 5 * i
    case FlippedEye => 3 * i + 3
  }

  /** The mask `~board[:, :, 4] & (board[:, :, channel] == v)` at one cell. */
  predicate Mask(b: QCells, channel: nat, v: int, cell: int)
    requires 0 <= cell < 16
  {
    Bit(b[cell], 4) == 0 && Bit(b[cell], channel) == v
  }

  /** The convolution sums to 4 at placement p: all four cells are masked. */
  predicate PlacementHit(b: QCells, k: Kernel, p: int, channel: nat, v: int) {
    forall i | 0 <= i < 4 :: 0 <= KernelCell(k, p, i) < 16 && Mask(b, channel, v, KernelCell(k, p, i))
  }

  /** `(convolve2d(mask, kernel, mode="valid") == 4).any()` */
  predicate KernelHit(b: QCells, k: Kernel, channel: nat, v: int) {
    exists p | 0 <= p < Placements(k) :: PlacementHit(b, k, p, channel, v)
  }

  /** One pass of the kernel loop: some kernel finds four cells agreeing on
      `channel`, for either bit value. */
  predicate ChannelHit(b: QCells, channel: nat) {
    exists j | 0 <= j < 4 :: KernelHit(b, KERNELS[j], channel, 0) || KernelHit(b, KERNELS[j], channel, 1)
  }

  /** Some kernel finds four masked cells for one of the first n channels. */
  predicate WinsOnChannels(b: QCells, n: nat) {
    exists channel | 0 <= channel < n :: ChannelHit(b, channel)
  }

  /** The ten lines of the board, independent of the kernels: four rows, four
      columns and the two diagonals. */
  const LINES: seq<seq<int>> := [
    [0, 1, 2, 3], [4, 5, 6, 7], [8, 9, 10, 11], [12, 13, 14, 15],
    [0, 4, 8, 12], [1, 5, 9, 13], [2, 6, 10, 14], [3, 7, 11, 15],
    [0, 5, 10, 15], [3, 6, 9, 12]]

  /** Every cell holds a piece id or the empty code. */
  predicate Codes(b: QCells) {
    forall i | 0 <= i < 16 :: 0 <= b[i] <= EMPTY_CODE
  }

  /** Line l is filled with pieces that agree on attribute `channel`. */
  predicate SharesAttribute(b: QCells, l: int, channel: nat)
    requires 0 <= l < 10
  {
    var line := LINES[l];
    (forall i | 0 <= i < 4 :: b[line[i]] < EMPTY_CODE)
    && Bit(b[line[0]], channel) == Bit(b[line[1]], channel) == Bit(b[line[2]], channel) == Bit(b[line[3]], channel)
  }

  /** The Quarto win rule: some line of four pieces agrees on one of the four
      attributes. */
  function Wins(b: QCells): (won: bool)
    requires Codes(b)
    ensures won <==> exists l, channel | 0 <= l < 10 && 0 <= channel < 4 :: SharesAttribute(b, l, channel)
  {
    WinsMatchesLines(b);
    WinsOnChannels(b, 4)
  }

  lemma BitFour(x: int)
    requires 0 <= x <= EMPTY_CODE
    ensures Bit(x, 4) == 0 <==> x < EMPTY_CODE
  {
    assert Bit(x, 4) == Bit(x / 2, 3) == Bit(x / 2 / 2, 2) == Bit(x / 2 / 2 / 2, 1) == (x / 2 / 2 / 2 / 2) % 2;
  }

  /** Kernel placement (j, p) covers exactly the cells of one of the ten lines. */
  function LineOf(j: int, p: int): (l: int)
    requires 0 <= j < 4 && 0 <= p < Placements(KERNELS[j])
    ensures 0 <= l < 10 && forall i | 0 <= i < 4 :: LINES[l][i] == KernelCell(KERNELS[j], p, i)
  {
    if j == 0 then p else if j == 1 then 4 + p else if j == 2 then 8 else 9
  }

  /** A kernel placement that finds four masked cells finds a line of pieces
      sharing the attribute. */
  lemma HitGivesLine(b: QCells, j: int, p: int, channel: nat, v: int)
    requires Codes(b) && 0 <= j < 4 && 0 <= p < Placements(KERNELS[j])
    requires PlacementHit(b, KERNELS[j], p, channel, v)
    ensures SharesAttribute(b, LineOf(j, p), channel)
  {
    var line := LINES[LineOf(j, p)];
    forall i | 0 <= i < 4 ensures b[line[i]] < EMPTY_CODE && Bit(b[line[i]], channel) == v {
      assert Mask(b, channel, v, KernelCell(KERNELS[j], p, i));
      BitFour(b[line[i]]);
    }
  }

  /** A line of pieces sharing an attribute is found by the kernel covering it. */
  lemma LineGivesHit(b: QCells, l: int, channel: nat)
    requires Codes(b) && 0 <= l < 10 && SharesAttribute(b, l, channel)
    ensures KernelHit(b, KERNELS[if l < 4 then 0 else if l < 8 then 1 else if l == 8 then 2 else 3],
                      channel, Bit(b[LINES[l][0]], channel))
  {
    var j := if l < 4 then 0 else if l < 8 then 1 else if l == 8 then 2 else 3;
    var p := if l < 4 then l else if l < 8 then l - 4 else 0;
    assert LineOf(j, p) == l;
    var v := Bit(b[LINES[l][0]], channel);
    forall i | 0 <= i < 4 ensures 0 <= KernelCell(KERNELS[j], p, i) < 16 && Mask(b, channel, v, KernelCell(KERNELS[j], p, i)) {
      BitFour(b[LINES[l][i]]);
    }
    assert PlacementHit(b, KERNELS[j], p, channel, v);
  }

  lemma WinsMatchesLines(b: QCells)
    requires Codes(b)
    ensures WinsOnChannels(b, 4) <==> exists l, channel | 0 <= l < 10 && 0 <= channel < 4 :: SharesAttribute(b, l, channel)
  {
    if WinsOnChannels(b, 4) {
      var channel :| 0 <= channel < 4 && ChannelHit(b, channel);
      var j :| 0 <= j < 4 && (KernelHit(b, KERNELS[j], channel, 0) || KernelHit(b, KERNELS[j], channel, 1));
      var v := if KernelHit(b, KERNELS[j], channel, 0) then 0 else 1;
      var p :| 0 <= p < Placements(KERNELS[j]) && PlacementHit(b, KERNELS[j], p, channel, v);
      HitGivesLine(b, j, p, channel, v);
    }
    if exists l, channel | 0 <= l < 10 && 0 <= channel < 4 :: SharesAttribute(b, l, channel) {
      var l, channel :| 0 <= l < 10 && 0 <= channel < 4 && SharesAttribute(b, l, channel);
      LineGivesHit(b, l, channel);
      assert ChannelHit(b, channel);
    }
  }

  /** Four pieces in the bottom row that share bit 1 but not bit 0, the rest
      of the board empty. */
  function BitOneRow(): QCells {
    [2, 3, 6, 7] + seq(12, _ => EMPTY_CODE)
  }

  /** `winning_move` as written stops after channel 0: this board has a line of
      pieces sharing attribute 1, so it is won, yet the check reports no win. */
  lemma WinningMoveMissesBitOne()
    ensures Codes(BitOneRow()) && SharesAttribute(BitOneRow(), 0, 1)
    ensures Wins(BitOneRow())
    ensures !WinsOnChannels(BitOneRow(), 1)
  {
    var b := BitOneRow();
    assert b[0] == 2 && b[1] == 3 && b[2] == 6 && b[3] == 7;
    assert forall i | 4 <= i < 16 :: b[i] == EMPTY_CODE;
    assert Bit(16, 4) == 1;
    assert Bit(2, 0) == 0 && Bit(3, 0) == 1;
    assert KERNELS[0] == RowKernel;
    forall j, v | 0 <= j < 4
      ensures !KernelHit(b, KERNELS[j], 0, v)
    {
      forall p | 0 <= p < Placements(KERNELS[j])
        ensures !PlacementHit(b, KERNELS[j], p, 0, v)
      {
        if j == 0 && p == 0 {
          assert !Mask(b, 0, v, KernelCell(KERNELS[j], p, 0)) || !Mask(b, 0, v, KernelCell(KERNELS[j], p, 1));
        } else {
          var c := KernelCell(KERNELS[j], p, 3);
          assert 4 <= c < 16 && b[c] == EMPTY_CODE;
          assert !Mask(b, 0, v, c);
        }
      }
    }
    assert !ChannelHit(b, 0);
    assert Bit(2, 1) == 1 && Bit(3, 1) == 1 && Bit(6, 1) == 1 && Bit(7, 1) == 1;
    assert SharesAttribute(b, 0, 1);
  }

  /** The cells of a board that hold the empty code, row-major. */
  function EmptyCellsBelow(b: QCells, n: nat): (cells: seq<int>)
    requires n <= 16
    ensures forall i :: 0 <= i < |cells| ==> 0 <= cells[i] < n
    ensures forall c :: c in cells <==> 0 <= c < n && b[c] == EMPTY_CODE
    ensures forall i, j :: 0 <= i < j < |cells| ==> cells[i] < cells[j]
  {
    if n == 0 then [] else EmptyCellsBelow(b, n - 1) + (if b[n - 1] == EMPTY_CODE then [n - 1] else [])
  }

  /** One cell paired with every piece, in piece order. */
  function Place(row: int, col: int, pieces: seq<int>): (actions: seq<(int, int, int)>)
    ensures forall a :: a in actions <==> a.0 == row && a.1 == col && a.2 in pieces
  {
    if pieces == [] then []
    else
      assert forall p :: p in pieces <==> p == pieces[0] || p in pieces[1..];
      [(row, col, pieces[0])] + Place(row, col, pieces[1..])
  }

  /** `product(cells, pieces)` spelt as (row, col, piece) triples, cell-major. */
  function Product(cells: seq<int>, pieces: seq<int>): (actions: seq<(int, int, int)>)
    requires forall i :: 0 <= i < |cells| ==> 0 <= cells[i] < 16
    ensures forall a :: a in actions <==> 0 <= a.0 < 4 && 0 <= a.1 < 4 && 4 * a.0 + a.1 in cells && a.2 in pieces
  {
    if cells == [] then []
    else
      var c := cells[0];
      assert forall c' :: c' in cells <==> c' == c || c' in cells[1..];
      Place(c / 4, c % 4, pieces) + Product(cells[1..], pieces)
  }

  class QuartoBoard {
    var cells: array<int>
    var availablePieces: seq<int>
    var turn: int
    var lastMove: Option<(int, int, int)>

    ghost predicate Valid()
      reads this
    {
      cells.Length == 16
    }

    function Value(): QCells
      reads this, cells
      requires Valid()
    {
      cells[..]
    }

    /** The available pieces are exactly the piece ids not on the board, ascending. */
    ghost predicate Consistent()
      reads this, cells
      requires Valid()
    {
      (forall p :: p in availablePieces <==> 0 <= p < PIECE_COUNT && p !in cells[..])
      && forall i, j :: 0 <= i < j < |availablePieces| ==> availablePieces[i] < availablePieces[j]
    }

    /** `QuartoBoard(board, turn)`: a missing board starts with every cell 16;
        the available pieces are the ids not found on the board. */
    constructor (board: Option<array<int>>, turn: int)
      requires board.Some? ==> board.value.Length == 16
      ensures Valid() && Consistent() && this.turn == turn && lastMove == None
      ensures board.Some? ==> cells == board.value
      ensures board.None? ==> fresh(cells) && Value() == seq(16, _ => EMPTY_CODE)
      ensures availablePieces == Missing(Value())
    {
      if board.Some? {
        cells := board.value;
      } else {
        cells := new int[16](_ => EMPTY_CODE);
      }
      new;
      availablePieces := Missing(cells[..]);
      this.turn := turn;
      lastMove := None;
    }

    method UpdateTurn()
      modifies this`turn
      ensures turn == 1 - old(turn)
    {
      turn := 1 - turn;
    }

    /** `drop_piece((row, col, piece_id))`: the cell and the last move are
        written first; a piece that is not available then raises ValueError
        and leaves the turn unchanged. */
    method DropPiece(action: (int, int, int)) returns (outcome: Result<()>)
      requires Valid() && 0 <= action.0 < 4 && 0 <= action.1 < 4
      modifies this`turn, this`lastMove, this`availablePieces, cells
      ensures Valid() && cells == old(cells)
      ensures Value() == old(Value())[4 * action.0 + action.1 := action.2] && lastMove == Some(action)
      ensures outcome.Err? <==> action.2 !in old(availablePieces)
      ensures outcome.Err? ==> outcome.error == ValueError && turn == old(turn)
                               && availablePieces == old(availablePieces)
      ensures outcome.Ok? ==> turn == 1 - old(turn) && Ok(availablePieces) == Remove(old(availablePieces), action.2)
      ensures old(Consistent() && IsValidAction(action)) ==> Consistent()
    {
      var (row, col, pieceId) := action;
      cells[4 * row + col] := pieceId;
      lastMove := Some(action);
      match Remove(availablePieces, pieceId)
      case Err(_) =>
        return Err(ValueError);
      case Ok(rest) =>
        ghost var before := availablePieces;
        availablePieces := rest;
        UpdateTurn();
        if old(Consistent() && IsValidAction(action)) {
          RemoveKeepsOrder(before, pieceId, rest);
          assert cells[..] == old(cells[..])[4 * row + col := pieceId];
          forall p ensures p in availablePieces <==> 0 <= p < PIECE_COUNT && p !in cells[..] {
            if p == pieceId {
              assert cells[4 * row + col] == p;
            } else if 0 <= p < PIECE_COUNT {
              UpdateMembership(old(cells[..]), 4 * row + col, pieceId, p);
            }
          }
        }
        return Ok(());
    }

    /** `is_valid_action`: the piece is still available and the cell is empty. */
    function IsValidAction(action: (int, int, int)): (valid: bool)
      reads this, cells
      requires Valid() && 0 <= action.0 < 4 && 0 <= action.1 < 4
      ensures valid <==> action.2 in availablePieces && cells[4 * action.0 + action.1] == EMPTY_CODE
    {
      if action.2 !in availablePieces then false else cells[4 * action.0 + action.1] == EMPTY_CODE
    }

    /** `winning_move()` as written: the `return False` sits inside the
        channel loop, so its first pass, channel 0, is the only one that runs
        and only attribute 0 is ever compared. */
    method WinningMove() returns (won: bool)
      requires Valid()
      ensures won <==> WinsOnChannels(Value(), 1)
    {
      var channel := 0;
      var j := 0;
      while j < 4
        invariant 0 <= j <= 4
        invariant forall j' | 0 <= j' < j :: !KernelHit(Value(), KERNELS[j'], channel, 0) && !KernelHit(Value(), KERNELS[j'], channel, 1)
      {
        if KernelHit(Value(), KERNELS[j], channel, 0) || KernelHit(Value(), KERNELS[j], channel, 1) {
          assert ChannelHit(Value(), channel);
          return true;
        }
        j := j + 1;
      }
      return false;
    }

    /** `winning_move()` as intended, with `return False` after the channel
        loop: every attribute is compared, and the answer is the Quarto win
        rule. */
    method WinningMoveAllChannels() returns (won: bool)
      requires Valid()
      ensures won <==> WinsOnChannels(Value(), 4)
      ensures Codes(Value()) ==> (won <==> Wins(Value()))
    {
      var channel := 0;
      while channel < 4
        invariant 0 <= channel <= 4
        invariant forall ch | 0 <= ch < channel :: !ChannelHit(Value(), ch)
      {
        var j := 0;
        while j < 4
          invariant 0 <= j <= 4
          invariant forall j' | 0 <= j' < j :: !KernelHit(Value(), KERNELS[j'], channel, 0) && !KernelHit(Value(), KERNELS[j'], channel, 1)
        {
          if KernelHit(Value(), KERNELS[j], channel, 0) || KernelHit(Value(), KERNELS[j], channel, 1) {
            assert ChannelHit(Value(), channel);
            return true;
          }
          j := j + 1;
        }
        channel := channel + 1;
      }
      return false;
    }

    /** `tie()`: no cell holds the empty code. */
    function Tie(): (tie: bool)
      reads this, cells
      requires Valid()
      ensures tie <==> forall i :: 0 <= i < 16 ==> cells[i] != EMPTY_CODE
    {
      CountAbsent(Value(), EMPTY_CODE);
      Count(Value(), EMPTY_CODE) == 0
    }

    /** `get_valid_actions()`: every empty cell paired with every available piece. */
    function GetValidActions(): (actions: seq<(int, int, int)>)
      reads this, cells
      requires Valid()
      ensures forall a :: a in actions <==> 0 <= a.0 < 4 && 0 <= a.1 < 4
                                            && cells[4 * a.0 + a.1] == EMPTY_CODE && a.2 in availablePieces
    {
      Product(EmptyCellsBelow(Value(), 16), availablePieces)
    }
  }

  /** Removing an element from an ascending list keeps it ascending and removes
      that element only. */
  lemma RemoveKeepsOrder(s: seq<int>, x: int, r: seq<int>)
    requires forall i, j :: 0 <= i < j < |s| ==> s[i] < s[j]
    requires Remove(s, x) == Ok(r)
    ensures forall i, j :: 0 <= i < j < |r| ==> r[i] < r[j]
    ensures forall p :: p in r <==> p in s && p != x
  {
    var i := IndexOf(s, x);
    assert r == s[..i] + s[i + 1..];
    assert forall k | 0 <= k < |r| :: r[k] == (if k < i then s[k] else s[k + 1]);
    forall p | p in s && p != x ensures p in r {
      var k :| 0 <= k < |s| && s[k] == p;
      if k < i { assert r[k] == p; } else { assert r[k - 1] == p; }
    }
  }

  /** Overwriting a cell that did not hold p with a value other than p does
      not change whether p is present. */
  lemma UpdateMembership(s: seq<int>, i: int, v: int, p: int)
    requires 0 <= i < |s| && s[i] != p && v != p
    ensures p in s[i := v] <==> p in s
  {
    if p in s {
      var k :| 0 <= k < |s| && s[k] == p;
      assert s[i := v][k] == p;
    }
    if p in s[i := v] {
      var k :| 0 <= k < |s| && s[i := v][k] == p;
      assert s[k] == p;
    }
  }
}
