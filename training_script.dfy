/** neural_evaluator/training_script.py: the policy padding applied to the
    training samples before training. A stored policy has no entry for a full
    column; `normalize_policies` inserts a 0 at the index of every full column,
    in ascending column order, so that every policy lines up with the seven
    columns again. */
module TrainingScript {
  import opened Common
  import opened Grid
  import Heuristic

  /** `(board != 0).sum(axis=0)[c]`: the pieces in column c. */
  function Filled(b: Cells, c: int): nat
    requires 0 <= c < COLS
  {
    ROWS - Count(Heuristic.Column(b, c), EMPTY)
  }

  /** The full columns among 0 .. n-1, ascending. */
  function FullColumnsBelow(b: Cells, n: nat): (cols: seq<int>)
    requires n <= COLS
    ensures forall i | 0 <= i < |cols| :: 0 <= cols[i] < n && Filled(b, cols[i]) == ROWS
    ensures forall i, j | 0 <= i < j < |cols| :: cols[i] < cols[j]
    ensures forall c | 0 <= c < n && Filled(b, c) == ROWS :: c in cols
  {
    if n == 0 then []
    else FullColumnsBelow(b, n - 1) + (if Filled(b, n - 1) == ROWS then [n - 1] else [])
  }

  /** `detect_full_cols(board)`: `np.where(... == 6)[0].tolist()`. */
  function DetectFullCols(b: Cells): seq<int> {
    FullColumnsBelow(b, COLS)
  }

  /** A column is reported exactly when none of its cells is empty, which is
      exactly when it is not a valid move. */
  lemma FullColumnIff(b: Cells, c: int)
    requires 0 <= c < COLS
    ensures c in DetectFullCols(b) <==> forall r | 0 <= r < ROWS :: At(b, r, c) != EMPTY
    ensures Settled(b) ==> (c in DetectFullCols(b) <==> !ValidColumn(b, c))
  {
    var col := Heuristic.Column(b, c);
    CountAbsent(col, EMPTY);
    if EMPTY in col {
      var r :| 0 <= r < ROWS && col[r] == EMPTY;
      assert At(b, r, c) == EMPTY;
      if Settled(b) {
        EmptyUpward(b, r, c);
      }
    } else {
      assert col[ROWS - 1] != EMPTY;
    }
  }

  /** `list.insert(idx, x)`: x goes before position idx, or at the end when
      idx is past it. */
  function Insert(s: seq<real>, idx: nat, x: real): (t: seq<real>)
    ensures |t| == |s| + 1
  {
    if idx >= |s| then s + [x] else s[..idx] + [x] + s[idx..]
  }

  /** Removing the entry at idx, the inverse of an insertion there. */
  function Remove(s: seq<real>, idx: nat): (t: seq<real>)
    requires idx < |s|
    ensures |t| == |s| - 1
  {
    s[..idx] + s[idx + 1..]
  }

  lemma RemoveInsert(s: seq<real>, idx: nat, x: real)
    requires idx <= |s|
    ensures Remove(Insert(s, idx, x), idx) == s
  {
    var t := Insert(s, idx, x);
    assert t[..idx] == s[..idx] && t[idx + 1..] == s[idx..];
  }

  /** The policy after the inner loop: a 0 inserted at each index in turn. */
  function Pad(pol: seq<real>, cols: seq<int>): (out: seq<real>)
    requires forall i | 0 <= i < |cols| :: cols[i] >= 0
    ensures |out| == |pol| + |cols|
  {
    if cols == [] then pol else Insert(Pad(pol, cols[..|cols| - 1]), cols[|cols| - 1], 0.0)
  }

  /** Each index is in range when its insertion happens: the j-th index is at
      most the length the policy has reached by then. */
  predicate InRange(pol: seq<real>, cols: seq<int>) {
    forall j | 0 <= j < |cols| :: 0 <= cols[j] <= |pol| + j
  }

  /** Taking the padding out again, last insertion first. */
  function Unpad(out: seq<real>, cols: seq<int>): seq<real>
    requires |out| >= |cols| && forall j | 0 <= j < |cols| :: 0 <= cols[j] < |out| - |cols| + j + 1
  {
    if cols == [] then out else Unpad(Remove(out, cols[|cols| - 1]), cols[..|cols| - 1])
  }

  /** The padding loses nothing: removing the inserted zeros gives the
      stored policy back. */
  lemma {:induction false} UnpadPad(pol: seq<real>, cols: seq<int>)
    requires InRange(pol, cols)
    ensures Unpad(Pad(pol, cols), cols) == pol
  {
    if cols != [] {
      var init, last := cols[..|cols| - 1], cols[|cols| - 1];
      assert InRange(pol, init);
      RemoveInsert(Pad(pol, init), last, 0.0);
      UnpadPad(pol, init);
    }
  }

  /** With the indices ascending and in range, every reported index holds 0
      after the padding. */
  lemma {:induction false} PadZeros(pol: seq<real>, cols: seq<int>)
    requires InRange(pol, cols) && forall i, j | 0 <= i < j < |cols| :: cols[i] < cols[j]
    ensures forall j | 0 <= j < |cols| :: Pad(pol, cols)[cols[j]] == 0.0
  {
    if cols != [] {
      var init, last := cols[..|cols| - 1], cols[|cols| - 1];
      assert InRange(pol, init);
      PadZeros(pol, init);
      var p := Pad(pol, init);
      forall j | 0 <= j < |cols| ensures Pad(pol, cols)[cols[j]] == 0.0 {
        if j < |cols| - 1 {
          assert init[j] == cols[j] < last;
        }
      }
    }
  }

  /** The inner loop of `normalize_policies`: a copy of the policy gets a 0
      inserted at every full column of the board, in ascending order. */
  method PadPolicy(board: Cells, pol: seq<real>) returns (pol2: seq<real>)
    ensures pol2 == Pad(pol, DetectFullCols(board))
  {
    pol2 := pol;
    var cols := DetectFullCols(board);
    for i := 0 to |cols|
      invariant pol2 == Pad(pol, cols[..i])
    {
      assert cols[..i + 1][..i] == cols[..i];
      pol2 := Insert(pol2, cols[i], 0.0);
    }
    assert cols[..|cols|] == cols;
  }

  /** `normalize_policies(boards, policies)`: one padded policy per (board,
      policy) pair, in order, as many as the shorter of the two lists. */
  method NormalizePolicies(boards: seq<Cells>, policies: seq<seq<real>>) returns (newPols: seq<seq<real>>)
    ensures |newPols| == if |boards| <= |policies| then |boards| else |policies|
    ensures forall i | 0 <= i < |newPols| :: newPols[i] == Pad(policies[i], DetectFullCols(boards[i]))
  {
    newPols := [];
    var n := if |boards| <= |policies| then |boards| else |policies|;
    for i := 0 to n
      invariant |newPols| == i
      invariant forall k | 0 <= k < i :: newPols[k] == Pad(policies[k], DetectFullCols(boards[k]))
    {
      var pol2 := PadPolicy(boards[i], policies[i]);
      newPols := newPols + [pol2];
    }
  }

  /** A policy with one entry per open column comes out with one entry per
      column, 0 at the full ones, and the open columns' entries recoverable. */
  lemma NormalizedPolicyShape(board: Cells, pol: seq<real>)
    requires |pol| + |DetectFullCols(board)| == COLS
    ensures InRange(pol, DetectFullCols(board))
    ensures |Pad(pol, DetectFullCols(board))| == COLS
    ensures forall c | 0 <= c < COLS && c in DetectFullCols(board) :: Pad(pol, DetectFullCols(board))[c] == 0.0
    ensures Unpad(Pad(pol, DetectFullCols(board)), DetectFullCols(board)) == pol
  {
    var cols := DetectFullCols(board);
    AscendingInRange(cols, |pol|);
    PadZeros(pol, cols);
    UnpadPad(pol, cols);
  }

  /** n ascending indices below n + m are each at most m plus their position. */
  lemma {:induction false} AscendingInRange(cols: seq<int>, m: nat)
    requires forall i, j | 0 <= i < j < |cols| :: cols[i] < cols[j]
    requires forall i | 0 <= i < |cols| :: 0 <= cols[i] < |cols| + m
    ensures forall j | 0 <= j < |cols| :: cols[j] <= m + j
  {
    if cols != [] {
      var init := cols[..|cols| - 1];
      forall i | 0 <= i < |init| ensures init[i] < |init| + m {
        assert cols[i] < cols[|cols| - 1];
      }
      AscendingInRange(init, m);
    }
  }
}
