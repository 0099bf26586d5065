/** api/run_flask.py: `RunFlaskCommand.board_from_string`, which reads the
    board of a move request: `np.fromstring(str_board, dtype=int, sep=" ")`
    parses whitespace-separated integers, and the reshape to 6 x 7 places
    token k at row k div 7, column k mod 7, which is cell k of the row-major
    board. A token count other than 42 makes the reshape raise. */
module FlaskBoard {
  import opened Common
  import opened Grid

  predicate IsSpace(ch: char) {
    ch == ' ' || ch == '\t' || ch == '\n' || ch == '\r'
  }

  predicate IsDigit(ch: char) {
    '0' <= ch <= '9'
  }

  function DigitValue(ch: char): (d: nat)
    requires IsDigit(ch)
    ensures d <= 9
  {
    (ch - '0') as nat
  }

  /** The length of the run of non-space characters that starts s. */
  function WordLength(s: string): (n: nat)
    ensures n <= |s|
    ensures forall i | 0 <= i < n :: !IsSpace(s[i])
    ensures n < |s| ==> IsSpace(s[n])
  {
    if s == [] || IsSpace(s[0]) then 0 else 1 + WordLength(s[1..])
  }

  /** The whitespace-separated tokens of s, in order. */
  function Words(s: string): (ws: seq<string>)
    ensures forall i | 0 <= i < |ws| :: ws[i] != [] && forall k | 0 <= k < |ws[i]| :: !IsSpace(ws[i][k])
    decreases |s|
  {
    if s == [] then []
    else if IsSpace(s[0]) then Words(s[1..])
    else
      var n := WordLength(s);
      [s[..n]] + Words(s[n..])
  }

  /** The value of a nonempty run of decimal digits. */
  function Natural(w: string): nat
    requires forall k | 0 <= k < |w| :: IsDigit(w[k])
  {
    if w == [] then 0 else Natural(w[..|w| - 1]) * 10 + DigitValue(w[|w| - 1])
  }

  predicate AllDigits(w: string) {
    w != [] && forall k | 0 <= k < |w| :: IsDigit(w[k])
  }

  /** A token as an integer: decimal digits, optionally after a minus sign. */
  function ParseInt(w: string): (v: Option<int>)
    ensures v.Some? <==> AllDigits(w) || (|w| > 1 && w[0] == '-' && AllDigits(w[1..]))
  {
    if AllDigits(w) then Some(Natural(w))
    else if |w| > 1 && w[0] == '-' && AllDigits(w[1..]) then Some(0 - Natural(w[1..]) as int)
    else None
  }

  /** The values of the leading tokens that are integers; reading stops at the
      first one that is not. */
  function ParseInts(ws: seq<string>): (vs: seq<int>)
    ensures |vs| <= |ws|
    ensures forall i | 0 <= i < |vs| :: ParseInt(ws[i]) == Some(vs[i])
    ensures |vs| < |ws| ==> ParseInt(ws[|vs|]).None?
  {
    if ws == [] then []
    else match ParseInt(ws[0])
      case None => []
      case Some(v) => [v] + ParseInts(ws[1..])
  }

  /** `board_from_string(str_board)`: the parsed integers as the 6 x 7 board,
      ValueError when there are not exactly 42 of them. */
  function BoardFromString(s: string): (r: Result<Cells>)
    ensures r.Err? <==> |ParseInts(Words(s))| != SIZE
    ensures r.Err? ==> r.error == ValueError
    ensures r.Ok? ==> forall k | 0 <= k < SIZE :: At(r.value, k / COLS, k % COLS) == ParseInts(Words(s))[k]
  {
    var values := ParseInts(Words(s));
    if |values| != SIZE then Err(ValueError) else var b: Cells := values; Ok(b)
  }

  /** The request text for single-digit cells, each followed by a space. */
  function Render(xs: seq<int>): string
    requires forall i | 0 <= i < |xs| :: 0 <= xs[i] <= 9
  {
    if xs == [] then "" else [('0' as int + xs[0]) as char, ' '] + Render(xs[1..])
  }

  /** The tokens of a rendered sequence are its digits, one each. */
  lemma {:induction false} WordsOfRender(xs: seq<int>)
    requires forall i | 0 <= i < |xs| :: 0 <= xs[i] <= 9
    ensures |Words(Render(xs))| == |xs|
    ensures forall i | 0 <= i < |xs| :: Words(Render(xs))[i] == [('0' as int + xs[i]) as char]
  {
    if xs != [] {
      var s := Render(xs);
      var rest := Render(xs[1..]);
      assert s == [s[0]] + ([' '] + rest);
      assert WordLength(s) == 1;
      assert s[1..] == [' '] + rest;
      assert Words(s[1..]) == Words(rest);
      WordsOfRender(xs[1..]);
    }
  }

  /** Parsing a rendered sequence gives it back. */
  lemma {:induction false} ParseRender(xs: seq<int>)
    requires forall i | 0 <= i < |xs| :: 0 <= xs[i] <= 9
    ensures ParseInts(Words(Render(xs))) == xs
  {
    WordsOfRender(xs);
    ParseDigits(Words(Render(xs)), xs);
  }

  lemma {:induction false} ParseDigits(ws: seq<string>, xs: seq<int>)
    requires |ws| == |xs| && forall i | 0 <= i < |xs| :: 0 <= xs[i] <= 9 && ws[i] == [('0' as int + xs[i]) as char]
    ensures ParseInts(ws) == xs
  {
    if ws != [] {
      var w := ws[0];
      assert AllDigits(w);
      assert w[..0] == [];
      assert Natural(w) == xs[0];
      ParseDigits(ws[1..], xs[1..]);
    }
  }

  /** Round trip: a board of single-digit cells, written out as a request
      text, reads back as the same board. */
  lemma BoardRoundTrip(b: Cells)
    requires forall i | 0 <= i < SIZE :: 0 <= b[i] <= 9
    ensures BoardFromString(Render(b)) == Ok(b)
  {
    ParseRender(b);
  }

  /** Any other number of tokens is refused. */
  lemma WrongCountRefused(xs: seq<int>)
    requires forall i | 0 <= i < |xs| :: 0 <= xs[i] <= 9
    requires |xs| != SIZE
    ensures BoardFromString(Render(xs)) == Err(ValueError)
  {
    ParseRender(xs);
  }

  /** The request text of tests/test_api/test_run_flask_command.py:36, 36
      empty cells and then `1 2 1 1 2 2`, reads as a 6 x 7 board. */
  lemma SampleRequestReads()
    ensures BoardFromString(Render(seq(36, _ => 0) + [1, 2, 1, 1, 2, 2])).Ok?
  {
    var xs := seq(36, _ => 0) + [1, 2, 1, 1, 2, 2];
    ParseRender(xs);
  }
}
