/** The abstract `Node` of alphaconnect4/engines/mcts.py (lines 149-184): what
    the search engine may ask of a game state. A node is a value; its identity
    (`__hash__`/`__eq__`) is a key K, and the engine's dictionaries are keyed by
    it. Besides the calls the engine makes, a game supplies a rank on keys that
    every move lowers (for Connect-Four, the number of empty cells), which is
    what makes every descent and every playout finite. */
module GameNode {
  import opened Common

  datatype Game<!N(==,!new), !K(==)> = Game(
    id: N -> K,                  // `__hash__`; `__eq__` compares it
    findChildren: N -> set<N>,   // `find_children()`
    isTerminal: N -> bool,       // `is_terminal()`
    reward: N -> real,           // `reward()`, read on terminal nodes: 1 win, 0 loss, 0.5 tie
    lastMove: N -> int,          // `last_move`: the action that produced the node
    rank: K -> nat,              // a bound on the plies left from a node
    moves: nat)                  // the size of the action set: last moves are 0 .. moves-1

  /** Children of one node are told apart by their identity and by their last
      move, and their last moves index the action set. */
  ghost predicate Siblings<N(!new), K>(g: Game<N, K>, s: set<N>) {
    (forall c | c in s :: 0 <= g.lastMove(c) < g.moves)
    && (forall c1, c2 | c1 in s && c2 in s && c1 != c2 :: g.id(c1) != g.id(c2) && g.lastMove(c1) != g.lastMove(c2))
  }

  /** What every game must promise the engine: a node is terminal exactly when
      it has no children (the `is_terminal` docstring), a move lowers the rank,
      and siblings are distinct. */
  ghost predicate Contract<N(!new), K>(g: Game<N, K>) {
    (forall n {:trigger g.isTerminal(n)} :: g.isTerminal(n) <==> g.findChildren(n) == {})
    && (forall n, c | c in g.findChildren(n) :: g.rank(g.id(c)) < g.rank(g.id(n)))
    && (forall n :: Siblings(g, g.findChildren(n)))
  }

  /** `find_random_child()`: None on a terminal node, otherwise one of its
      children, chosen at random. */
  method FindRandomChild<N(==,!new), K(==)>(g: Game<N, K>, n: N) returns (c: Option<N>)
    requires Contract(g)
    ensures c.None? <==> g.isTerminal(n)
    ensures c.Some? ==> c.value in g.findChildren(n)
  {
    if g.isTerminal(n) {
      return None;
    }
    var child :| child in g.findChildren(n);
    return Some(child);
  }

  /** Every finite nonempty set has an element of greatest f. */
  lemma {:induction false} MaxExists<T>(s: set<T>, f: T --> real)
    requires s != {} && forall x | x in s :: f.requires(x)
    ensures exists m :: m in s && forall x | x in s :: f(x) <= f(m)
    decreases |s|
  {
    var y :| y in s;
    if s != {y} {
      MaxExists(s - {y}, f);
      var m :| m in s - {y} && forall x | x in s - {y} :: f(x) <= f(m);
      if f(m) < f(y) {
        assert forall x | x in s :: f(x) <= f(y);
      } else {
        assert forall x | x in s :: f(x) <= f(m);
      }
    } else {
      assert forall x | x in s :: x == y;
    }
  }

  /** Every finite nonempty set has an element of least integer key. */
  lemma {:induction false} MinExists<T>(s: set<T>, key: T -> int)
    requires s != {}
    ensures exists m :: m in s && forall x | x in s :: key(m) <= key(x)
    decreases |s|
  {
    var y :| y in s;
    if s != {y} {
      MinExists(s - {y}, key);
      var m :| m in s - {y} && forall x | x in s - {y} :: key(m) <= key(x);
      if key(y) < key(m) {
        assert forall x | x in s :: key(y) <= key(x);
      } else {
        assert forall x | x in s :: key(m) <= key(x);
      }
    } else {
      assert forall x | x in s :: x == y;
    }
  }

  /** `max(s, key=f)`: an element of s whose key no other element exceeds
      (which of several maximal ones depends on the set's iteration order). */
  method ArgMax<T(==)>(s: set<T>, f: T --> real) returns (m: T)
    requires s != {} && forall x | x in s :: f.requires(x)
    ensures m in s && forall x | x in s :: f(x) <= f(m)
  {
    MaxExists(s, f);
    m :| m in s && forall x | x in s :: f(x) <= f(m);
  }

  /** The element of least key, when keys tell the elements apart. */
  function MinByKey<T(==,!new)>(s: set<T>, key: T -> int): (m: T)
    requires s != {}
    requires forall x, y | x in s && y in s && x != y :: key(x) != key(y)
    ensures m in s && forall x | x in s && x != m :: key(m) < key(x)
  {
    MinExists(s, key);
    var m :| m in s && forall x | x in s :: key(m) <= key(x);
    m
  }

  /** `sorted(s, key=key)` for keys that tell the elements apart: every element
      once, keys ascending. */
  function SortByKey<T(==,!new)>(s: set<T>, key: T -> int): (r: seq<T>)
    requires forall x, y | x in s && y in s && x != y :: key(x) != key(y)
    ensures |r| == |s| && forall x :: x in r <==> x in s
    ensures forall i, j | 0 <= i < j < |r| :: key(r[i]) < key(r[j])
    decreases |s|
  {
    if s == {} then []
    else
      var m := MinByKey(s, key);
      var rest := SortByKey(s - {m}, key);
      LeastFirst(s, key, m, rest);
      [m] + rest
  }

  /** Putting the least element in front of the sorted others sorts the set. */
  lemma LeastFirst<T>(s: set<T>, key: T -> int, m: T, rest: seq<T>)
    requires m in s && forall x | x in s && x != m :: key(m) < key(x)
    requires |rest| == |s - {m}| && forall x :: x in rest <==> x in s - {m}
    requires forall i, j | 0 <= i < j < |rest| :: key(rest[i]) < key(rest[j])
    ensures |[m] + rest| == |s| && forall x :: x in [m] + rest <==> x in s
    ensures forall i, j | 0 <= i < j < |[m] + rest| :: key(([m] + rest)[i]) < key(([m] + rest)[j])
  {
    var r := [m] + rest;
    forall i, j | 0 <= i < j < |r| ensures key(r[i]) < key(r[j]) {
      assert r[j] == rest[j - 1] && r[j] in rest;
      if i > 0 {
        assert r[i] == rest[i - 1];
      }
    }
  }
}
