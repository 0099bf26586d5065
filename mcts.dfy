/** alphaconnect4/engines/mcts.py, with the two neural searchers that override
    parts of it (alphaconnect4/engines/neural_mcts.py and engines/neural_mcts.py).
    The searcher's state is four dictionaries and a list, all updated in place:
    `q_value` (total reward per node), `visit_count`, `children` (the successor
    set recorded when a node is expanded), `p_value` (the priors of the neural
    searchers) and `unexplored_backlog` (root-to-frontier paths still to be
    rolled out). Dictionaries are keyed by node identity and read with
    defaults, as `defaultdict` does. The three searchers are one class whose
    `variant` selects the overridden members. */
module Mcts {
  import opened Common
  import opened GameNode

  /** Which searcher: the base `MCTS`, the `NeuralMCTS` of alphaconnect4/engines,
      or the older `NeuralMCTS` of engines/. */
  datatype Variant = Vanilla | Neural | LegacyNeural

  /** `neural_interface.score(leaf)`: a value for the leaf and one prior per action. */
  datatype Evaluation = Evaluation(value: real, policy: seq<real>)

  /** `score(n)`: minus infinity for an unvisited node, else an average reward. */
  datatype ScoreValue = NegInf | Avg(value: real)

  /** `defaultdict(float)[k]` (and `defaultdict(int)` for the priors). */
  function Get<K(==)>(m: map<K, real>, k: K): real {
    if k in m then m[k] else 0.0
  }

  /** `defaultdict(int)[k]` for visit counts. */
  function GetNat<K(==)>(m: map<K, nat>, k: K): nat {
    if k in m then m[k] else 0
  }

  ghost predicate Distinct<K>(ids: seq<K>) {
    forall i, j | 0 <= i < j < |ids| :: ids[i] != ids[j]
  }

  /** The reward seen j levels above the node that first received r: the
      reward flips to `1 - reward` at every level. */
  function Flip(r: real, j: nat): (f: real)
    ensures j % 2 == 0 ==> f == r
    ensures j % 2 == 1 ==> f == 1.0 - r
  {
    if j == 0 then r else 1.0 - Flip(r, j - 1)
  }

  /** The q values after `_backpropagate`: walking the ids from the last one,
      each gains the current reward, which then becomes `1 - reward`. */
  function AddRewards<K(==)>(q: map<K, real>, ids: seq<K>, r: real): map<K, real>
    decreases |ids|
  {
    if ids == [] then q
    else
      var k := ids[|ids| - 1];
      AddRewards(q[k := Get(q, k) + r], ids[..|ids| - 1], 1.0 - r)
  }

  /** The visit counts after `_backpropagate`: one more visit per id. */
  function BumpVisits<K(==)>(v: map<K, nat>, ids: seq<K>): map<K, nat>
    decreases |ids|
  {
    if ids == [] then v
    else
      var k := ids[|ids| - 1];
      BumpVisits(v[k := GetNat(v, k) + 1], ids[..|ids| - 1])
  }

  /** Backpropagation leaves an id that is not on the path as it was. */
  lemma {:induction false} AddRewardsOffPath<K>(q: map<K, real>, ids: seq<K>, r: real, k: K)
    requires k !in ids
    ensures Get(AddRewards(q, ids, r), k) == Get(q, k)
    ensures k in AddRewards(q, ids, r) <==> k in q
    decreases |ids|
  {
    if ids != [] {
      var last := ids[|ids| - 1];
      assert k != last;
      AddRewardsOffPath(q[last := Get(q, last) + r], ids[..|ids| - 1], 1.0 - r, k);
    }
  }

  /** On a path of distinct ids, the j-th id gains r flipped once per level
      between it and the end of the path: r, 1-r, r, ... from leaf to root. */
  lemma {:induction false} AddRewardsOnPath<K>(q: map<K, real>, ids: seq<K>, r: real, j: int)
    requires Distinct(ids) && 0 <= j < |ids|
    ensures ids[j] in AddRewards(q, ids, r)
    ensures Get(AddRewards(q, ids, r), ids[j]) == Get(q, ids[j]) + Flip(r, |ids| - 1 - j)
    decreases |ids|
  {
    var n := |ids|;
    var last := ids[n - 1];
    var q' := q[last := Get(q, last) + r];
    var rest := ids[..n - 1];
    if j == n - 1 {
      assert last !in rest;
      AddRewardsOffPath(q', rest, 1.0 - r, last);
    } else {
      assert rest[j] == ids[j] && ids[j] != last;
      AddRewardsOnPath(q', rest, 1.0 - r, j);
      assert Flip(1.0 - r, n - 2 - j) == Flip(r, n - 1 - j);
    }
  }

  lemma {:induction false} BumpVisitsOffPath<K>(v: map<K, nat>, ids: seq<K>, k: K)
    requires k !in ids
    ensures GetNat(BumpVisits(v, ids), k) == GetNat(v, k)
    ensures k in BumpVisits(v, ids) <==> k in v
    decreases |ids|
  {
    if ids != [] {
      var last := ids[|ids| - 1];
      assert k != last;
      BumpVisitsOffPath(v[last := GetNat(v, last) + 1], ids[..|ids| - 1], k);
    }
  }

  /** On a path of distinct ids every id gains exactly one visit. */
  lemma {:induction false} BumpVisitsOnPath<K>(v: map<K, nat>, ids: seq<K>, j: int)
    requires Distinct(ids) && 0 <= j < |ids|
    ensures ids[j] in BumpVisits(v, ids)
    ensures GetNat(BumpVisits(v, ids), ids[j]) == GetNat(v, ids[j]) + 1
    decreases |ids|
  {
    var n := |ids|;
    var last := ids[n - 1];
    var v' := v[last := GetNat(v, last) + 1];
    var rest := ids[..n - 1];
    if j == n - 1 {
      assert last !in rest;
      BumpVisitsOffPath(v', rest, last);
    } else {
      assert rest[j] == ids[j] && ids[j] != last;
      BumpVisitsOnPath(v', rest, j);
    }
  }

  /** Parity, counted down one ply at a time. */
  function Even(n: nat): bool {
    if n == 0 then true else !Even(n - 1)
  }

  /** A random playout: a chain of children from `from` to a terminal node. */
  ghost predicate IsPlayout<N(!new), K>(g: Game<N, K>, playout: seq<N>, from: N) {
    IsPlayoutPrefix(g, playout, from) && g.isTerminal(playout[|playout| - 1])
  }

  /** A playout that may not have reached the end of the game yet. */
  ghost predicate IsPlayoutPrefix<N(!new), K>(g: Game<N, K>, playout: seq<N>, from: N) {
    |playout| >= 1 && playout[0] == from
    && forall i, j | 0 <= i && j == i + 1 < |playout| :: playout[j] in g.findChildren(playout[i])
  }

  /** The value `_simulate` reports for a playout: the reward of its final
      node as it stands when an odd number of plies was played, and inverted
      when an even number was (none included), so that it is seen from the
      side that moved into the playout's first node. */
  ghost function PlayoutValue<N(!new), K>(g: Game<N, K>, playout: seq<N>): real
    requires |playout| >= 1
  {
    var r := g.reward(playout[|playout| - 1]);
    if Even(|playout| - 1) then 1.0 - r else r
  }

  lemma ExtendPlayout<N(!new), K>(g: Game<N, K>, playout: seq<N>, from: N, c: N)
    requires IsPlayoutPrefix(g, playout, from) && c in g.findChildren(playout[|playout| - 1])
    ensures IsPlayoutPrefix(g, playout + [c], from)
  {
    var p := playout + [c];
    forall i, j | 0 <= i && j == i + 1 < |p| ensures p[j] in g.findChildren(p[i]) {
      if j < |playout| {
        assert p[i] == playout[i] && p[j] == playout[j];
      }
    }
  }

  /** `_simulate(node)`: play random children until the game ends. */
  method Simulate<N(==,!new), K(==)>(g: Game<N, K>, node: N) returns (reward: real, playout: seq<N>)
    requires Contract(g)
    ensures IsPlayout(g, playout, node)
    ensures reward == PlayoutValue(g, playout)
  {
    var invertReward := true;
    var current := node;
    ghost var plies: nat := 0;
    playout := [node];
    while true
      invariant IsPlayoutPrefix(g, playout, node) && playout[|playout| - 1] == current
      invariant |playout| == plies + 1 && invertReward == Even(plies)
      decreases g.rank(g.id(current))
    {
      if g.isTerminal(current) {
        var r := g.reward(current);
        return if invertReward then 1.0 - r else r, playout;
      }
      var next := FindRandomChild(g, current);
      ExtendPlayout(g, playout, node, next.value);
      current := next.value;
      playout := playout + [current];
      invertReward := !invertReward;
      plies := plies + 1;
    }
  }

  /** The identities of the nodes of a path. */
  ghost function PathIds<N(!new), K>(g: Game<N, K>, path: seq<N>): (ids: seq<K>)
    ensures |ids| == |path| && forall i | 0 <= i < |path| :: ids[i] == g.id(path[i])
  {
    seq(|path|, i requires 0 <= i < |path| => g.id(path[i]))
  }

  ghost predicate RankStep<N(!new), K>(g: Game<N, K>, a: N, b: N) {
    g.rank(g.id(b)) < g.rank(g.id(a))
  }

  /** Every step of the path lowers the rank. */
  ghost predicate RankChain<N(!new), K>(g: Game<N, K>, path: seq<N>) {
    forall i, j | 0 <= i && j == i + 1 < |path| :: RankStep(g, path[i], path[j])
  }

  /** b is a recorded child of a. */
  ghost predicate ChildStep<N(!new), K>(g: Game<N, K>, ch: map<K, set<N>>, a: N, b: N) {
    g.id(a) in ch && b in ch[g.id(a)]
  }

  /** Every step of the path goes from an expanded node to one of its recorded children. */
  ghost predicate ChildChain<N(!new), K>(g: Game<N, K>, ch: map<K, set<N>>, path: seq<N>) {
    forall i, j | 0 <= i && j == i + 1 < |path| :: ChildStep(g, ch, path[i], path[j])
  }

  /** The recorded children obey the game's contract. */
  ghost predicate TreeShape<N(!new), K>(g: Game<N, K>, ch: map<K, set<N>>) {
    Contract(g)
    && (forall k, c | k in ch && c in ch[k] :: g.rank(g.id(c)) < g.rank(k))
    && (forall k | k in ch :: Siblings(g, ch[k]))
  }

  /** Every pending path is a nonempty descent. */
  ghost predicate PathsOk<N(!new), K>(g: Game<N, K>, b: seq<seq<N>>) {
    forall p | p in b :: |p| > 0 && RankChain(g, p)
  }

  /** Every pending path starts at `root`. */
  ghost predicate StartsAt<N>(b: seq<seq<N>>, root: N) {
    forall p | p in b :: |p| > 0 && p[0] == root
  }

  /** Every expanded node has been visited. */
  ghost predicate AllVisited<N, K>(ch: map<K, set<N>>, v: map<K, nat>) {
    forall k | k in ch :: k in v && v[k] >= 1
  }

  /** The children entry after `_expand(leaf)`: an existing entry is never recomputed. */
  ghost function Expanded<N(!new), K>(g: Game<N, K>, ch: map<K, set<N>>, leaf: N): map<K, set<N>> {
    if g.id(leaf) in ch then ch else ch[g.id(leaf) := g.findChildren(leaf)]
  }

  /** The identities of a set of nodes. */
  ghost function IdSet<N(!new), K>(g: Game<N, K>, cs: set<N>): set<K> {
    set c | c in cs :: g.id(c)
  }

  /** The priors after the loop of `NeuralMCTS.do_rollout`: each child holds
      the policy entry at its last move, and no other prior changes. */
  ghost predicate PriorsByMove<N(!new), K>(g: Game<N, K>, p0: map<K, real>, p: map<K, real>, cs: set<N>, policy: seq<real>) {
    (forall c | c in cs :: g.id(c) in p && 0 <= g.lastMove(c) < |policy| && p[g.id(c)] == policy[g.lastMove(c)])
    && p.Keys == p0.Keys + IdSet(g, cs)
    && forall k | k in p0 && k !in IdSet(g, cs) :: p[k] == p0[k]
  }

  lemma PriorsByMoveAdd<N(!new), K>(g: Game<N, K>, p0: map<K, real>, p: map<K, real>,
                                    cs: set<N>, done: set<N>, c: N, policy: seq<real>)
    requires Siblings(g, cs) && done <= cs && c in cs && c !in done
    requires PriorsByMove(g, p0, p, done, policy) && g.lastMove(c) < |policy|
    ensures PriorsByMove(g, p0, p[g.id(c) := policy[g.lastMove(c)]], done + {c}, policy)
  {
    assert forall x | x in done :: g.id(x) != g.id(c);
    assert IdSet(g, done + {c}) == IdSet(g, done) + {g.id(c)};
  }

  lemma TakeOne<T>(cs: set<T>, todo: set<T>, c: T)
    requires todo <= cs && c in todo
    ensures cs - (todo - {c}) == (cs - todo) + {c} && cs - todo <= cs && c !in cs - todo
  {
  }

  /** The identities of the first n nodes of s. */
  ghost function PrefixIds<N(!new), K>(g: Game<N, K>, s: seq<N>, n: nat): set<K>
    requires n <= |s|
  {
    if n == 0 then {} else PrefixIds(g, s, n - 1) + {g.id(s[n - 1])}
  }

  /** How far `zip` goes. */
  function MinLength<T, U>(a: seq<T>, b: seq<U>): (n: nat)
    ensures n <= |a| && n <= |b| && (n == |a| || n == |b|)
  {
    if |a| < |b| then |a| else |b|
  }

  /** The priors after `zip(policy, nodes)` has assigned its first n pairs:
      the i-th node holds the i-th policy entry, and no other prior changes. */
  ghost predicate PriorsZip<N(!new), K>(g: Game<N, K>, p0: map<K, real>, p: map<K, real>,
                                        nodes: seq<N>, policy: seq<real>, n: nat) {
    n <= |nodes| && n <= |policy|
    && (forall i | 0 <= i < n :: g.id(nodes[i]) in p && p[g.id(nodes[i])] == policy[i])
    && p.Keys == p0.Keys + PrefixIds(g, nodes, n)
    && forall k | k in p0 && k !in PrefixIds(g, nodes, n) :: p[k] == p0[k]
  }

  /** The priors after the loop of the legacy `do_rollout`: the i-th child in
      ascending order of last move holds the i-th policy entry, as far as the
      shorter of the two goes, and no other prior changes. */
  ghost predicate PriorsBySortedMove<N(!new), K>(g: Game<N, K>, p0: map<K, real>, p: map<K, real>, cs: set<N>, policy: seq<real>) {
    Siblings(g, cs)
    && var sorted := SortByKey(cs, g.lastMove);
       PriorsZip(g, p0, p, sorted, policy, MinLength(sorted, policy))
  }

  /** No two nodes of the list share an identity. */
  ghost predicate DistinctIds<N(!new), K>(g: Game<N, K>, nodes: seq<N>) {
    forall i, j | 0 <= i < j < |nodes| :: g.id(nodes[i]) != g.id(nodes[j])
  }

  lemma SortedIdsDistinct<N(!new), K>(g: Game<N, K>, cs: set<N>)
    requires Siblings(g, cs)
    ensures DistinctIds(g, SortByKey(cs, g.lastMove))
  {
    var sorted := SortByKey(cs, g.lastMove);
    forall i, j | 0 <= i < j < |sorted| ensures g.id(sorted[i]) != g.id(sorted[j]) {
      assert sorted[i] in cs && sorted[j] in cs;
      assert g.lastMove(sorted[i]) < g.lastMove(sorted[j]);
    }
  }

  lemma DropLast<T>(s: seq<T>)
    requires |s| > 0
    ensures s[..|s| - 1] + [s[|s| - 1]] == s
  {
  }

  /** The pending paths are exactly one path `stem + [c]` per node c of `cs`. */
  ghost predicate PushedFor<N(!new)>(b: seq<seq<N>>, stem: seq<N>, cs: set<N>) {
    |b| == |cs| && forall p :: p in b <==> exists c | c in cs :: p == stem + [c]
  }

  lemma {:induction false} RankDescends<N(!new), K>(g: Game<N, K>, path: seq<N>, i: int, j: int)
    requires RankChain(g, path) && 0 <= i < j < |path|
    ensures g.rank(g.id(path[j])) < g.rank(g.id(path[i]))
    decreases j - i
  {
    if j > i + 1 {
      RankDescends(g, path, i, j - 1);
    }
    assert RankStep(g, path[j - 1], path[j]);
  }

  /** A descent never meets the same node twice. */
  lemma RankChainDistinct<N(!new), K>(g: Game<N, K>, path: seq<N>)
    requires RankChain(g, path)
    ensures Distinct(PathIds(g, path))
  {
    forall i, j | 0 <= i < j < |path|
      ensures g.rank(g.id(path[j])) < g.rank(g.id(path[i]))
    {
      RankDescends(g, path, i, j);
    }
  }

  lemma ChildChainRanks<N(!new), K>(g: Game<N, K>, ch: map<K, set<N>>, path: seq<N>)
    requires TreeShape(g, ch) && ChildChain(g, ch, path)
    ensures RankChain(g, path)
  {
    forall i, j | 0 <= i && j == i + 1 < |path|
      ensures RankStep(g, path[i], path[j])
    {
      assert ChildStep(g, ch, path[i], path[j]);
    }
  }

  lemma ExtendChildChain<N(!new), K>(g: Game<N, K>, ch: map<K, set<N>>, path: seq<N>, c: N)
    requires ChildChain(g, ch, path) && |path| > 0
    requires g.id(path[|path| - 1]) in ch && c in ch[g.id(path[|path| - 1])]
    ensures ChildChain(g, ch, path + [c])
  {
    var p := path + [c];
    forall i, j | 0 <= i && j == i + 1 < |p| ensures ChildStep(g, ch, p[i], p[j]) {
      if j < |path| {
        assert p[i] == path[i] && p[j] == path[j];
      }
    }
  }

  lemma PathsOkPrefix<N(!new), K>(g: Game<N, K>, b: seq<seq<N>>, root: N, n: int)
    requires PathsOk(g, b) && 0 <= n <= |b|
    ensures PathsOk(g, b[..n])
    ensures StartsAt(b, root) ==> StartsAt(b[..n], root)
  {
    assert forall p | p in b[..n] :: p in b;
  }

  /** The paths pushed for the unexplored children of a descent's last node
      are descents from the same first node. */
  lemma PushedPathsOk<N(!new), K>(g: Game<N, K>, ch: map<K, set<N>>, b: seq<seq<N>>, stem: seq<N>, cs: set<N>)
    requires TreeShape(g, ch) && |stem| > 0 && ChildChain(g, ch, stem)
    requires g.id(stem[|stem| - 1]) in ch && cs <= ch[g.id(stem[|stem| - 1])]
    requires forall p :: p in b <==> exists c | c in cs :: p == stem + [c]
    ensures PathsOk(g, b) && StartsAt(b, stem[0])
    ensures forall p | p in b :: ChildChain(g, ch, p)
  {
    forall p | p in b ensures |p| > 0 && RankChain(g, p) && p[0] == stem[0] && ChildChain(g, ch, p) {
      var c :| c in cs && p == stem + [c];
      ExtendChildChain(g, ch, stem, c);
      ChildChainRanks(g, ch, p);
    }
  }

  /** The last of the pushed paths, and the paths left after taking it. */
  lemma TakeLastPushed<N(!new), K>(g: Game<N, K>, ch: map<K, set<N>>, b: seq<seq<N>>, stem: seq<N>, cs: set<N>)
    requires TreeShape(g, ch) && |stem| > 0 && ChildChain(g, ch, stem)
    requires g.id(stem[|stem| - 1]) in ch && cs <= ch[g.id(stem[|stem| - 1])] && cs != {}
    requires |b| == |cs| && forall p :: p in b <==> exists c | c in cs :: p == stem + [c]
    ensures |b| > 0 && PathsOk(g, b[..|b| - 1]) && StartsAt(b[..|b| - 1], stem[0])
    ensures var path := b[|b| - 1];
            |path| == |stem| + 1 && path[..|stem|] == stem && path[|stem|] in cs
            && RankChain(g, path) && ChildChain(g, ch, path)
    ensures PushedFor(b[..|b| - 1] + [b[|b| - 1]], stem, cs)
  {
    PushedPathsOk(g, ch, b, stem, cs);
    var path := b[|b| - 1];
    assert path in b;
    var c :| c in cs && path == stem + [c];
    assert path[..|stem|] == stem && path[|stem|] == c;
    PathsOkPrefix(g, b, stem[0], |b| - 1);
    DropLast(b);
  }

  /** After a rollout every expanded node has been visited: the nodes that
      were expanded before keep their visits or gain one, and the newly
      expanded leaf lies on the path, which gains one visit per node. */
  lemma VisitsAfterRollout<N, K>(ch0: map<K, set<N>>, ch: map<K, set<N>>, v0: map<K, nat>, ids: seq<K>)
    requires AllVisited(ch0, v0) && Distinct(ids)
    requires forall k | k in ch :: k in ch0 || k in ids
    ensures AllVisited(ch, BumpVisits(v0, ids))
  {
    forall k | k in ch ensures k in BumpVisits(v0, ids) && BumpVisits(v0, ids)[k] >= 1 {
      if k in ids {
        var j :| 0 <= j < |ids| && ids[j] == k;
        BumpVisitsOnPath(v0, ids, j);
      } else {
        BumpVisitsOffPath(v0, ids, k);
      }
    }
  }

  /** The dictionary comprehension of `get_policy`: each child's visits over
      d, keyed by the child's last move. */
  function PolicyMap<N(!new), K(==)>(g: Game<N, K>, cs: set<N>, v: map<K, nat>, d: real): (m: map<int, real>)
    requires Siblings(g, cs) && d > 0.0
    ensures m.Keys == set c | c in cs :: g.lastMove(c)
  {
    map c | c in cs :: g.lastMove(c) := GetNat(v, g.id(c)) as real / d
  }

  lemma PolicyMapAt<N(!new), K>(g: Game<N, K>, cs: set<N>, v: map<K, nat>, d: real)
    requires Siblings(g, cs) && d > 0.0
    ensures forall c | c in cs :: PolicyMap(g, cs, v, d)[g.lastMove(c)] == GetNat(v, g.id(c)) as real / d
  {
  }

  /** The list comprehension of `get_policy`: the same values in ascending
      order of the children's last moves. */
  function PolicyList<N(!new), K(==)>(g: Game<N, K>, cs: set<N>, v: map<K, nat>, d: real): (l: seq<real>)
    requires Siblings(g, cs) && d > 0.0
    ensures |l| == |cs|
  {
    var sorted := SortByKey(cs, g.lastMove);
    seq(|sorted|, i requires 0 <= i < |sorted| => GetNat(v, g.id(sorted[i])) as real / d)
  }

  /** The list holds the dictionary's values, ordered by key. */
  lemma PolicyListAt<N(!new), K>(g: Game<N, K>, cs: set<N>, v: map<K, nat>, d: real)
    requires Siblings(g, cs) && d > 0.0
    ensures var sorted := SortByKey(cs, g.lastMove);
            forall i | 0 <= i < |cs| ::
              sorted[i] in cs && PolicyList(g, cs, v, d)[i] == PolicyMap(g, cs, v, d)[g.lastMove(sorted[i])]
  {
    PolicyMapAt(g, cs, v, d);
  }

  lemma DivMonotone(a: real, b: real, d: real)
    requires a <= b && d > 0.0
    ensures a / d <= b / d
  {
    assert b / d - a / d == (b - a) / d;
  }

  /** The score `_uct_select` maximises, for a child with total reward q over
      n visits and prior p under a parent with `parentVisits` visits: the
      average reward plus an exploration term, which is `w * sqrt(ln N / n)`
      for the base searcher, `w * p * sqrt(N) / (1 + n)` for `NeuralMCTS` and
      `w * p * sqrt(ln N / n)` for the legacy one. */
  function UctScore(variant: Variant, w: real, logBonus: (nat, nat) -> real, sqrtOf: nat -> real,
                    q: real, n: nat, p: real, parentVisits: nat): real
    requires n >= 1
  {
    match variant
    case Vanilla => q / n as real + w * logBonus(parentVisits, n)
    case Neural => q / n as real + w * p * sqrtOf(parentVisits) / (1 + n) as real
    case LegacyNeural => q / n as real + w * p * logBonus(parentVisits, n)
  }

  class MCTS<N(==,!new), K(==)> {
    const game: Game<N, K>
    const explorationWeight: real
    const variant: Variant
    /** The network of the neural searchers. */
    const evaluate: N -> Evaluation
    /** `math.sqrt(math.log(N) / n)` for a parent with N visits and a child with n. */
    const logBonus: (nat, nat) -> real
    /** `math.sqrt(N)`. */
    const sqrtOf: nat -> real

    var qValue: map<K, real>
    var visitCount: map<K, nat>
    var children: map<K, set<N>>
    var backlog: seq<seq<N>>
    var pValue: map<K, real>

    function Q(k: K): real
      reads this`qValue
    {
      Get(qValue, k)
    }

    function Visits(k: K): nat
      reads this`visitCount
    {
      GetNat(visitCount, k)
    }

    function Prior(k: K): real
      reads this`pValue
    {
      Get(pValue, k)
    }

    /** The recorded children obey the game's contract and every pending path
        is a descent. */
    ghost predicate Structure()
      reads this`children, this`backlog
    {
      TreeShape(game, children) && PathsOk(game, backlog)
    }

    /** The network of `NeuralMCTS` gives one prior per action. */
    ghost predicate PolicyShape() {
      variant == Neural ==> forall n :: |evaluate(n).policy| == game.moves
    }

    /** Between rollouts the tree is well formed and every expanded node has
        been visited. */
    ghost predicate Valid()
      reads this`children, this`backlog, this`visitCount
    {
      Structure() && AllVisited(children, visitCount) && PolicyShape()
    }

    /** `MCTS(exploration_weight)` (and the neural subclasses): an empty tree. */
    constructor (game: Game<N, K>, explorationWeight: real, variant: Variant,
                 evaluate: N -> Evaluation, logBonus: (nat, nat) -> real, sqrtOf: nat -> real)
      requires Contract(game)
      requires variant == Neural ==> forall n :: |evaluate(n).policy| == game.moves
      ensures Valid()
      ensures this.game == game && this.explorationWeight == explorationWeight && this.variant == variant
      ensures this.evaluate == evaluate && this.logBonus == logBonus && this.sqrtOf == sqrtOf
      ensures qValue == map[] && visitCount == map[] && children == map[] && backlog == [] && pValue == map[]
    {
      this.game := game;
      this.explorationWeight := explorationWeight;
      this.variant := variant;
      this.evaluate := evaluate;
      this.logBonus := logBonus;
      this.sqrtOf := sqrtOf;
      qValue := map[];
      visitCount := map[];
      children := map[];
      backlog := [];
      pValue := map[];
    }

    /** `score(n)`: an unvisited node scores minus infinity; otherwise the q
        value is truncated to an integer before it is divided by the visits. */
    function Score(n: N): (s: ScoreValue)
      reads this`qValue, this`visitCount
      ensures s.NegInf? <==> Visits(game.id(n)) == 0
      ensures s.Avg? ==> s.value * Visits(game.id(n)) as real == Trunc(Q(game.id(n))) as real
    {
      var v := Visits(game.id(n));
      if v == 0 then NegInf else Avg(Trunc(Q(game.id(n))) as real / v as real)
    }

    /** `max(1, visit_count[node] - 1)`: the policy denominator, never 0. */
    function PolicyDenominator(node: N): (d: nat)
      reads this`visitCount
      ensures d >= 1
      ensures Visits(game.id(node)) >= 2 ==> d == Visits(game.id(node)) - 1
    {
      if Visits(game.id(node)) - 1 > 1 then Visits(game.id(node)) - 1 else 1
    }

    /** `get_policy(node, return_dict=True)`: each recorded child's visits over
        the denominator, keyed by the child's last move; KeyError when the
        node was never expanded. */
    function GetPolicy(node: N): (r: Result<map<int, real>>)
      reads this`children, this`visitCount
      requires TreeShape(game, children)
      ensures r.Err? <==> game.id(node) !in children
      ensures r.Err? ==> r.error == KeyError
      ensures r.Ok? ==> r.value.Keys == set c | c in children[game.id(node)] :: game.lastMove(c)
      ensures r.Ok? ==> forall c | c in children[game.id(node)] ::
                          r.value[game.lastMove(c)] == Visits(game.id(c)) as real / PolicyDenominator(node) as real
    {
      var k := game.id(node);
      if k !in children then Err(KeyError)
      else
        PolicyMapAt(game, children[k], visitCount, PolicyDenominator(node) as real);
        Ok(PolicyMap(game, children[k], visitCount, PolicyDenominator(node) as real))
    }

    /** Policy values follow visit counts: a child visited at least as often
        as a sibling gets at least the sibling's value. */
    lemma PolicyFollowsVisits(node: N, a: N, b: N)
      requires TreeShape(game, children) && game.id(node) in children
      requires a in children[game.id(node)] && b in children[game.id(node)]
      requires Visits(game.id(a)) <= Visits(game.id(b))
      ensures GetPolicy(node).value[game.lastMove(a)] <= GetPolicy(node).value[game.lastMove(b)]
    {
      var d := PolicyDenominator(node) as real;
      assert Visits(game.id(a)) as real / d <= Visits(game.id(b)) as real / d by {
        DivMonotone(Visits(game.id(a)) as real, Visits(game.id(b)) as real, d);
      }
    }

    /** `get_policy(node, return_dict=False)`: the same values as a list; KeyError
        when the node was never expanded. */
    function GetPolicyList(node: N): (r: Result<seq<real>>)
      reads this`children, this`visitCount
      requires TreeShape(game, children)
      ensures r.Err? <==> game.id(node) !in children
      ensures r.Ok? ==> |r.value| == |children[game.id(node)]|
    {
      var k := game.id(node);
      if k !in children then Err(KeyError)
      else Ok(PolicyList(game, children[k], visitCount, PolicyDenominator(node) as real))
    }

    /** The list form holds the values of the dictionary form in ascending
        order of the children's last moves. */
    lemma PolicyListMatchesDict(node: N)
      requires TreeShape(game, children) && game.id(node) in children
      ensures var sorted := SortByKey(children[game.id(node)], game.lastMove);
              forall i | 0 <= i < |GetPolicyList(node).value| ::
                sorted[i] in children[game.id(node)]
                && GetPolicyList(node).value[i] == GetPolicy(node).value[game.lastMove(sorted[i])]
                && (i > 0 ==> game.lastMove(sorted[i - 1]) < game.lastMove(sorted[i]))
    {
      PolicyListAt(game, children[game.id(node)], visitCount, PolicyDenominator(node) as real);
    }

    /** `choose(node)`: an unexpanded node falls back to `find_random_child()`
        (None exactly when it is terminal); an expanded node with no children
        makes `max` raise ValueError; otherwise a most-visited child. */
    method Choose(node: N) returns (r: Result<Option<N>>)
      requires Valid()
      ensures game.id(node) !in children ==>
                r.Ok? && (r.value.None? <==> game.isTerminal(node))
                && (r.value.Some? ==> r.value.value in game.findChildren(node))
      ensures game.id(node) in children && children[game.id(node)] == {} ==> r == Err(ValueError)
      ensures game.id(node) in children && children[game.id(node)] != {} ==>
                r.Ok? && r.value.Some? && r.value.value in children[game.id(node)]
                && forall c | c in children[game.id(node)] :: Visits(game.id(c)) <= Visits(game.id(r.value.value))
    {
      var k := game.id(node);
      if k !in children {
        var c := FindRandomChild(game, node);
        return Ok(c);
      }
      if children[k] == {} {
        return Err(ValueError);
      }
      var g, v := game, visitCount;
      var best := ArgMax(children[k], c => GetNat(v, g.id(c)) as real);
      return Ok(Some(best));
    }

    /** The sum of the scores of a list of visited nodes. */
    function ScoreSum(cs: seq<N>): real
      reads this`qValue, this`visitCount
      requires forall i | 0 <= i < |cs| :: Visits(game.id(cs[i])) > 0
    {
      if cs == [] then 0.0 else ScoreSum(cs[..|cs| - 1]) + Score(cs[|cs| - 1]).value
    }

    /** A list of visited nodes whose scores sum to more than 0 holds a node
        of positive score: `random.choices` has something to draw. */
    lemma {:induction false} PositiveScore(cs: seq<N>) returns (i: int)
      requires forall j | 0 <= j < |cs| :: Visits(game.id(cs[j])) > 0
      requires ScoreSum(cs) > 0.0
      ensures 0 <= i < |cs| && Score(cs[i]).Avg? && Score(cs[i]).value > 0.0
    {
      var last := |cs| - 1;
      if Score(cs[last]).value > 0.0 {
        return last;
      }
      i := PositiveScore(cs[..last]);
      assert cs[..last][i] == cs[i];
    }

    /** `choose_stochastic(node)`: sample a recorded child. The base searcher
        weighs children by their squared visits, so it draws a visited child
        and fails (ValueError) when none is visited; the legacy neural searcher
        refuses terminal nodes (RuntimeError) and weighs children by `score`,
        which fails when some child is unvisited (its weight is minus infinity)
        or the weights do not sum to a positive total. An empty list of
        children makes the draw raise IndexError; an unexpanded node falls back
        to `find_random_child()`. */
    method ChooseStochastic(node: N) returns (r: Result<Option<N>>)
      requires Valid()
      ensures variant == LegacyNeural && game.isTerminal(node) ==> r == Err(RuntimeError)
      ensures (variant != LegacyNeural || !game.isTerminal(node)) && game.id(node) !in children ==>
                r.Ok? && (r.value.None? <==> game.isTerminal(node))
                && (r.value.Some? ==> r.value.value in game.findChildren(node))
      ensures ((variant != LegacyNeural || !game.isTerminal(node)) && game.id(node) in children
               && children[game.id(node)] == {}) ==> r == Err(IndexError)
      ensures (variant != LegacyNeural && game.id(node) in children && children[game.id(node)] != {}) ==>
                (r.Ok? <==> exists c | c in children[game.id(node)] :: Visits(game.id(c)) > 0)
                && (r.Err? ==> r.error == ValueError)
                && (r.Ok? ==> r.value.Some? && r.value.value in children[game.id(node)]
                              && Visits(game.id(r.value.value)) > 0)
      ensures (variant == LegacyNeural && !game.isTerminal(node) && game.id(node) in children
               && children[game.id(node)] != {}) ==>
                var cs := children[game.id(node)];
                ((exists c | c in cs :: Visits(game.id(c)) == 0) ==> r == Err(ValueError))
                && ((forall c | c in cs :: Visits(game.id(c)) > 0) ==>
                      (r.Ok? <==> ScoreSum(SortByKey(cs, game.lastMove)) > 0.0)
                      && (r.Err? ==> r.error == ValueError)
                      && (r.Ok? ==> r.value.Some? && r.value.value in cs
                                    && Score(r.value.value).Avg? && Score(r.value.value).value > 0.0))
    {
      var k := game.id(node);
      if variant == LegacyNeural && game.isTerminal(node) {
        return Err(RuntimeError);
      }
      if k !in children {
        var c := FindRandomChild(game, node);
        return Ok(c);
      }
      var cs := children[k];
      if cs == {} {
        return Err(IndexError);
      }
      if variant != LegacyNeural {
        if forall c | c in cs :: Visits(game.id(c)) == 0 {
          return Err(ValueError);
        }
        var c :| c in cs && Visits(game.id(c)) > 0;
        return Ok(Some(c));
      }
      if exists c | c in cs :: Visits(game.id(c)) == 0 {
        return Err(ValueError);
      }
      r := DrawByScore(node);
    }

    /** `random.choices(childrens, weights=[self.score(n) ...])` over visited
        children: ValueError unless the weights sum to more than 0, otherwise
        a child of positive weight. */
    method DrawByScore(node: N) returns (r: Result<Option<N>>)
      requires Valid() && game.id(node) in children
      requires forall c | c in children[game.id(node)] :: Visits(game.id(c)) > 0
      ensures var cs := children[game.id(node)];
              (r.Ok? <==> ScoreSum(SortByKey(cs, game.lastMove)) > 0.0)
              && (r.Err? ==> r.error == ValueError)
              && (r.Ok? ==> r.value.Some? && r.value.value in cs
                            && Score(r.value.value).Avg? && Score(r.value.value).value > 0.0)
    {
      var cs := children[game.id(node)];
      var sorted := SortByKey(cs, game.lastMove);
      if ScoreSum(sorted) <= 0.0 {
        return Err(ValueError);
      }
      ghost var i := PositiveScore(sorted);
      assert sorted[i] in cs;
      var c :| c in cs && Score(c).Avg? && Score(c).value > 0.0;
      return Ok(Some(c));
    }

    /** The selection score of child n under the node whose key is `parent`. */
    function SelectionScore(parent: K, n: N): real
      reads this`qValue, this`visitCount, this`pValue
      requires Visits(game.id(n)) >= 1
    {
      UctScore(variant, explorationWeight, logBonus, sqrtOf,
               Q(game.id(n)), Visits(game.id(n)), Prior(game.id(n)), Visits(parent))
    }

    /** c is what `_uct_select(parent)` may return: a recorded child of
        greatest selection score, all children being expanded and visited. */
    ghost predicate UctStep(parent: N, c: N)
      reads this`children, this`qValue, this`visitCount, this`pValue
    {
      var k := game.id(parent);
      k in children && c in children[k]
      && (forall x | x in children[k] :: game.id(x) in children && Visits(game.id(x)) >= 1)
      && forall x | x in children[k] :: SelectionScore(k, x) <= SelectionScore(k, c)
    }

    /** Every step of the path is a `_uct_select` step. */
    ghost predicate UctPath(path: seq<N>)
      reads this`children, this`qValue, this`visitCount, this`pValue
    {
      forall i, j | 0 <= i && j == i + 1 < |path| :: UctStep(path[i], path[j])
    }

    /** `_uct_select(node)`: all children must already be expanded (the legacy
        searcher asserts it). */
    method UctSelect(node: N) returns (c: N)
      requires Valid() && game.id(node) in children && children[game.id(node)] != {}
      requires forall x | x in children[game.id(node)] :: game.id(x) in children
      ensures UctStep(node, c)
    {
      var k := game.id(node);
      var g, q, v, p, parentVisits := game, qValue, visitCount, pValue, Visits(k);
      var w, lb, sq, kind := explorationWeight, logBonus, sqrtOf, variant;
      c := ArgMax(children[k], x requires GetNat(v, g.id(x)) >= 1 =>
                    UctScore(kind, w, lb, sq, Get(q, g.id(x)), GetNat(v, g.id(x)), Get(p, g.id(x)), parentVisits));
    }

    lemma ExtendUctPath(path: seq<N>, c: N)
      requires |path| > 0 && UctPath(path) && UctStep(path[|path| - 1], c)
      ensures UctPath(path + [c])
    {
      var p := path + [c];
      forall i, j | 0 <= i && j == i + 1 < |p| ensures UctStep(p[i], p[j]) {
        if j < |path| {
          assert p[i] == path[i] && p[j] == path[j];
        }
      }
    }

    lemma UctPathIsChildChain(path: seq<N>)
      requires UctPath(path)
      ensures ChildChain(game, children, path)
    {
      forall i, j | 0 <= i && j == i + 1 < |path|
        ensures ChildStep(game, children, path[i], path[j])
      {
        assert UctStep(path[i], path[j]);
      }
    }

    /** The children of n that were never expanded: `children[node] - keys`. */
    function Unexplored(n: N): (u: set<N>)
      reads this`children
      requires game.id(n) in children
      ensures forall c :: c in u <==> c in children[game.id(n)] && game.id(c) !in children
    {
      set c | c in children[game.id(n)] && game.id(c) !in children
    }

    /** The descent of `_select`: from `node`, follow `_uct_select` children
        until a node that is unexpanded, has no children, or has children that
        were never expanded. */
    method Descend(node: N) returns (path: seq<N>)
      requires Valid()
      ensures |path| > 0 && path[0] == node && UctPath(path)
      ensures var leaf := path[|path| - 1];
              game.id(leaf) !in children || children[game.id(leaf)] == {} || Unexplored(leaf) != {}
    {
      var current := node;
      path := [node];
      while true
        invariant |path| > 0 && path[0] == node && path[|path| - 1] == current && UctPath(path)
        decreases game.rank(game.id(current))
      {
        var k := game.id(current);
        if k !in children || children[k] == {} || Unexplored(current) != {} {
          return;
        }
        forall x | x in children[k] ensures game.id(x) in children {
          assert x !in Unexplored(current);
        }
        var next := UctSelect(current);
        ExtendUctPath(path, next);
        path := path + [next];
        current := next;
      }
    }

    /** `unexplored_backlog.append(path + [n])` for every n of cs. */
    method PushPaths(stem: seq<N>, cs: set<N>)
      modifies this`backlog
      ensures |backlog| == |old(backlog)| + |cs| && backlog[..|old(backlog)|] == old(backlog)
      ensures forall p :: p in backlog[|old(backlog)|..] <==> exists c | c in cs :: p == stem + [c]
    {
      var todo := cs;
      while todo != {}
        invariant todo <= cs
        invariant |backlog| == |old(backlog)| + |cs - todo| && backlog[..|old(backlog)|] == old(backlog)
        invariant forall p :: p in backlog[|old(backlog)|..] <==> exists c | c in cs - todo :: p == stem + [c]
        decreases |todo|
      {
        var c :| c in todo;
        ghost var before := backlog;
        backlog := backlog + [stem + [c]];
        assert backlog[|old(backlog)|..] == before[|old(backlog)|..] + [stem + [c]];
        assert cs - (todo - {c}) == (cs - todo) + {c};
        todo := todo - {c};
      }
    }

    /** `_select(node)`: a pending path is taken from the end of the backlog
        when there is one. Otherwise descend from `node` by `_uct_select`; at
        a node with children that were never expanded, push one path per such
        child and take the last pushed (`pushed`); at an unexpanded or
        childless node, answer the descent itself. */
    method Select(node: N) returns (path: seq<N>, ghost pushed: bool)
      requires Valid()
      modifies this`backlog
      ensures Valid()
      ensures |path| > 0 && RankChain(game, path)
      ensures old(backlog) != [] ==> !pushed && path == old(backlog)[|old(backlog)| - 1]
                                     && backlog == old(backlog)[..|old(backlog)| - 1]
      ensures old(backlog) == [] ==>
                path[0] == node && ChildChain(game, children, path)
                && (game.id(path[|path| - 1]) !in children || children[game.id(path[|path| - 1])] == {})
      ensures old(backlog) == [] && !pushed ==> UctPath(path) && backlog == []
      ensures old(backlog) == [] && pushed ==>
                |path| >= 2 && UctPath(path[..|path| - 1]) && game.id(path[|path| - 2]) in children
                && path[|path| - 1] in Unexplored(path[|path| - 2])
                && PushedFor(backlog + [path], path[..|path| - 1], Unexplored(path[|path| - 2]))
      ensures StartsAt(old(backlog), node) ==> StartsAt(backlog, node)
    {
      pushed := false;
      if backlog != [] {
        path := backlog[|backlog| - 1];
        PathsOkPrefix(game, backlog, node, |backlog| - 1);
        backlog := backlog[..|backlog| - 1];
        return;
      }
      var stem := Descend(node);
      UctPathIsChildChain(stem);
      var leaf := stem[|stem| - 1];
      var k := game.id(leaf);
      if k !in children || children[k] == {} {
        ChildChainRanks(game, children, stem);
        return stem, false;
      }
      path := PushAndTake(stem);
      pushed := true;
      assert path[|path| - 2] == leaf && path[..|path| - 1] == stem;
    }

    /** The pushing end of `_select`: the backlog being empty, push `stem + [c]`
        for every child c of the stem's last node that was never expanded, then
        take the last pushed path. */
    method PushAndTake(stem: seq<N>) returns (path: seq<N>)
      requires Valid() && backlog == []
      requires |stem| > 0 && ChildChain(game, children, stem)
      requires game.id(stem[|stem| - 1]) in children && Unexplored(stem[|stem| - 1]) != {}
      modifies this`backlog
      ensures Valid() && StartsAt(backlog, stem[0])
      ensures |path| == |stem| + 1 && path[..|stem|] == stem
      ensures path[|stem|] in Unexplored(stem[|stem| - 1])
      ensures RankChain(game, path) && ChildChain(game, children, path)
      ensures PushedFor(backlog + [path], stem, Unexplored(stem[|stem| - 1]))
    {
      var unexplored := Unexplored(stem[|stem| - 1]);
      PushPaths(stem, unexplored);
      assert backlog[0..] == backlog;
      TakeLastPushed(game, children, backlog, stem, unexplored);
      path := backlog[|backlog| - 1];
      backlog := backlog[..|backlog| - 1];
    }

    /** `_expand(node)`: record the node's children, unless they already are. */
    method Expand(node: N)
      requires TreeShape(game, children)
      modifies this`children
      ensures TreeShape(game, children)
      ensures children == Expanded(game, old(children), node)
    {
      var k := game.id(node);
      if k in children {
        return;
      }
      children := children[k := game.findChildren(node)];
    }

    /** `_backpropagate(path, reward)`: from the end of the path to its start,
        each node gains a visit and the current reward, which then flips. */
    method Backpropagate(path: seq<N>, reward: real)
      modifies this`visitCount, this`qValue
      ensures visitCount == BumpVisits(old(visitCount), PathIds(game, path))
      ensures qValue == AddRewards(old(qValue), PathIds(game, path), reward)
    {
      ghost var ids := PathIds(game, path);
      var i := |path|;
      var r := reward;
      assert ids[..i] == ids;
      while i > 0
        invariant 0 <= i <= |path|
        invariant BumpVisits(visitCount, ids[..i]) == BumpVisits(old(visitCount), ids)
        invariant AddRewards(qValue, ids[..i], r) == AddRewards(old(qValue), ids, reward)
      {
        i := i - 1;
        var k := game.id(path[i]);
        assert ids[..i + 1][..i] == ids[..i];
        visitCount := visitCount[k := GetNat(visitCount, k) + 1];
        qValue := qValue[k := Get(qValue, k) + r];
        r := 1.0 - r;
      }
      assert ids[..0] == [];
    }

    /** The prior loop of `NeuralMCTS.do_rollout`. */
    method AssignPriors(cs: set<N>, policy: seq<real>)
      requires Siblings(game, cs) && forall c | c in cs :: game.lastMove(c) < |policy|
      modifies this`pValue
      ensures PriorsByMove(game, old(pValue), pValue, cs, policy)
    {
      var todo := cs;
      while todo != {}
        invariant todo <= cs
        invariant PriorsByMove(game, old(pValue), pValue, cs - todo, policy)
        decreases |todo|
      {
        var c :| c in todo;
        TakeOne(cs, todo, c);
        PriorsByMoveAdd(game, old(pValue), pValue, cs, cs - todo, c, policy);
        pValue := pValue[game.id(c) := policy[game.lastMove(c)]];
        todo := todo - {c};
      }
      assert cs - todo == cs;
    }

    /** The prior loop of the legacy `do_rollout`. */
    method AssignSortedPriors(cs: set<N>, policy: seq<real>)
      requires Siblings(game, cs)
      modifies this`pValue
      ensures PriorsBySortedMove(game, old(pValue), pValue, cs, policy)
    {
      var sorted := SortByKey(cs, game.lastMove);
      SortedIdsDistinct(game, cs);
      AssignZip(sorted, policy);
    }

    /** `for p, n in zip(policy, nodes): p_value[n] = p`. */
    method AssignZip(nodes: seq<N>, policy: seq<real>)
      requires DistinctIds(game, nodes)
      modifies this`pValue
      ensures PriorsZip(game, old(pValue), pValue, nodes, policy, MinLength(nodes, policy))
    {
      var i := 0;
      while i < |policy| && i < |nodes|
        invariant 0 <= i <= |nodes| && i <= |policy|
        invariant PriorsZip(game, old(pValue), pValue, nodes, policy, i)
      {
        pValue := pValue[game.id(nodes[i]) := policy[i]];
        i := i + 1;
      }
    }

    /** The leaf valuation of `do_rollout`: a random playout for the base
        searcher; for the neural searchers `1 - reward()` at a terminal leaf,
        otherwise `1 - value` from the network, whose policy becomes the priors
        of the leaf's children. */
    method ValueLeaf(leaf: N) returns (r: real, ghost playout: seq<N>)
      requires TreeShape(game, children) && PolicyShape()
      requires game.id(leaf) in children
      modifies this`pValue
      ensures variant == Vanilla ==>
                IsPlayout(game, playout, leaf) && r == PlayoutValue(game, playout) && pValue == old(pValue)
      ensures variant != Vanilla && game.isTerminal(leaf) ==> r == 1.0 - game.reward(leaf) && pValue == old(pValue)
      ensures variant != Vanilla && !game.isTerminal(leaf) ==> r == 1.0 - evaluate(leaf).value
      ensures variant == Neural && !game.isTerminal(leaf) ==>
                PriorsByMove(game, old(pValue), pValue, children[game.id(leaf)], evaluate(leaf).policy)
      ensures variant == LegacyNeural && !game.isTerminal(leaf) ==>
                PriorsBySortedMove(game, old(pValue), pValue, children[game.id(leaf)], evaluate(leaf).policy)
    {
      playout := [leaf];
      if variant == Vanilla {
        r, playout := Simulate(game, leaf);
      } else if game.isTerminal(leaf) {
        r := 1.0 - game.reward(leaf);
      } else {
        var evaluation := evaluate(leaf);
        r := 1.0 - evaluation.value;
        if variant == Neural {
          AssignPriors(children[game.id(leaf)], evaluation.policy);
        } else {
          AssignSortedPriors(children[game.id(leaf)], evaluation.policy);
        }
      }
    }

    /** `do_rollout(node)`: select a path, expand its last node, value that
        leaf and send the value back up the path. */
    method DoRollout(node: N) returns (ghost path: seq<N>, ghost reward: real, ghost playout: seq<N>)
      requires Valid()
      modifies this`qValue, this`visitCount, this`children, this`backlog, this`pValue
      ensures Valid()
      ensures |path| > 0 && Distinct(PathIds(game, path))
      ensures old(backlog) != [] ==> path == old(backlog)[|old(backlog)| - 1]
                                     && backlog == old(backlog)[..|old(backlog)| - 1]
      ensures old(backlog) == [] ==> path[0] == node
      ensures children == Expanded(game, old(children), path[|path| - 1])
      ensures visitCount == BumpVisits(old(visitCount), PathIds(game, path))
      ensures qValue == AddRewards(old(qValue), PathIds(game, path), reward)
      ensures variant == Vanilla ==>
                IsPlayout(game, playout, path[|path| - 1]) && reward == PlayoutValue(game, playout)
                && pValue == old(pValue)
      ensures variant != Vanilla && game.isTerminal(path[|path| - 1]) ==>
                reward == 1.0 - game.reward(path[|path| - 1]) && pValue == old(pValue)
      ensures variant != Vanilla && !game.isTerminal(path[|path| - 1]) ==>
                reward == 1.0 - evaluate(path[|path| - 1]).value
      ensures StartsAt(old(backlog), node) ==>
                StartsAt(backlog, node) && GetNat(visitCount, game.id(node)) == GetNat(old(visitCount), game.id(node)) + 1
    {
      var p, pushed := Select(node);
      path := p;
      if StartsAt(old(backlog), node) {
        assert p[0] == node;
      }
      reward, playout := Rollout(p);
    }

    /** The rest of `do_rollout` once the path is selected: expand its last
        node, value that leaf and send the value back up the path. */
    method Rollout(path: seq<N>) returns (ghost reward: real, ghost playout: seq<N>)
      requires Valid() && |path| > 0 && RankChain(game, path)
      modifies this`qValue, this`visitCount, this`children, this`pValue
      ensures Valid()
      ensures Distinct(PathIds(game, path))
      ensures children == Expanded(game, old(children), path[|path| - 1])
      ensures visitCount == BumpVisits(old(visitCount), PathIds(game, path))
      ensures qValue == AddRewards(old(qValue), PathIds(game, path), reward)
      ensures variant == Vanilla ==>
                IsPlayout(game, playout, path[|path| - 1]) && reward == PlayoutValue(game, playout)
                && pValue == old(pValue)
      ensures variant != Vanilla && game.isTerminal(path[|path| - 1]) ==>
                reward == 1.0 - game.reward(path[|path| - 1]) && pValue == old(pValue)
      ensures variant != Vanilla && !game.isTerminal(path[|path| - 1]) ==>
                reward == 1.0 - evaluate(path[|path| - 1]).value
      ensures GetNat(visitCount, game.id(path[0])) == GetNat(old(visitCount), game.id(path[0])) + 1
    {
      var leaf := path[|path| - 1];
      ghost var children0, visits0 := children, visitCount;
      Expand(leaf);
      var r;
      r, playout := ValueLeaf(leaf);
      reward := r;
      RankChainDistinct(game, path);
      ghost var ids := PathIds(game, path);
      Backpropagate(path, r);
      assert ids[|ids| - 1] == game.id(leaf);
      VisitsAfterRollout(children0, children, visits0, ids);
      BumpVisitsOnPath(visits0, ids, 0);
    }
  }
}
