/** Small value types shared by every module: optional values, the Python
    exceptions the modelled code can raise, and Python's integer conversions. */
module Common {

  datatype Option<T> = None | Some(value: T)

  /** The exception classes the modelled Python code raises. */
  datatype Error =
    | ValueError      // max() of an empty set, list.remove of an absent item, random.choices with no weight
    | IndexError      // indexing past the end of a list
    | KeyError        // dict lookup of an absent key
    | RuntimeError    // an explicit `raise RuntimeError`
    | TypeError       // a call with the wrong number of arguments
    | AttributeError  // an attribute looked up on None

  datatype Result<T> = Ok(value: T) | Err(error: Error)

  /** Python's `int(x)` on a float: truncation toward zero. */
  function Trunc(x: real): (t: int)
    ensures 0.0 <= x ==> 0 <= t && t as real <= x < t as real + 1.0
    ensures x < 0.0 ==> t <= 0 && t as real - 1.0 < x <= t as real
  {
    if x >= 0.0 then x.Floor else -((-x).Floor)
  }

  /** `xs.count(x)` */
  function Count(xs: seq<int>, x: int): (n: nat)
    ensures n <= |xs|
  {
    if xs == [] then 0 else Count(xs[..|xs| - 1], x) + (if xs[|xs| - 1] == x then 1 else 0)
  }

  /** A value is counted zero times exactly when it does not occur. */
  lemma {:induction false} CountAbsent(xs: seq<int>, x: int)
    ensures Count(xs, x) == 0 <==> x !in xs
  {
    if xs != [] {
      CountAbsent(xs[..|xs| - 1], x);
      assert xs == xs[..|xs| - 1] + [xs[|xs| - 1]];
    }
  }

  /** Two values that differ are never counted together: their counts fit in the sequence. */
  lemma {:induction false} CountDisjoint(xs: seq<int>, a: int, b: int, c: int)
    requires a != b && b != c && a != c
    ensures Count(xs, a) + Count(xs, b) + Count(xs, c) <= |xs|
  {
    if xs != [] {
      CountDisjoint(xs[..|xs| - 1], a, b, c);
    }
  }

  /** Count of a four-element list, written out. */
  lemma CountFour(w: seq<int>, x: int)
    requires |w| == 4
    ensures Count(w, x) == (if w[0] == x then 1 else 0) + (if w[1] == x then 1 else 0)
                         + (if w[2] == x then 1 else 0) + (if w[3] == x then 1 else 0)
  {
    assert w[..3][..2] == w[..2] && w[..2][..1] == w[..1] && w[..1][..0] == [];
    assert Count(w[..1], x) == (if w[0] == x then 1 else 0);
    assert Count(w[..2], x) == Count(w[..1], x) + (if w[1] == x then 1 else 0);
    assert Count(w[..3], x) == Count(w[..2], x) + (if w[2] == x then 1 else 0);
  }

  /** The set of the first n elements of s. */
  function Elements<T>(s: seq<T>, n: nat): (e: set<T>)
    requires n <= |s|
  {
    if n == 0 then {} else Elements(s, n - 1) + {s[n - 1]}
  }

  lemma {:induction false} ElementsPrefix<T>(s: seq<T>, n: nat)
    requires n <= |s|
    ensures Elements(s, n) == set x | x in s[..n]
  {
    if n > 0 {
      ElementsPrefix(s, n - 1);
      assert s[..n] == s[..n - 1] + [s[n - 1]];
    }
  }

  lemma ElementsAll<T>(s: seq<T>)
    ensures Elements(s, |s|) == set x | x in s
  {
    ElementsPrefix(s, |s|);
    assert s[..|s|] == s;
  }
}
