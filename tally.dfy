/**
 * Sums over a token multiset, the model of summing over the items of a
 * `collections.Counter`: each distinct token contributes its count times a
 * weight. The sum does not depend on the order the items are visited in
 * (`WeightedPick`), which is what lets a loop over the items, in whatever
 * order the dictionary yields them, compute it.
 */
module Tally {

  /** The sum, over the occurrences of the tokens in `m`, of `w(token)`. */
  ghost function Weighted(m: multiset<string>, w: string -> nat): nat
    decreases |m|
  {
    if m == multiset{} then 0
    else
      var t :| t in m;
      RemovedSize(m, t);
      m[t] * w(t) + Weighted(m[t := 0], w)
  }

  /** Weight 1 for every token: the sum is the number of occurrences. */
  function One(t: string): nat { 1 }

  /** Weight `len(token)`. */
  function Length(t: string): nat { |t| }

  /** The same weight `c` for every token. */
  function Constant(c: nat): string -> nat
  {
    t => c
  }

  /** Weight 1 for the tokens in `words`, 0 for the others. */
  function InSet(words: set<string>): string -> nat
  {
    t => if t in words then 1 else 0
  }

  /** Setting a token's count to `n` adds `n` occurrences to the multiset without that token. */
  lemma {:induction false} UpdatedSize(m: multiset<string>, t: string, n: nat)
    ensures |m[t := n]| == |m[t := 0]| + n
    decreases n
  {
    if n > 0 {
      UpdatedSize(m, t, n - 1);
      assert m[t := n] == m[t := n - 1] + multiset{t};
    }
  }

  /** Removing every occurrence of a token removes its count from the size. */
  lemma RemovedSize(m: multiset<string>, t: string)
    ensures |m[t := 0]| == |m| - m[t]
  {
    UpdatedSize(m, t, m[t]);
    assert m[t := m[t]] == m;
  }

  /**
   * The sum may start from any distinct token: taking `t` first, whatever
   * token the definition happens to pick, gives the same total.
   */
  lemma {:induction false} WeightedPick(m: multiset<string>, w: string -> nat, t: string)
    requires t in m
    ensures Weighted(m, w) == m[t] * w(t) + Weighted(m[t := 0], w)
    decreases |m|
  {
    var u :| u in m && Weighted(m, w) == m[u] * w(u) + Weighted(m[u := 0], w);
    if u != t {
      RemovedSize(m, u);
      RemovedSize(m, t);
      var both := m[u := 0][t := 0];
      assert m[t := 0][u := 0] == both;
      WeightedPick(m[u := 0], w, t);
      WeightedPick(m[t := 0], w, u);
    }
  }

  /** With the same weight `c` for every token present, the sum is `c` times the size. */
  lemma {:induction false} WeightedUniform(m: multiset<string>, w: string -> nat, c: nat)
    requires forall t :: t in m ==> w(t) == c
    ensures Weighted(m, w) == c * |m|
    decreases |m|
  {
    if m != multiset{} {
      var t :| t in m;
      var rest := m[t := 0];
      WeightedPick(m, w, t);
      RemovedSize(m, t);
      WeightedUniform(rest, w, c);
      var k, r := m[t], |rest|;
      assert Weighted(m, w) == k * c + c * r;
      Distribute(c, k, r);
      MulCommutes(k, c);
    }
  }

  /** A pointwise smaller weight gives a smaller or equal sum. */
  lemma {:induction false} WeightedMonotone(m: multiset<string>, v: string -> nat, w: string -> nat)
    requires forall t :: t in m ==> v(t) <= w(t)
    ensures Weighted(m, v) <= Weighted(m, w)
    decreases |m|
  {
    if m != multiset{} {
      var t :| t in m;
      var rest := m[t := 0];
      WeightedPick(m, v, t);
      WeightedPick(m, w, t);
      WeightedMonotone(rest, v, w);
      MulMonotone(m[t], v(t), w(t));
    }
  }

  /** Multiplication commutes. */
  lemma MulCommutes(a: int, b: int)
    ensures a * b == b * a
  {
  }

  /** Multiplication distributes over addition. */
  lemma Distribute(c: int, x: int, y: int)
    ensures c * (x + y) == c * x + c * y
  {
  }

  /** Multiplying by a natural number keeps the order. */
  lemma MulMonotone(n: nat, a: nat, b: nat)
    requires a <= b
    ensures n * a <= n * b
  {
    Distribute(n, a, b - a);
  }

  /** A token multiset has at most as many distinct tokens as occurrences. */
  lemma {:induction false} DistinctAtMostSize(m: multiset<string>)
    ensures |set t | t in m| <= |m|
    decreases |m|
  {
    if m != multiset{} {
      var t :| t in m;
      var rest := m[t := 0];
      RemovedSize(m, t);
      DistinctAtMostSize(rest);
      assert (set x | x in m) == (set x | x in rest) + {t};
    }
  }
}
