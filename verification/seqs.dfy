/** Generic facts about finite sequences used throughout the model:
    duplicate-freedom, order-preserving embeddings (subsequences),
    permutations of `0 .. n-1`, first-match search and reindexed sums. */
module Seqs {
  import opened Outcomes

  /** No element occurs twice. */
  predicate NoDup<T(==)>(s: seq<T>) {
    forall i, j :: 0 <= i < j < |s| ==> s[i] != s[j]
  }

  /** Every element of `s` also occurs in `t` and vice versa. */
  predicate SameElements<T(==,!new)>(s: seq<T>, t: seq<T>) {
    (forall x :: x in s ==> x in t) && (forall x :: x in t ==> x in s)
  }

  /** The positions `0, 1, ..., n-1`. */
  function Iota(n: nat): (r: seq<nat>)
    ensures |r| == n
    ensures forall i :: 0 <= i < n ==> r[i] == i
  {
    seq(n, i => i)
  }

  /** `m` lists every position of `0 .. n-1` exactly once. */
  predicate IsPermutation(m: seq<nat>, n: nat) {
    && |m| == n
    && (forall k :: 0 <= k < |m| ==> m[k] < n)
    && NoDup(m)
  }

  /** `pos` is a strictly increasing list of positions of `a` at which the
      elements of `r` are found: `r` is `a` with some elements dropped. */
  ghost predicate Embedding<T>(pos: seq<nat>, r: seq<T>, a: seq<T>) {
    && |pos| == |r|
    && (forall k :: 0 <= k < |pos| ==> pos[k] < |a| && r[k] == a[pos[k]])
    && (forall k, l :: 0 <= k < l < |pos| ==> pos[k] < pos[l])
  }

  ghost predicate IsSubsequence<T>(r: seq<T>, a: seq<T>) {
    exists pos :: Embedding(pos, r, a)
  }

  /** An embedding into `a` extends to `a + [v]`, with or without `v`
      kept at the end. */
  lemma EmbeddingExtend<T>(pos: seq<nat>, r: seq<T>, a: seq<T>, v: T)
    requires Embedding(pos, r, a)
    ensures Embedding(pos, r, a + [v])
    ensures Embedding(pos + [|a|], r + [v], a + [v])
  {
    var pos', r', a' := pos + [|a|], r + [v], a + [v];
    forall k | 0 <= k < |pos'|
      ensures pos'[k] < |a'| && r'[k] == a'[pos'[k]]
    {
      if k < |pos| {
        assert pos'[k] == pos[k] && r'[k] == r[k];
      }
    }
    forall k, l | 0 <= k < l < |pos'|
      ensures pos'[k] < pos'[l]
    {
      if l < |pos| {
        assert pos'[l] == pos[l];
      }
    }
  }

  /** Embeddings compose: a subsequence of a subsequence of `a` is a
      subsequence of `a`. */
  lemma EmbeddingCompose<T>(p1: seq<nat>, r: seq<T>, m: seq<T>, p2: seq<nat>, a: seq<T>)
    requires Embedding(p1, r, m) && Embedding(p2, m, a)
    ensures Embedding(seq(|p1|, k requires 0 <= k < |p1| => p2[p1[k]]), r, a)
  {
  }

  /** A subsequence of a duplicate-free sequence is duplicate-free. */
  lemma EmbeddingNoDup<T>(pos: seq<nat>, r: seq<T>, a: seq<T>)
    requires Embedding(pos, r, a) && NoDup(a)
    ensures NoDup(r)
  {
    forall k, l | 0 <= k < l < |r|
      ensures r[k] != r[l]
    {
      assert pos[k] < pos[l];
    }
  }

  /** The first position at which `x` occurs in `s` (a linear search that
      stops at the first hit). */
  function FirstPos<T(==)>(s: seq<T>, x: T): (r: Option<nat>)
    ensures r.None? <==> x !in s
    ensures r.Some? ==> r.value < |s| && s[r.value] == x
    ensures r.Some? ==> forall j :: 0 <= j < r.value ==> s[j] != x
  {
    if |s| == 0 then None
    else if s[0] == x then Some(0)
    else
      match FirstPos(s[1..], x)
      case None => None
      case Some(j) => Some(j + 1)
  }

  /** In a duplicate-free sequence the first position of `s[j]` is `j`. */
  lemma FirstPosNoDup<T>(s: seq<T>, j: nat)
    requires NoDup(s) && j < |s|
    ensures FirstPos(s, s[j]) == Some(j)
  {
    assert forall i :: 0 <= i < |s| && i != j ==> s[i] != s[j];
  }

  /** The set of elements of `s`. */
  function Elements<T>(s: seq<T>): set<T>
  {
    set x | x in s
  }

  /** A duplicate-free sequence has as many elements as its set. */
  lemma {:induction false} NoDupCard<T>(s: seq<T>)
    requires NoDup(s)
    ensures |Elements(s)| == |s|
  {
    if |s| > 0 {
      var init := s[..|s| - 1];
      var last := s[|s| - 1];
      assert NoDup(init);
      NoDupCard(init);
      assert Elements(s) == Elements(init) + {last};
      LastNotInInit(s);
    }
  }

  /** In a duplicate-free sequence the last element does not occur earlier. */
  lemma LastNotInInit<T>(s: seq<T>)
    requires NoDup(s) && |s| > 0
    ensures s[|s| - 1] !in s[..|s| - 1]
    ensures s[|s| - 1] !in Elements(s[..|s| - 1])
  {
    var init := s[..|s| - 1];
    forall i | 0 <= i < |init|
      ensures init[i] != s[|s| - 1]
    {
      assert s[i] != s[|s| - 1];
    }
  }

  /** Two duplicate-free sequences with the same elements have the same length. */
  lemma SameElementsSameLength<T(!new)>(s: seq<T>, t: seq<T>)
    requires NoDup(s) && NoDup(t) && SameElements(s, t)
    ensures |s| == |t|
  {
    NoDupCard(s);
    NoDupCard(t);
    assert Elements(s) == Elements(t);
  }

  /** A duplicate-free sequence of `n` positions below `n` contains every
      position below `n`. */
  lemma PermutationCovers(m: seq<nat>, n: nat)
    requires IsPermutation(m, n)
    ensures forall x :: 0 <= x < n ==> x in m
  {
    var all := Elements(Iota(n));
    NoDupCard(Iota(n));
    NoDupCard(m);
    forall x | x in Elements(m)
      ensures x in all
    {
      assert x < n;
      assert Iota(n)[x] == x;
    }
    SubsetSameCard(Elements(m), all);
    forall x | 0 <= x < n
      ensures x in m
    {
      assert Iota(n)[x] == x;
      assert x in all;
    }
  }

  lemma SubsetSameCard<T>(a: set<T>, b: set<T>)
    requires a <= b && |a| == |b|
    ensures a == b
  {
    assert |b - a| == |b| - |a|;
  }

  /** Sum of `g` over the positions listed in `order`. */
  function SumOver(order: seq<nat>, g: nat -> int): int
  {
    if |order| == 0 then 0 else g(order[0]) + SumOver(order[1..], g)
  }

  lemma {:induction false} SumOverAppend(x: seq<nat>, y: seq<nat>, g: nat -> int)
    ensures SumOver(x + y, g) == SumOver(x, g) + SumOver(y, g)
  {
    if |x| > 0 {
      assert (x + y)[0] == x[0];
      assert (x + y)[1..] == x[1..] + y;
      SumOverAppend(x[1..], y, g);
    } else {
      assert x + y == y;
    }
  }

  /** Taking one position out of a sum. */
  lemma SumOverRemove(y: seq<nat>, j: nat, g: nat -> int)
    requires j < |y|
    ensures SumOver(y, g) == g(y[j]) + SumOver(y[..j] + y[j + 1..], g)
  {
    assert y == y[..j] + ([y[j]] + y[j + 1..]);
    SumOverAppend(y[..j], [y[j]] + y[j + 1..], g);
    assert ([y[j]] + y[j + 1..])[1..] == y[j + 1..];
    SumOverAppend(y[..j], y[j + 1..], g);
  }

  lemma MultisetRemove(x: seq<nat>, y: seq<nat>, j: nat)
    requires multiset(x) == multiset(y) && |x| > 0 && j < |y| && y[j] == x[0]
    ensures multiset(x[1..]) == multiset(y[..j] + y[j + 1..])
  {
    assert x == [x[0]] + x[1..];
    assert y == y[..j] + [y[j]] + y[j + 1..];
    assert multiset(y) == multiset(y[..j]) + multiset([y[j]]) + multiset(y[j + 1..]);
    assert multiset(x) == multiset([x[0]]) + multiset(x[1..]);
    assert multiset(y[..j] + y[j + 1..]) == multiset(y[..j]) + multiset(y[j + 1..]);
    assert multiset(x[1..]) == multiset(x) - multiset([x[0]]);
    assert multiset(y[..j] + y[j + 1..]) == multiset(y) - multiset([y[j]]);
  }

  /** A sum does not depend on the order in which its positions are listed. */
  lemma {:induction false} SumOverPermuted(x: seq<nat>, y: seq<nat>, g: nat -> int)
    requires multiset(x) == multiset(y)
    ensures SumOver(x, g) == SumOver(y, g)
  {
    if |x| > 0 {
      assert x[0] in multiset(y);
      var j :| 0 <= j < |y| && y[j] == x[0];
      MultisetRemove(x, y, j);
      SumOverPermuted(x[1..], y[..j] + y[j + 1..], g);
      SumOverRemove(y, j, g);
    } else {
      assert |y| == |multiset(y)| == 0;
    }
  }

  /** A duplicate-free sequence of `n` positions below `n` lists the same
      positions as `Iota(n)`, each once. */
  lemma PermutationMultiset(m: seq<nat>, n: nat)
    requires IsPermutation(m, n)
    ensures multiset(m) == multiset(Iota(n))
  {
    PermutationCovers(m, n);
    forall x: nat
      ensures multiset(m)[x] == multiset(Iota(n))[x]
    {
      NoDupCount(m, x);
      NoDupCount(Iota(n), x);
      if x < n {
        assert Iota(n)[x] == x;
      }
    }
  }

  lemma {:induction false} NoDupCount<T>(s: seq<T>, x: T)
    requires NoDup(s)
    ensures multiset(s)[x] == if x in s then 1 else 0
  {
    if |s| > 0 {
      var init := s[..|s| - 1];
      assert s == init + [s[|s| - 1]];
      assert NoDup(init);
      NoDupCount(init, x);
      LastNotInInit(s);
    }
  }
}
