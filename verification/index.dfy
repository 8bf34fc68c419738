/** The index algebra of `TiledArray::index`: an `Index` is an ordered list of
    labels, and the operators `&`, `|`, `+`, `-`, `^` combine two of them
    while keeping the left operand's order. */
module IndexAlgebra {
  import opened Outcomes
  import opened Seqs

  /** An n-index with n a runtime parameter. Labels are usually strings;
      einsum also builds indices of tile coordinates. */
  type Index<T> = seq<T>

  /** `operator bool`: an index is truthy iff it has at least one label. */
  predicate Truthy<T>(x: Index<T>) {
    |x| != 0
  }

  /** `rank(idx)`: the number of labels. */
  function Rank<T>(x: Index<T>): nat {
    |x|
  }

  /** `operator[]`, which goes through the bounds-checked `at` of the
      underlying vector: a position past the end is an error. */
  function Get<T>(x: Index<T>, i: nat): (r: Result<T>)
    ensures r.Success? <==> i < Rank(x)
    ensures r.Success? ==> r.value == x[i]
    ensures r.Failure? ==> r.error == OutOfRange
  {
    if i < |x| then Success(x[i]) else Failure(OutOfRange)
  }

  /** The loop shared by `&` and `-`: walk `a` in order and keep the labels
      whose membership in `b` equals `present`. */
  function Select<T(==,!new)>(a: Index<T>, b: Index<T>, present: bool): (r: Index<T>)
    ensures |r| <= |a|
    ensures forall x :: x in r <==> x in a && (x in b) == present
    decreases |a|
  {
    if |a| == 0 then []
    else
      var init, last := a[..|a| - 1], a[|a| - 1];
      assert a == init + [last];
      Select(init, b, present) + (if (last in b) == present then [last] else [])
  }

  /** The positions of `a` that `Select` keeps. */
  ghost function SelectPositions<T>(a: Index<T>, b: Index<T>, present: bool): seq<nat>
    decreases |a|
  {
    if |a| == 0 then []
    else
      var init, last := a[..|a| - 1], a[|a| - 1];
      SelectPositions(init, b, present) + (if (last in b) == present then [|a| - 1] else [])
  }

  /** `Select` is a stable filter: its result is `a` with exactly the
      positions whose label fails the test removed, the rest in order. */
  lemma {:induction false} SelectStable<T(!new)>(a: Index<T>, b: Index<T>, present: bool)
    ensures Embedding(SelectPositions(a, b, present), Select(a, b, present), a)
    ensures forall j :: 0 <= j < |a| ==>
              (j in SelectPositions(a, b, present) <==> (a[j] in b) == present)
  {
    if |a| > 0 {
      var init, last := a[..|a| - 1], a[|a| - 1];
      assert a == init + [last];
      SelectStable(init, b, present);
      var pos := SelectPositions(init, b, present);
      EmbeddingExtend(pos, Select(init, b, present), init, last);
      assert forall k :: 0 <= k < |pos| ==> pos[k] < |init|;
      forall j | 0 <= j < |a|
        ensures j in SelectPositions(a, b, present) <==> (a[j] in b) == present
      {
        if j < |init| {
          assert a[j] == init[j];
          assert j != |init|;
        }
      }
    }
  }

  /** `Select` keeps every copy of a kept label and no copy of a dropped one. */
  lemma {:induction false} SelectCounts<T(!new)>(a: Index<T>, b: Index<T>, present: bool)
    ensures forall x :: multiset(Select(a, b, present))[x] ==
              if (x in b) == present then multiset(a)[x] else 0
    decreases |a|
  {
    if |a| > 0 {
      var init, last := a[..|a| - 1], a[|a| - 1];
      assert a == init + [last];
      SelectCounts(init, b, present);
    }
  }

  /** Filtering distributes over concatenation. */
  lemma {:induction false} SelectAppend<T(!new)>(x: Index<T>, y: Index<T>, b: Index<T>, present: bool)
    ensures Select(x + y, b, present) == Select(x, b, present) + Select(y, b, present)
    decreases |y|
  {
    if |y| == 0 {
      assert x + y == x;
    } else {
      var yi := y[..|y| - 1];
      assert (x + y)[..|x + y| - 1] == x + yi;
      assert (x + y)[|x + y| - 1] == y[|y| - 1];
      SelectAppend(x, yi, b, present);
    }
  }

  /** Only the membership of `a`'s own labels in `b` matters. */
  lemma {:induction false} SelectCongruent<T(!new)>(a: Index<T>, b1: Index<T>, b2: Index<T>, present: bool)
    requires forall x :: x in a ==> (x in b1 <==> x in b2)
    ensures Select(a, b1, present) == Select(a, b2, present)
    decreases |a|
  {
    if |a| > 0 {
      var init := a[..|a| - 1];
      assert forall x :: x in init ==> x in a;
      assert a[|a| - 1] in a;
      SelectCongruent(init, b1, b2, present);
    }
  }

  /** A filter that keeps every label of `a` returns `a`. */
  lemma {:induction false} SelectKeepsAll<T(!new)>(a: Index<T>, b: Index<T>, present: bool)
    requires forall x :: x in a ==> (x in b) == present
    ensures Select(a, b, present) == a
    decreases |a|
  {
    if |a| > 0 {
      var init, last := a[..|a| - 1], a[|a| - 1];
      assert a == init + [last];
      forall x | x in init
        ensures (x in b) == present
      {
        assert x in a;
      }
      SelectKeepsAll(init, b, present);
      assert (last in b) == present by {
        assert last in a;
      }
      assert Select(a, b, present) == init + [last];
    }
  }

  /** A filter that keeps no label of `a` returns the empty index. */
  lemma SelectKeepsNone<T(!new)>(a: Index<T>, b: Index<T>, present: bool)
    requires forall x :: x in a ==> (x in b) != present
    ensures Select(a, b, present) == []
  {
    var r := Select(a, b, present);
    assert forall i :: 0 <= i < |r| ==> r[i] in r;
  }

  /** A filter of a duplicate-free index is duplicate-free. */
  lemma SelectNoDup<T(!new)>(a: Index<T>, b: Index<T>, present: bool)
    requires NoDup(a)
    ensures NoDup(Select(a, b, present))
  {
    SelectStable(a, b, present);
    EmbeddingNoDup(SelectPositions(a, b, present), Select(a, b, present), a);
  }

  /** `a & b`: the labels of `a` that occur in `b`, in `a`'s order. */
  function Intersect<T(==,!new)>(a: Index<T>, b: Index<T>): (r: Index<T>)
    ensures forall x :: x in r <==> x in a && x in b
  {
    Select(a, b, true)
  }

  /** `a - b`: the labels of `a` that do not occur in `b`, in `a`'s order. */
  function Difference<T(==,!new)>(a: Index<T>, b: Index<T>): (r: Index<T>)
    ensures forall x :: x in r <==> x in a && x !in b
  {
    Select(a, b, false)
  }

  /** `a | b`: all of `a`, then the labels of `b` that `a` lacks. */
  function Union<T(==,!new)>(a: Index<T>, b: Index<T>): (r: Index<T>)
    ensures |a| <= |r| && r[..|a|] == a
    ensures forall x :: x in r[|a|..] <==> x in b && x !in a
    ensures forall x :: x in r <==> x in a || x in b
  {
    assert (a + Difference(b, a))[|a|..] == Difference(b, a);
    a + Difference(b, a)
  }

  /** The filters keep their operand's order: `a & b` and `a - b` are
      subsequences of `a`, and the part of `a | b` after `a` is a
      subsequence of `b`. */
  lemma {:induction false} OperandOrderKept<T(!new)>(a: Index<T>, b: Index<T>)
    ensures IsSubsequence(Intersect(a, b), a)
    ensures IsSubsequence(Difference(a, b), a)
    ensures IsSubsequence(Union(a, b)[|a|..], b)
  {
    SelectStable(a, b, true);
    SelectStable(a, b, false);
    SelectStable(b, a, false);
    assert Union(a, b)[|a|..] == Difference(b, a);
  }

  /** `a + b`: plain concatenation; labels may repeat. */
  function Concat<T>(a: Index<T>, b: Index<T>): (r: Index<T>)
    ensures |r| == |a| + |b|
    ensures r[..|a|] == a && r[|a|..] == b
  {
    a + b
  }

  /** `+` keeps every occurrence of every label of both operands. */
  lemma ConcatKeepsDuplicates<T>(a: Index<T>, b: Index<T>)
    ensures multiset(Concat(a, b)) == multiset(a) + multiset(b)
  {
  }

  /** `a ^ b`, defined in the header as `(a | b) - (a & b)`. */
  function SymmetricDifference<T(==,!new)>(a: Index<T>, b: Index<T>): (r: Index<T>)
    ensures forall x :: x in r <==> (x in a) != (x in b)
  {
    Difference(Union(a, b), Intersect(a, b))
  }

  /** `a ^ b` lists `a`'s own labels first and then `b`'s, each in its
      operand's order. */
  lemma SymmetricDifferenceSplit<T(!new)>(a: Index<T>, b: Index<T>)
    ensures SymmetricDifference(a, b) == Difference(a, b) + Difference(b, a)
  {
    var ab := Intersect(a, b);
    SelectAppend(a, Difference(b, a), ab, false);
    SelectCongruent(a, ab, b, false);
    SelectKeepsAll(Difference(b, a), ab, false);
  }

  /** `a ^ b` is empty exactly when the two indices have the same labels. */
  lemma SymmetricDifferenceEmpty<T(!new)>(a: Index<T>, b: Index<T>)
    ensures !Truthy(SymmetricDifference(a, b)) <==> SameElements(a, b)
  {
    var d := SymmetricDifference(a, b);
    if Truthy(d) {
      assert d[0] in d;
    }
  }

  /** An index combined with itself. */
  lemma SelfLaws<T(!new)>(a: Index<T>)
    ensures Intersect(a, a) == a
    ensures Union(a, a) == a
    ensures Difference(a, a) == []
    ensures Difference(a, []) == a
    ensures !Truthy(SymmetricDifference(a, a))
  {
    SelectKeepsAll(a, a, true);
    SelectKeepsNone(a, a, false);
    SelectKeepsAll(a, [], false);
    assert a + [] == a;
    SelectKeepsNone(Union(a, a), Intersect(a, a), false);
  }

  /** Indices without a common label. */
  lemma DisjointLaws<T(!new)>(a: Index<T>, b: Index<T>)
    requires forall x :: x in a ==> x !in b
    ensures Intersect(a, b) == []
    ensures Union(a, b) == Concat(a, b)
    ensures SymmetricDifference(a, b) == Concat(a, b)
  {
    SelectKeepsNone(a, b, true);
    SelectKeepsAll(b, a, false);
    SelectKeepsAll(a, b, false);
    SymmetricDifferenceSplit(a, b);
  }

  /** The set-like operators keep indices duplicate-free. */
  lemma NoDupPreserved<T(!new)>(a: Index<T>, b: Index<T>)
    requires NoDup(a) && NoDup(b)
    ensures NoDup(Intersect(a, b))
    ensures NoDup(Difference(a, b))
    ensures NoDup(Union(a, b))
    ensures NoDup(SymmetricDifference(a, b))
  {
    SelectNoDup(a, b, true);
    SelectNoDup(a, b, false);
    SelectNoDup(b, a, false);
    AppendNoDup(a, Difference(b, a));
    SelectNoDup(Union(a, b), Intersect(a, b), false);
  }

  /** Concatenating two duplicate-free indices without common labels. */
  lemma AppendNoDup<T(!new)>(x: Index<T>, y: Index<T>)
    requires NoDup(x) && NoDup(y) && forall v :: v in x ==> v !in y
    ensures NoDup(x + y)
  {
    forall i, j | 0 <= i < j < |x + y|
      ensures (x + y)[i] != (x + y)[j]
    {
      if j >= |x| && i < |x| {
        assert (x + y)[i] in x;
        assert (x + y)[j] == y[j - |x|];
      }
    }
  }
}
