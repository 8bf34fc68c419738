/** The strided kernels of `TiledArray::tile`. `apply1`, `apply2` and `apply`
    walk two strided buffers in lock-step and call a function on each pair of
    elements; `copy` uses them to transpose a dense row-major tile into
    another. A buffer is a sequence, a pointer is an offset into it, and a
    walk is modelled by the sequence of offset pairs it hands to the
    function, in call order. */
module Tiles {
  import opened Seqs
  import opened MixedRadix
  import opened Shuffles

  // ---------------------------------------------------------------------
  // The strided walks
  // ---------------------------------------------------------------------

  /** `apply1(f, n, p0, s0, p1, s1)`: `n` calls, both pointers advancing by
      their strides after each. */
  function Apply1(n: nat, p0: nat, s0: nat, p1: nat, s1: nat): (r: seq<(nat, nat)>)
    ensures |r| == n
    ensures forall i :: 0 <= i < n ==> r[i] == (p0 + i * s0, p1 + i * s1)
  {
    if n == 0 then []
    else
      var rest := Apply1(n - 1, p0 + s0, s0, p1 + s1, s1);
      StepAhead(n - 1, s0);
      StepAhead(n - 1, s1);
      [(p0, p1)] + rest
  }

  /** `(i - 1) * s + s == i * s` for every `1 <= i <= n`. */
  lemma StepAhead(n: nat, s: nat)
    ensures forall i :: 1 <= i <= n ==> s + (i - 1) * s == i * s
  {
    forall i | 1 <= i <= n
      ensures s + (i - 1) * s == i * s
    {
      assert i * s == (i - 1) * s + 1 * s;
    }
  }

  /** `apply2(f, m, n, p0, s0, p1, s1)`: `m` rows of `apply1` over the inner
      strides, moving to the next row by the outer strides. */
  function Apply2(m: nat, n: nat, p0: nat, s0: (nat, nat), p1: nat, s1: (nat, nat)): (r: seq<(nat, nat)>)
    ensures |r| == m * n
  {
    if m == 0 then []
    else
      var rest := Apply2(m - 1, n, p0 + s0.0, s0, p1 + s1.0, s1);
      assert |rest| + n == m * n by {
        assert (m - 1) * n + n == m * n;
      }
      Apply1(n, p0, s0.1, p1, s1.1) + rest
  }

  /** Call `i * n + j` of `apply2` is in row `i`, column `j`: each pointer
      has moved by `i` outer strides and `j` inner strides. */
  lemma {:induction false} Apply2At(m: nat, n: nat, p0: nat, s0: (nat, nat), p1: nat, s1: (nat, nat), i: nat, j: nat)
    requires i < m && j < n
    ensures i * n + j < |Apply2(m, n, p0, s0, p1, s1)|
    ensures Apply2(m, n, p0, s0, p1, s1)[i * n + j]
            == (p0 + i * s0.0 + j * s0.1, p1 + i * s1.0 + j * s1.1)
    decreases i
  {
    DigitBound(i, m, j, n);
    var rows := Apply2(m, n, p0, s0, p1, s1);
    var first := Apply1(n, p0, s0.1, p1, s1.1);
    var rest := Apply2(m - 1, n, p0 + s0.0, s0, p1 + s1.0, s1);
    if i == 0 {
      assert rows[j] == first[j] by {
        assert rows == first + rest;
      }
      ZeroRow(n, j, s0.0, s1.0);
    } else {
      var k' := (i - 1) * n + j;
      Apply2At(m - 1, n, p0 + s0.0, s0, p1 + s1.0, s1, i - 1, j);
      NextRowStart(i, n, j);
      assert rows[k' + n] == rest[k'] by {
        assert rows == first + rest;
      }
      Advance(p0, s0.0, i);
      Advance(p1, s1.0, i);
    }
  }

  /** Row 0 starts at call 0 and has not moved the pointers. */
  lemma ZeroRow(n: nat, j: nat, a: nat, b: nat)
    ensures 0 * n + j == j && 0 * a == 0 && 0 * b == 0
  {
  }

  /** Row `i` starts `n` calls after row `i - 1`. */
  lemma NextRowStart(i: nat, n: nat, j: nat)
    requires i >= 1
    ensures (i - 1) * n + j + n == i * n + j
  {
  }

  /** One stride and then `i - 1` more is `i` strides. */
  lemma Advance(p: nat, s: nat, i: nat)
    requires i >= 1
    ensures p + s + (i - 1) * s == p + i * s
  {
  }

  /** `apply(f, rank, dims, p0, s0, p1, s1)`: rank 0 makes no call, ranks 1
      and 2 hand over to `apply1` and `apply2`, and a higher rank loops over
      the leading extent, recursing on the remaining ones. */
  function Apply(dims: seq<nat>, p0: nat, s0: seq<nat>, p1: nat, s1: seq<nat>): (r: seq<(nat, nat)>)
    requires |s0| == |s1| == |dims|
    ensures |r| == if |dims| == 0 then 0 else Size(dims)
    decreases |dims|, 1, 0
  {
    if |dims| == 0 then []
    else if |dims| == 1 then
      assert Size(dims) == dims[0] * Size([]);
      Apply1(dims[0], p0, s0[0], p1, s1[0])
    else if |dims| == 2 then
      assert Size(dims) == dims[0] * (dims[1] * Size([])) by {
        assert dims[1..][1..] == [];
      }
      Apply2(dims[0], dims[1], p0, (s0[0], s0[1]), p1, (s1[0], s1[1]))
    else Rows(dims[0], dims, p0, s0, p1, s1)
  }

  /** The loop of `apply` for rank 3 and up: `n` calls of `apply` on the
      trailing extents, the pointers advancing by the leading strides. */
  function Rows(n: nat, dims: seq<nat>, p0: nat, s0: seq<nat>, p1: nat, s1: seq<nat>): (r: seq<(nat, nat)>)
    requires 2 <= |dims| && |s0| == |s1| == |dims|
    ensures |r| == n * Size(dims[1..])
    decreases |dims|, 0, n
  {
    if n == 0 then []
    else
      var rest := Rows(n - 1, dims, p0 + s0[0], s0, p1 + s1[0], s1);
      assert Size(dims[1..]) + |rest| == n * Size(dims[1..]) by {
        assert Size(dims[1..]) + (n - 1) * Size(dims[1..]) == n * Size(dims[1..]);
      }
      Apply(dims[1..], p0, s0[1..], p1, s1[1..]) + rest
  }

  /** The rank-2 shortcut walks exactly like the general loop would. */
  lemma {:induction false} Apply2AsRows(m: nat, dims: seq<nat>, p0: nat, s0: seq<nat>, p1: nat, s1: seq<nat>)
    requires |dims| == |s0| == |s1| == 2
    ensures Apply2(m, dims[1], p0, (s0[0], s0[1]), p1, (s1[0], s1[1])) == Rows(m, dims, p0, s0, p1, s1)
  {
    if m > 0 {
      Apply2AsRows(m - 1, dims, p0 + s0[0], s0, p1 + s1[0], s1);
      assert Apply(dims[1..], p0, s0[1..], p1, s1[1..]) == Apply1(dims[1], p0, s0[1], p1, s1[1]);
    }
  }

  /** From rank 2 on, `apply` is the loop over the leading extent. */
  lemma ApplyIsRows(dims: seq<nat>, p0: nat, s0: seq<nat>, p1: nat, s1: seq<nat>)
    requires 2 <= |dims| && |s0| == |s1| == |dims|
    ensures Apply(dims, p0, s0, p1, s1) == Rows(dims[0], dims, p0, s0, p1, s1)
  {
    if |dims| == 2 {
      Apply2AsRows(dims[0], dims, p0, s0, p1, s1);
    }
  }

  /** Call `a * Size(dims[1..]) + e` of the loop is call `e` of the walk of
      row `a`. */
  lemma {:induction false} RowsAt(n: nat, dims: seq<nat>, p0: nat, s0: seq<nat>, p1: nat, s1: seq<nat>, a: nat, e: nat)
    requires 2 <= |dims| && |s0| == |s1| == |dims|
    requires a < n && e < Size(dims[1..])
    ensures a * Size(dims[1..]) + e < |Rows(n, dims, p0, s0, p1, s1)|
    ensures Rows(n, dims, p0, s0, p1, s1)[a * Size(dims[1..]) + e]
            == Apply(dims[1..], p0 + a * s0[0], s0[1..], p1 + a * s1[0], s1[1..])[e]
    decreases a
  {
    var b := Size(dims[1..]);
    MulMono(a + 1, n, b);
    var rows := Rows(n, dims, p0, s0, p1, s1);
    var first := Apply(dims[1..], p0, s0[1..], p1, s1[1..]);
    var rest := Rows(n - 1, dims, p0 + s0[0], s0, p1 + s1[0], s1);
    assert rows == first + rest;
    assert |first| == b;
    if a > 0 {
      RowsAt(n - 1, dims, p0 + s0[0], s0, p1 + s1[0], s1, a - 1, e);
      assert (a - 1) * b + e + b == a * b + e;
      assert rows[a * b + e] == rest[(a - 1) * b + e];
      assert p0 + s0[0] + (a - 1) * s0[0] == p0 + a * s0[0];
      assert p1 + s1[0] + (a - 1) * s1[0] == p1 + a * s1[0];
    } else {
      assert a * b + e == e && a * s0[0] == 0 && a * s1[0] == 0;
      assert rows[e] == first[e];
    }
  }

  /** The `k`-th call of `apply` receives the pointers offset by the strides
      applied to the `k`-th multi-index of the box in row-major order: `apply`
      visits every multi-index once, last extent fastest. */
  lemma {:induction false} ApplyAt(dims: seq<nat>, p0: nat, s0: seq<nat>, p1: nat, s1: seq<nat>, k: nat)
    requires 1 <= |dims| && |s0| == |s1| == |dims| && k < Size(dims)
    ensures k < |Apply(dims, p0, s0, p1, s1)| && |Tuples(dims)[k]| == |dims|
    ensures Apply(dims, p0, s0, p1, s1)[k]
            == (p0 + Dot(Tuples(dims)[k], s0), p1 + Dot(Tuples(dims)[k], s1))
    decreases |dims|, 1
  {
    if |dims| == 1 {
      ColumnVisit(dims, p0, s0, p1, s1, k);
    } else {
      RowStep(dims, p0, s0, p1, s1, k);
    }
  }

  /** The induction step of `ApplyAt`: split `k` into the row `a` and the
      call `e` inside the row. */
  lemma {:induction false} RowStep(dims: seq<nat>, p0: nat, s0: seq<nat>, p1: nat, s1: seq<nat>, k: nat)
    requires 2 <= |dims| && |s0| == |s1| == |dims| && k < Size(dims)
    ensures k < |Apply(dims, p0, s0, p1, s1)| && |Tuples(dims)[k]| == |dims|
    ensures Apply(dims, p0, s0, p1, s1)[k]
            == (p0 + Dot(Tuples(dims)[k], s0), p1 + Dot(Tuples(dims)[k], s1))
    decreases |dims|, 0
  {
    var tail := dims[1..];
    var b := Size(tail);
    assert Size(dims) == dims[0] * b;
    var a, e := SplitIndex(k, dims[0], b);
    ApplyAt(tail, p0 + a * s0[0], s0[1..], p1 + a * s1[0], s1[1..], e);
    RowVisit(dims, p0, s0, p1, s1, a, e, k);
  }

  /** At rank 1 call `k` is at multi-index `[k]`. */
  lemma ColumnVisit(dims: seq<nat>, p0: nat, s0: seq<nat>, p1: nat, s1: seq<nat>, k: nat)
    requires |dims| == |s0| == |s1| == 1 && k < dims[0]
    ensures k < |Apply(dims, p0, s0, p1, s1)| && |Tuples(dims)[k]| == 1
    ensures Apply(dims, p0, s0, p1, s1)[k]
            == (p0 + Dot(Tuples(dims)[k], s0), p1 + Dot(Tuples(dims)[k], s1))
  {
    assert Tuples(dims[1..]) == [[]];
    BlocksAt(dims[0], [[]], k, 0);
    assert Tuples(dims)[k] == [k];
  }

  /** Call `a * Size(dims[1..]) + e` of `apply` is call `e` of row `a`, at
      multi-index `a` followed by the `e`-th multi-index of the trailing
      extents. */
  lemma RowVisit(dims: seq<nat>, p0: nat, s0: seq<nat>, p1: nat, s1: seq<nat>, a: nat, e: nat, k: nat)
    requires 2 <= |dims| && |s0| == |s1| == |dims|
    requires a < dims[0] && e < Size(dims[1..]) && |Tuples(dims[1..])[e]| == |dims| - 1
    requires k == a * Size(dims[1..]) + e
    requires Apply(dims[1..], p0 + a * s0[0], s0[1..], p1 + a * s1[0], s1[1..])[e]
             == (p0 + a * s0[0] + Dot(Tuples(dims[1..])[e], s0[1..]),
                 p1 + a * s1[0] + Dot(Tuples(dims[1..])[e], s1[1..]))
    ensures k < |Apply(dims, p0, s0, p1, s1)| && |Tuples(dims)[k]| == |dims|
    ensures Apply(dims, p0, s0, p1, s1)[k]
            == (p0 + Dot(Tuples(dims)[k], s0), p1 + Dot(Tuples(dims)[k], s1))
  {
    var ts := Tuples(dims[1..]);
    BlocksAt(dims[0], ts, a, e);
    var t := Tuples(dims)[k];
    assert t == [a] + ts[e];
    assert t[1..] == ts[e];
    assert Dot(t, s0) == a * s0[0] + Dot(ts[e], s0[1..]);
    assert Dot(t, s1) == a * s1[0] + Dot(ts[e], s1[1..]);
    ApplyIsRows(dims, p0, s0, p1, s1);
    RowsAt(dims[0], dims, p0, s0, p1, s1, a, e);
  }

  // ---------------------------------------------------------------------
  // Sums over index orders
  // ---------------------------------------------------------------------

  /** `k ↦ x[k] * y[k]`, zero past the end. */
  function Prod(x: seq<nat>, y: seq<nat>): nat -> int
  {
    (k: nat) => if k < |x| && k < |y| then x[k] * y[k] else 0
  }

  /** `k ↦ 1` where `s[k] == v`, else 0. */
  function Indicator(s: seq<nat>, v: nat): nat -> int
  {
    (k: nat) => if k < |s| && s[k] == v then 1 else 0
  }

  /** A sum over `0 .. m` splits off its last term. */
  lemma SumOverIotaSnoc(m: nat, g: nat -> int)
    ensures SumOver(Iota(m + 1), g) == SumOver(Iota(m), g) + g(m)
  {
    assert Iota(m + 1) == Iota(m) + [m];
    SumOverAppend(Iota(m), [m], g);
    assert [m][1..] == [];
  }

  /** The dot product is the sum of its terms over `0 .. |x|`. */
  lemma {:induction false} DotAsSum(x: seq<nat>, y: seq<nat>, m: nat)
    requires |x| == |y| && m <= |x|
    ensures Dot(x[..m], y[..m]) == SumOver(Iota(m), Prod(x, y))
  {
    if m > 0 {
      DotAsSum(x, y, m - 1);
      DotSnoc(x[..m], y[..m]);
      assert x[..m][..m - 1] == x[..m - 1] && y[..m][..m - 1] == y[..m - 1];
      SumOverIotaSnoc(m - 1, Prod(x, y));
    }
  }

  /** The dot product splits off its last term. */
  lemma {:induction false} DotSnoc(x: seq<nat>, y: seq<nat>)
    requires |x| == |y| > 0
    ensures Dot(x, y) == Dot(x[..|x| - 1], y[..|y| - 1]) + x[|x| - 1] * y[|y| - 1]
  {
    if |x| > 1 {
      DotSnoc(x[1..], y[1..]);
      assert x[1..][..|x| - 2] == x[..|x| - 1][1..];
      assert y[1..][..|y| - 2] == y[..|y| - 1][1..];
    }
  }

  /** A sum over `0 .. m` of `h` is the sum of `g` over the first `m`
      positions of `o` when `h` reads `g` through `o`. */
  lemma {:induction false} SumOverReindex(o: seq<nat>, g: nat -> int, h: nat -> int, m: nat)
    requires m <= |o|
    requires forall j :: 0 <= j < m ==> h(j) == g(o[j])
    ensures SumOver(Iota(m), h) == SumOver(o[..m], g)
  {
    if m > 0 {
      SumOverReindex(o, g, h, m - 1);
      SumOverIotaSnoc(m - 1, h);
      assert o[..m] == o[..m - 1] + [o[m - 1]];
      SumOverAppend(o[..m - 1], [o[m - 1]], g);
      assert [o[m - 1]][1..] == [];
    }
  }

  /** Permuting both factors alike leaves a dot product unchanged. */
  lemma DotPermuted(rho: seq<nat>, x: seq<nat>, y: seq<nat>)
    requires |x| == |y| && IsPermutation(rho, |x|)
    ensures Dot(Shuffle(rho, x), Shuffle(rho, y)) == Dot(x, y)
  {
    var n := |x|;
    var sx, sy := Shuffle(rho, x), Shuffle(rho, y);
    assert Dot(sx, sy) == SumOver(Iota(n), Prod(sx, sy)) by {
      DotAsSum(sx, sy, n);
      assert sx[..n] == sx && sy[..n] == sy;
    }
    assert SumOver(Iota(n), Prod(sx, sy)) == SumOver(rho, Prod(x, y)) by {
      SumOverReindex(rho, Prod(x, y), Prod(sx, sy), n);
      assert rho[..n] == rho;
    }
    assert SumOver(rho, Prod(x, y)) == SumOver(Iota(n), Prod(x, y)) by {
      PermutationMultiset(rho, n);
      SumOverPermuted(rho, Iota(n), Prod(x, y));
    }
    assert SumOver(Iota(n), Prod(x, y)) == Dot(x, y) by {
      DotAsSum(x, y, n);
      assert x[..n] == x && y[..n] == y;
    }
  }

  /** How often `v` occurs among the first `m` entries of `s`, as a sum. */
  lemma {:induction false} CountAsSum(s: seq<nat>, v: nat, m: nat)
    requires m <= |s|
    ensures multiset(s[..m])[v] == SumOver(Iota(m), Indicator(s, v))
  {
    if m > 0 {
      CountAsSum(s, v, m - 1);
      assert s[..m] == s[..m - 1] + [s[m - 1]];
      SumOverIotaSnoc(m - 1, Indicator(s, v));
    }
  }

  /** A permutation of the axes keeps the extents, counted with repetition. */
  lemma ShuffleMultiset(rho: seq<nat>, s: seq<nat>)
    requires IsPermutation(rho, |s|)
    ensures multiset(Shuffle(rho, s)) == multiset(s)
  {
    var t: seq<nat> := Shuffle(rho, s);
    forall v: nat
      ensures multiset(t)[v] == multiset(s)[v]
    {
      CountPermuted(rho, s, t, v);
    }
  }

  /** Each value occurs as often in the reordering as in the original. */
  lemma CountPermuted(rho: seq<nat>, s: seq<nat>, t: seq<nat>, v: nat)
    requires IsPermutation(rho, |s|) && t == Shuffle(rho, s)
    ensures multiset(t)[v] == multiset(s)[v]
  {
    var n := |s|;
    assert multiset(t)[v] == SumOver(Iota(n), Indicator(t, v)) by {
      CountAsSum(t, v, n);
      assert t[..n] == t;
    }
    assert SumOver(Iota(n), Indicator(t, v)) == SumOver(rho, Indicator(s, v)) by {
      SumOverReindex(rho, Indicator(s, v), Indicator(t, v), n);
      assert rho[..n] == rho;
    }
    assert SumOver(rho, Indicator(s, v)) == SumOver(Iota(n), Indicator(s, v)) by {
      PermutationMultiset(rho, n);
      SumOverPermuted(rho, Iota(n), Indicator(s, v));
    }
    assert SumOver(Iota(n), Indicator(s, v)) == multiset(s)[v] by {
      CountAsSum(s, v, n);
      assert s[..n] == s;
    }
  }

  /** The size of a box depends only on its extents, not their order. */
  lemma {:induction false} SizeMultiset(a: seq<nat>, b: seq<nat>)
    requires multiset(a) == multiset(b)
    ensures Size(a) == Size(b)
    decreases |a|
  {
    if |a| == 0 {
      assert |b| == |multiset(b)| == 0;
    } else {
      assert a[0] in multiset(b);
      var j :| 0 <= j < |b| && b[j] == a[0];
      MultisetRemove(a, b, j);
      var rest := b[..j] + b[j + 1..];
      SizeMultiset(a[1..], rest);
      SizeAppend(b[..j], b[j + 1..]);
      assert b == b[..j] + ([b[j]] + b[j + 1..]);
      SizeAppend(b[..j], [b[j]] + b[j + 1..]);
      assert ([b[j]] + b[j + 1..])[1..] == b[j + 1..];
      MulSwap(Size(b[..j]), a[0], Size(b[j + 1..]));
    }
  }

  /** `x * (a * c) == a * (x * c)`. */
  lemma MulSwap(a: nat, x: nat, c: nat)
    ensures a * (x * c) == x * (a * c)
  {
  }

  // ---------------------------------------------------------------------
  // copy
  // ---------------------------------------------------------------------

  /** The axis order of the output of `copy`: output axis `j` (counted from
      the front) is input axis `Rho(p, rank)[j]`. The code lists, from the
      back, the input axis `p[i]` as the `i`-th fastest output axis. */
  function Rho(p: seq<nat>, rank: nat): (rho: seq<nat>)
    requires |p| >= rank && forall i :: 0 <= i < rank ==> p[i] < rank
    ensures |rho| == rank && forall j :: 0 <= j < rank ==> rho[j] < rank
  {
    seq(rank, j requires 0 <= j < rank => rank - 1 - p[rank - 1 - j])
  }

  /** `p` is a valid order for `copy` of a tile of rank `rank`: the code
      reads `p[0 .. rank-1]` and writes output strides at those axes. */
  predicate ValidOrder(p: seq<nat>, rank: nat)
  {
    |p| >= rank && forall i :: 0 <= i < rank ==> p[i] < rank
  }

  /** A permutation order gives a permutation of the axes. */
  lemma RhoPermutation(p: seq<nat>, rank: nat)
    requires ValidOrder(p, rank) && IsPermutation(p[..rank], rank)
    ensures IsPermutation(Rho(p, rank), rank)
  {
    var rho := Rho(p, rank);
    forall i, j | 0 <= i < j < rank
      ensures rho[i] != rho[j]
    {
      assert p[..rank][rank - 1 - j] != p[..rank][rank - 1 - i];
    }
  }

  /** The extents of the output tile. */
  function OutDims(dims: seq<nat>, p: seq<nat>): (r: seq<nat>)
    requires ValidOrder(p, |dims|)
    ensures |r| == |dims|
  {
    Shuffle(Rho(p, |dims|), dims)
  }

  /** Output axis `j` has the extent of input axis `p[rank-1-j]`, both
      counted from the back. */
  lemma OutDimsAt(dims: seq<nat>, p: seq<nat>, j: nat)
    requires ValidOrder(p, |dims|) && j < |dims|
    ensures OutDims(dims, p)[j] == dims[|dims| - 1 - p[|dims| - 1 - j]]
  {
  }

  /** Where `copy` writes the element at multi-index `d` of the input: the
      row-major position, in the output tile, of `d` with its axes
      reordered. */
  function TransposedOffset(dims: seq<nat>, p: seq<nat>, d: seq<nat>): nat
    requires ValidOrder(p, |dims|) && |d| == |dims|
  {
    Encode(OutDims(dims, p), Shuffle(Rho(p, |dims|), d))
  }

  /** The stride loop of `copy`. The input strides are the row-major strides
      of `dims` whatever `p` is; when `p` is a permutation, the output
      strides read in output-axis order are the row-major strides of the
      reordered extents. */
  method CopyStrides(dims: seq<nat>, p: seq<nat>) returns (sIn: seq<nat>, sOut: seq<nat>)
    requires ValidOrder(p, |dims|)
    ensures sIn == RowMajor(dims)
    ensures |sOut| == |dims|
    ensures IsPermutation(p[..|dims|], |dims|) ==>
              Shuffle(Rho(p, |dims|), sOut) == RowMajor(OutDims(dims, p))
    ensures p[..|dims|] == Iota(|dims|) ==> sOut == sIn
  {
    var rank := |dims|;
    ghost var perm := IsPermutation(p[..rank], rank);
    sIn := seq(rank, _ => 0);
    sOut := seq(rank, _ => 0);
    var nIn: nat, nOut: nat := 1, 1;
    var i := 0;
    while i < rank
      invariant InStrideInv(dims, i, sIn, nIn)
      invariant i <= rank && |sOut| == rank && nOut == Placed(dims, p, i)
      invariant OutStrideInv(dims, p, perm, i, sOut)
    {
      var k := p[i];
      InStrideStep(dims, i, sIn, nIn);
      OutStrideStep(dims, p, perm, i, sOut);
      sIn := sIn[rank - 1 - i := nIn];
      sOut := sOut[rank - 1 - k := nOut];
      nIn := nIn * dims[rank - 1 - i];
      nOut := nOut * dims[rank - 1 - k];
      i := i + 1;
    }
    InStrideDone(dims, sIn, nIn);
    OutStrides(dims, p, perm, sOut);
    if p[..rank] == Iota(rank) {
      IotaPermutation(rank);
      IdentityStrides(dims, p, sOut);
    }
  }

  /** The running output product of the stride loop after `i` turns: the
      product of the extents of the input axes `p[0 .. i-1]`, counted from
      the back. */
  function Placed(dims: seq<nat>, p: seq<nat>, i: nat): nat
    requires ValidOrder(p, |dims|) && i <= |dims|
  {
    if i == 0 then 1 else Placed(dims, p, i - 1) * dims[|dims| - 1 - p[i - 1]]
  }

  /** The output extents placed after `i` turns are the last `i` output
      extents. */
  lemma {:induction false} PlacedIsSize(dims: seq<nat>, p: seq<nat>, i: nat)
    requires ValidOrder(p, |dims|) && i <= |dims|
    ensures Placed(dims, p, i) == Size(OutDims(dims, p)[|dims| - i..])
  {
    var outDims := OutDims(dims, p);
    if i > 0 {
      PlacedIsSize(dims, p, i - 1);
      var j := |dims| - i;
      var x := dims[|dims| - 1 - p[i - 1]];
      OutDimsAt(dims, p, j);
      SizeStep(outDims, j, x);
      assert Placed(dims, p, i) == Placed(dims, p, i - 1) * x;
      assert Placed(dims, p, i - 1) == Size(outDims[j + 1..]);
    } else {
      assert outDims[|dims|..] == [];
    }
  }

  /** After `i` turns of the stride loop of `copy`, the running input
      product is the size of the last `i` extents and the last `i` input
      strides are row-major. */
  predicate InStrideInv(dims: seq<nat>, i: nat, sIn: seq<nat>, nIn: int)
  {
    var rank := |dims|;
    && i <= rank && |sIn| == rank
    && nIn == Size(dims[rank - i..])
    && (forall k :: rank - i <= k < rank ==> sIn[k] == Size(dims[k + 1..]))
  }

  /** One turn keeps the input half of the invariant. */
  lemma InStrideStep(dims: seq<nat>, i: nat, sIn: seq<nat>, nIn: nat)
    requires InStrideInv(dims, i, sIn, nIn) && i < |dims|
    ensures var rank := |dims|;
            InStrideInv(dims, i + 1, sIn[rank - 1 - i := nIn], nIn * dims[rank - 1 - i])
  {
    SizeStep(dims, |dims| - 1 - i, dims[|dims| - 1 - i]);
  }

  /** When the stride loop ends the input strides are row-major. */
  lemma InStrideDone(dims: seq<nat>, sIn: seq<nat>, nIn: nat)
    requires InStrideInv(dims, |dims|, sIn, nIn)
    ensures sIn == RowMajor(dims)
  {
    assert forall k :: 0 <= k < |dims| ==> sIn[k] == RowMajor(dims)[k];
  }

  /** The size of the trailing extents from `j` on grows by extent `j`. */
  lemma SizeStep(xs: seq<nat>, j: nat, x: nat)
    requires j < |xs| && xs[j] == x
    ensures Size(xs[j + 1..]) * x == Size(xs[j..])
  {
    assert xs[j..][1..] == xs[j + 1..];
  }

  /** After `i` turns of the stride loop of `copy`, when `p` is a
      permutation, the output stride of input axis `p[j]` (counted from the
      back) is the running output product before turn `j`. */
  predicate OutStrideInv(dims: seq<nat>, p: seq<nat>, perm: bool, i: nat, sOut: seq<nat>)
    requires ValidOrder(p, |dims|) && i <= |dims| && |sOut| == |dims|
  {
    perm ==> forall j {:trigger p[j]} :: 0 <= j < i ==> sOut[|dims| - 1 - p[j]] == Placed(dims, p, j)
  }

  /** One turn keeps the output half of the invariant: a permutation order
      never overwrites a stride placed before. */
  lemma OutStrideStep(dims: seq<nat>, p: seq<nat>, perm: bool, i: nat, sOut: seq<nat>)
    requires ValidOrder(p, |dims|) && i < |dims| && |sOut| == |dims|
    requires perm == IsPermutation(p[..|dims|], |dims|)
    requires OutStrideInv(dims, p, perm, i, sOut)
    ensures OutStrideInv(dims, p, perm, i + 1, sOut[|dims| - 1 - p[i] := Placed(dims, p, i)])
  {
    if perm {
      var rank := |dims|;
      var pos := seq(rank, j requires 0 <= j < rank => rank - 1 - p[j]);
      var vals := seq(i + 1, j requires 0 <= j <= i => Placed(dims, p, j));
      OrderDistinct(p, rank, i);
      UpdateKeeps(sOut, pos, vals, i);
    }
  }

  /** Writing value `i` at position `i` keeps the values written at the
      earlier, different positions. */
  lemma UpdateKeeps(s: seq<nat>, pos: seq<nat>, vals: seq<nat>, i: nat)
    requires i < |pos| && i < |vals| && forall j :: 0 <= j < |pos| ==> pos[j] < |s|
    requires forall j :: 0 <= j < i ==> pos[j] != pos[i]
    requires forall j :: 0 <= j < i ==> s[pos[j]] == vals[j]
    ensures forall j :: 0 <= j <= i ==> s[pos[i] := vals[i]][pos[j]] == vals[j]
  {
  }

  /** A permutation order lists axis `p[i]` once. */
  lemma OrderDistinct(p: seq<nat>, rank: nat, i: nat)
    requires |p| >= rank && i < rank
    ensures IsPermutation(p[..rank], rank) ==> forall j :: 0 <= j < i ==> p[j] != p[i]
  {
    if IsPermutation(p[..rank], rank) {
      assert forall j :: 0 <= j < i ==> p[..rank][j] != p[..rank][i];
    }
  }

  /** The output strides the loop leaves behind, read in output-axis order,
      are the row-major strides of the output extents. */
  lemma OutStrides(dims: seq<nat>, p: seq<nat>, perm: bool, sOut: seq<nat>)
    requires ValidOrder(p, |dims|) && perm == IsPermutation(p[..|dims|], |dims|)
    requires |sOut| == |dims|
    requires OutStrideInv(dims, p, perm, |dims|, sOut)
    ensures perm ==> Shuffle(Rho(p, |dims|), sOut) == RowMajor(OutDims(dims, p))
  {
    if perm {
      var rank := |dims|;
      var t, u := Shuffle(Rho(p, rank), sOut), RowMajor(OutDims(dims, p));
      forall j | 0 <= j < rank
        ensures t[j] == u[j]
      {
        OutStrideAt(dims, p, sOut, j);
      }
    }
  }

  /** Output axis `j` gets the stride the loop computed for it. */
  lemma OutStrideAt(dims: seq<nat>, p: seq<nat>, sOut: seq<nat>, j: nat)
    requires ValidOrder(p, |dims|) && |sOut| == |dims| && j < |dims|
    requires sOut[|dims| - 1 - p[|dims| - 1 - j]] == Placed(dims, p, |dims| - 1 - j)
    ensures Shuffle(Rho(p, |dims|), sOut)[j] == RowMajor(OutDims(dims, p))[j]
  {
    var rho := Rho(p, |dims|);
    assert rho[j] == |dims| - 1 - p[|dims| - 1 - j];
    assert Shuffle(rho, sOut)[j] == sOut[rho[j]];
    PlacedAt(dims, p, j);
    RowMajorAt(OutDims(dims, p), j);
  }

  /** The running product before turn `|dims|-1-j` is the size of the
      output extents after axis `j`. */
  lemma PlacedAt(dims: seq<nat>, p: seq<nat>, j: nat)
    requires ValidOrder(p, |dims|) && j < |dims|
    ensures Placed(dims, p, |dims| - 1 - j) == Size(OutDims(dims, p)[j + 1..])
  {
    PlacedIsSize(dims, p, |dims| - 1 - j);
    assert |dims| - (|dims| - 1 - j) == j + 1;
  }

  /** `copy(dims, in, out, p)`: the element at position `k` of the dense
      row-major input tile lands at the transposed position of the `k`-th
      multi-index; the rest of the output buffer keeps its contents. A rank-0
      tile is not copied at all, because `apply` returns at once for rank 0. */
  method Copy<T>(dims: seq<nat>, input: seq<T>, out: seq<T>, p: seq<nat>) returns (r: seq<T>)
    requires ValidOrder(p, |dims|) && IsPermutation(p[..|dims|], |dims|)
    requires |dims| > 0 ==> Size(dims) <= |input| && Size(dims) <= |out|
    ensures |r| == |out|
    ensures |dims| == 0 ==> r == out
    ensures |dims| > 0 ==> forall k :: 0 <= k < Size(dims) ==> r[OffsetOf(dims, p, k)] == input[k]
    ensures |dims| > 0 ==> forall o :: Size(dims) <= o < |out| ==> r[o] == out[o]
    ensures |dims| > 0 && p[..|dims|] == Iota(|dims|) ==> r[..Size(dims)] == input[..Size(dims)]
  {
    var sIn, sOut := CopyStrides(dims, p);
    var pairs := Apply(dims, 0, sIn, 0, sOut);
    if |dims| == 0 {
      return out;
    }
    CopyPairs(dims, p, sIn, sOut);
    r := Scatter(out, input, pairs);
    ScatterTransposes(dims, p, input, out, pairs);
  }

  /** A rank-0 tile holds one element, but `apply` makes no call for rank
      0, so `copy` leaves that element of the output unwritten. */
  lemma RankZeroSkipped(p0: nat, p1: nat)
    ensures Size([]) == 1
    ensures Apply([], p0, [], p1, []) == []
  {
  }

  /** `copy` as it is evidently meant to work for every rank: a rank-0 tile
      copies its single element, and every higher rank is the strided copy. */
  method CopyAllRanks<T>(dims: seq<nat>, input: seq<T>, out: seq<T>, p: seq<nat>) returns (r: seq<T>)
    requires ValidOrder(p, |dims|) && IsPermutation(p[..|dims|], |dims|)
    requires Size(dims) <= |input| && Size(dims) <= |out|
    ensures |r| == |out|
    ensures forall k :: 0 <= k < Size(dims) ==> r[OffsetOf(dims, p, k)] == input[k]
    ensures forall o :: Size(dims) <= o < |out| ==> r[o] == out[o]
    ensures p[..|dims|] == Iota(|dims|) ==> r[..Size(dims)] == input[..Size(dims)]
  {
    if |dims| == 0 {
      r := out[0 := input[0]];
    } else {
      r := Copy(dims, input, out, p);
    }
  }

  /** Scattering the walk of `copy` puts every input element at its
      transposed position and writes nothing past the tile. */
  lemma ScatterTransposes<T>(dims: seq<nat>, p: seq<nat>, input: seq<T>, out: seq<T>, pairs: seq<(nat, nat)>)
    requires |dims| > 0 && ValidOrder(p, |dims|) && IsPermutation(p[..|dims|], |dims|)
    requires Size(dims) <= |input| && Size(dims) <= |out|
    requires |pairs| == Size(dims)
    requires forall k :: 0 <= k < |pairs| ==> pairs[k] == (k, OffsetOf(dims, p, k))
    requires forall k :: 0 <= k < |pairs| ==> pairs[k].0 < |input| && pairs[k].1 < |out|
    requires forall k, m :: 0 <= k < m < |pairs| ==> pairs[k].1 != pairs[m].1
    ensures var r := Scatter(out, input, pairs);
            && (forall k :: 0 <= k < Size(dims) ==> r[OffsetOf(dims, p, k)] == input[k])
            && (forall o :: Size(dims) <= o < |out| ==> r[o] == out[o])
            && (p[..|dims|] == Iota(|dims|) ==> r[..Size(dims)] == input[..Size(dims)])
  {
    var r := Scatter(out, input, pairs);
    forall k | 0 <= k < Size(dims)
      ensures r[OffsetOf(dims, p, k)] == input[k]
    {
      assert forall m :: k < m < |pairs| ==> pairs[m].1 != pairs[k].1;
    }
    forall o | Size(dims) <= o < |out|
      ensures r[o] == out[o]
    {
      assert forall k :: 0 <= k < |pairs| ==> pairs[k].1 != o;
    }
    if p[..|dims|] == Iota(|dims|) {
      forall k | 0 <= k < Size(dims)
        ensures r[k] == input[k]
      {
        TuplesAt(dims, k);
        TransposeIdentity(dims, p, Tuples(dims)[k]);
        assert OffsetOf(dims, p, k) == k;
      }
    }
  }

  /** The pairs `copy` hands to its assignment: call `k` reads input
      position `k` and writes the transposed position of the `k`-th
      multi-index, and no two calls write the same position. */
  lemma CopyPairs(dims: seq<nat>, p: seq<nat>, sIn: seq<nat>, sOut: seq<nat>)
    requires |dims| > 0 && ValidOrder(p, |dims|) && IsPermutation(p[..|dims|], |dims|)
    requires sIn == RowMajor(dims) && |sOut| == |dims|
    requires Shuffle(Rho(p, |dims|), sOut) == RowMajor(OutDims(dims, p))
    ensures var pairs := Apply(dims, 0, sIn, 0, sOut);
            && |pairs| == Size(dims)
            && (forall k :: 0 <= k < |pairs| ==> pairs[k] == (k, OffsetOf(dims, p, k)))
            && (forall k, m :: 0 <= k < m < |pairs| ==> pairs[k].1 != pairs[m].1)
  {
    var pairs := Apply(dims, 0, sIn, 0, sOut);
    forall k | 0 <= k < |pairs|
      ensures pairs[k] == (k, OffsetOf(dims, p, k))
    {
      CopyVisit(dims, p, sIn, sOut, k);
    }
    forall k, m | 0 <= k < m < |pairs|
      ensures OffsetOf(dims, p, k) != OffsetOf(dims, p, m)
    {
      OffsetOfInjective(dims, p, k, m);
    }
  }

  /** Distinct input positions go to distinct output positions. */
  lemma OffsetOfInjective(dims: seq<nat>, p: seq<nat>, k: nat, m: nat)
    requires ValidOrder(p, |dims|) && IsPermutation(p[..|dims|], |dims|)
    requires k < Size(dims) && m < Size(dims) && k != m
    ensures OffsetOf(dims, p, k) != OffsetOf(dims, p, m)
  {
    TuplesAt(dims, k);
    TuplesAt(dims, m);
    TransposeInjective(dims, p, Tuples(dims)[k], Tuples(dims)[m]);
  }

  /** One call of the walk `copy` makes. */
  lemma CopyVisit(dims: seq<nat>, p: seq<nat>, sIn: seq<nat>, sOut: seq<nat>, k: nat)
    requires |dims| > 0 && ValidOrder(p, |dims|) && IsPermutation(p[..|dims|], |dims|)
    requires sIn == RowMajor(dims) && |sOut| == |dims|
    requires Shuffle(Rho(p, |dims|), sOut) == RowMajor(OutDims(dims, p))
    requires k < Size(dims)
    ensures k < |Apply(dims, 0, sIn, 0, sOut)|
    ensures Apply(dims, 0, sIn, 0, sOut)[k] == (k, OffsetOf(dims, p, k))
  {
    ApplyAt(dims, 0, sIn, 0, sOut, k);
    TuplesAt(dims, k);
    var t := Tuples(dims)[k];
    EncodeIsDot(dims, t);
    assert Dot(t, sIn) == k;
    CopyWritesAt(dims, p, sOut, t);
    assert Dot(t, sOut) == OffsetOf(dims, p, k);
  }

  /** Output strides that are row-major in output-axis order send the
      multi-index `t` to its transposed position. */
  lemma CopyWritesAt(dims: seq<nat>, p: seq<nat>, sOut: seq<nat>, t: seq<nat>)
    requires ValidOrder(p, |dims|) && IsPermutation(p[..|dims|], |dims|)
    requires |sOut| == |dims| && |t| == |dims|
    requires Shuffle(Rho(p, |dims|), sOut) == RowMajor(OutDims(dims, p))
    ensures Dot(t, sOut) == TransposedOffset(dims, p, t)
  {
    var rho := Rho(p, |dims|);
    RhoPermutation(p, |dims|);
    DotPermuted(rho, t, sOut);
    EncodeIsDot(OutDims(dims, p), Shuffle(rho, t));
  }

  /** The transposed position of a multi-index of the box lies inside the
      output tile, which has as many elements as the input. */
  lemma TransposeBound(dims: seq<nat>, p: seq<nat>, d: seq<nat>)
    requires ValidOrder(p, |dims|) && IsPermutation(p[..|dims|], |dims|)
    requires InBounds(dims, d)
    ensures InBounds(OutDims(dims, p), Shuffle(Rho(p, |dims|), d))
    ensures Size(OutDims(dims, p)) == Size(dims)
    ensures TransposedOffset(dims, p, d) < Size(dims)
  {
    var rho := Rho(p, |dims|);
    var e := Shuffle(rho, d);
    assert InBounds(OutDims(dims, p), e);
    EncodeBound(OutDims(dims, p), e);
    RhoPermutation(p, |dims|);
    ShuffleMultiset(rho, dims);
    SizeMultiset(OutDims(dims, p), dims);
  }

  /** Distinct multi-indices have distinct transposed positions. */
  lemma TransposeInjective(dims: seq<nat>, p: seq<nat>, d: seq<nat>, e: seq<nat>)
    requires ValidOrder(p, |dims|) && IsPermutation(p[..|dims|], |dims|)
    requires InBounds(dims, d) && InBounds(dims, e)
    ensures TransposedOffset(dims, p, d) == TransposedOffset(dims, p, e) ==> d == e
  {
    if TransposedOffset(dims, p, d) == TransposedOffset(dims, p, e) {
      var rho := Rho(p, |dims|);
      TransposeBound(dims, p, d);
      TransposeBound(dims, p, e);
      EncodeInjective(OutDims(dims, p), Shuffle(rho, d), Shuffle(rho, e));
      RhoPermutation(p, |dims|);
      ShuffleInjective(rho, d, e);
    }
  }

  /** Reordering by a permutation loses nothing: equal reorderings come
      from equal sequences. */
  lemma ShuffleInjective(rho: seq<nat>, d: seq<nat>, e: seq<nat>)
    requires IsPermutation(rho, |d|) && |e| == |d|
    requires Shuffle(rho, d) == Shuffle(rho, e)
    ensures d == e
  {
    PermutationCovers(rho, |d|);
    forall a | 0 <= a < |d|
      ensures d[a] == e[a]
    {
      assert a in rho;
      var j :| 0 <= j < |rho| && rho[j] == a;
      assert Shuffle(rho, d)[j] == Shuffle(rho, e)[j];
    }
  }

  /** For the identity order the output is laid out like the input. */
  lemma TransposeIdentity(dims: seq<nat>, p: seq<nat>, d: seq<nat>)
    requires ValidOrder(p, |dims|) && p[..|dims|] == Iota(|dims|) && |d| == |dims|
    ensures TransposedOffset(dims, p, d) == Encode(dims, d)
  {
    RhoIdentity(p, |dims|);
    ShuffleIdentity(dims);
    ShuffleIdentity(d);
  }

  /** The identity order keeps every axis in place. */
  lemma RhoIdentity(p: seq<nat>, rank: nat)
    requires ValidOrder(p, rank) && p[..rank] == Iota(rank)
    ensures Rho(p, rank) == Iota(rank)
  {
    var rho := Rho(p, rank);
    forall j | 0 <= j < rank
      ensures rho[j] == j
    {
      assert p[..rank][rank - 1 - j] == rank - 1 - j;
    }
  }

  /** For the identity order the output strides are the input strides. */
  lemma IdentityStrides(dims: seq<nat>, p: seq<nat>, sOut: seq<nat>)
    requires ValidOrder(p, |dims|) && p[..|dims|] == Iota(|dims|) && |sOut| == |dims|
    requires Shuffle(Rho(p, |dims|), sOut) == RowMajor(OutDims(dims, p))
    ensures sOut == RowMajor(dims)
  {
    RhoIdentity(p, |dims|);
    ShuffleIdentity(sOut);
    ShuffleIdentity(dims);
  }

  /** The identity order is a permutation. */
  lemma IotaPermutation(n: nat)
    ensures IsPermutation(Iota(n), n)
  {
  }

  /** Every position of the output tile receives an element: the transposed
      positions of the box's multi-indices are all of `0 .. Size(dims)-1`. */
  lemma TransposeCovers(dims: seq<nat>, p: seq<nat>, o: nat)
    requires ValidOrder(p, |dims|) && IsPermutation(p[..|dims|], |dims|)
    requires o < Size(dims)
    ensures exists d :: InBounds(dims, d) && TransposedOffset(dims, p, d) == o
  {
    OffsetOfCovers(dims, p, o);
    var k :| 0 <= k < Size(dims) && OffsetOf(dims, p, k) == o;
    TuplesAt(dims, k);
    var d := Tuples(dims)[k];
    assert InBounds(dims, d) && TransposedOffset(dims, p, d) == o;
  }

  /** Every position of the output tile is written by some call of the
      walk: with `OffsetOfInjective`, the walk's write positions are a
      bijection onto `0 .. Size(dims)-1`. */
  lemma OffsetOfCovers(dims: seq<nat>, p: seq<nat>, o: nat)
    requires ValidOrder(p, |dims|) && IsPermutation(p[..|dims|], |dims|)
    requires o < Size(dims)
    ensures exists k :: 0 <= k < Size(dims) && OffsetOf(dims, p, k) == o
  {
    var n := Size(dims);
    var offsets := seq(n, k requires 0 <= k < n => OffsetOf(dims, p, k));
    OffsetsPermutation(dims, p, offsets);
    PermutationCovers(offsets, n);
    assert o in offsets;
    var k :| 0 <= k < n && offsets[k] == o;
    assert OffsetOf(dims, p, k) == o;
  }

  /** The transposed positions of `0 .. Size(dims)-1`, in input order, are a
      permutation of `0 .. Size(dims)-1`. */
  lemma OffsetsPermutation(dims: seq<nat>, p: seq<nat>, offsets: seq<nat>)
    requires ValidOrder(p, |dims|) && IsPermutation(p[..|dims|], |dims|)
    requires |offsets| == Size(dims)
    requires forall k :: 0 <= k < |offsets| ==> offsets[k] == OffsetOf(dims, p, k)
    ensures IsPermutation(offsets, Size(dims))
  {
    forall k, m | 0 <= k < m < |offsets|
      ensures offsets[k] != offsets[m]
    {
      OffsetOfInjective(dims, p, k, m);
    }
  }

  /** The transposed position of the `k`-th multi-index. */
  function OffsetOf(dims: seq<nat>, p: seq<nat>, k: nat): (o: nat)
    requires ValidOrder(p, |dims|) && IsPermutation(p[..|dims|], |dims|)
    requires k < Size(dims)
    ensures o < Size(dims)
  {
    TuplesAt(dims, k);
    TransposeBound(dims, p, Tuples(dims)[k]);
    TransposedOffset(dims, p, Tuples(dims)[k])
  }

  /** The calls of `apply` in `copy`, each assigning the element it reads to
      the place it writes, one after the other: a position written more than
      once keeps the last value, an unwritten one keeps its contents. */
  function Scatter<T>(out: seq<T>, input: seq<T>, pairs: seq<(nat, nat)>): (r: seq<T>)
    requires forall k :: 0 <= k < |pairs| ==> pairs[k].0 < |input| && pairs[k].1 < |out|
    ensures |r| == |out|
    ensures forall o :: 0 <= o < |out| && (forall k :: 0 <= k < |pairs| ==> pairs[k].1 != o) ==> r[o] == out[o]
    ensures forall k :: 0 <= k < |pairs| && (forall m :: k < m < |pairs| ==> pairs[m].1 != pairs[k].1) ==>
              r[pairs[k].1] == input[pairs[k].0]
    decreases |pairs|
  {
    if |pairs| == 0 then out
    else Scatter(out[pairs[0].1 := input[pairs[0].0]], input, pairs[1..])
  }
}
