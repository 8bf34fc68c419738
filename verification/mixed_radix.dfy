/** Multi-indices over a box of extents `lens`: the number of points, the
    row-major position of a point (last coordinate fastest), the points in
    that order, and strides. Both `cartesian_foreach` and the tile kernels
    enumerate exactly this order. */
module MixedRadix {

  /** The number of points of the box: the product of the extents. */
  function Size(lens: seq<nat>): nat
  {
    if |lens| == 0 then 1 else lens[0] * Size(lens[1..])
  }

  /** `d` is a point of the box: one coordinate per extent, each below it. */
  predicate InBounds(lens: seq<nat>, d: seq<nat>)
  {
    |d| == |lens| && forall k :: 0 <= k < |d| ==> d[k] < lens[k]
  }

  /** The row-major position of `d`: the first coordinate counts whole
      sub-boxes, the rest is the position inside the sub-box. */
  function Encode(lens: seq<nat>, d: seq<nat>): nat
    requires |d| == |lens|
  {
    if |lens| == 0 then 0 else d[0] * Size(lens[1..]) + Encode(lens[1..], d[1..])
  }

  /** `Σ d[k] * s[k]`: the offset of multi-index `d` under strides `s`. */
  function Dot(d: seq<nat>, s: seq<nat>): nat
    requires |d| == |s|
  {
    if |d| == 0 then 0 else d[0] * s[0] + Dot(d[1..], s[1..])
  }

  /** Row-major strides: stride `k` is the size of the box of the extents
      after `k`, so the last stride is 1. */
  function RowMajor(lens: seq<nat>): (s: seq<nat>)
    ensures |s| == |lens|
  {
    seq(|lens|, k requires 0 <= k < |lens| => Size(lens[k + 1..]))
  }

  /** Stride `k` is the number of elements in one step of axis `k`. */
  lemma RowMajorAt(lens: seq<nat>, k: nat)
    requires k < |lens|
    ensures RowMajor(lens)[k] == Size(lens[k + 1..])
  {
  }

  /** The last row-major stride is 1 and each stride is the next one times
      the next extent. */
  lemma RowMajorSteps(lens: seq<nat>)
    ensures var s := RowMajor(lens);
            && (|lens| > 0 ==> s[|lens| - 1] == 1)
            && forall k :: 0 <= k < |lens| - 1 ==> s[k] == s[k + 1] * lens[k + 1]
  {
    var s := RowMajor(lens);
    forall k | 0 <= k < |lens| - 1
      ensures s[k] == s[k + 1] * lens[k + 1]
    {
      assert lens[k + 1..][1..] == lens[k + 2..];
    }
    if |lens| > 0 {
      assert lens[|lens|..] == [];
    }
  }

  /** Lexicographic order on equally long tuples. */
  predicate LexLess(a: seq<int>, b: seq<int>)
  {
    |a| == |b| && exists j :: 0 <= j < |a| && a[..j] == b[..j] && a[j] < b[j]
  }

  /** `n` copies of the points `ts`, the copy `a` prefixed by coordinate `a`. */
  function Blocks(n: nat, ts: seq<seq<nat>>): (r: seq<seq<nat>>)
    ensures |r| == n * |ts|
  {
    if n == 0 then []
    else Blocks(n - 1, ts) + seq(|ts|, i requires 0 <= i < |ts| => [n - 1] + ts[i])
  }

  /** Every point of the box in row-major order. */
  function Tuples(lens: seq<nat>): (ts: seq<seq<nat>>)
    ensures |ts| == Size(lens)
  {
    if |lens| == 0 then [[]] else Blocks(lens[0], Tuples(lens[1..]))
  }

  /** A point's position lies inside the box. */
  lemma {:induction false} EncodeBound(lens: seq<nat>, d: seq<nat>)
    requires InBounds(lens, d)
    ensures Encode(lens, d) < Size(lens)
  {
    if |lens| > 0 {
      var t, u := lens[1..], d[1..];
      assert InBounds(t, u) by {
        assert forall k :: 0 <= k < |u| ==> u[k] == d[k + 1] && t[k] == lens[k + 1];
      }
      EncodeBound(t, u);
      assert Encode(lens, d) == d[0] * Size(t) + Encode(t, u);
      assert Size(lens) == lens[0] * Size(t);
      DigitBound(d[0], lens[0], Encode(t, u), Size(t));
    }
  }

  /** A leading digit below its radix keeps the position below the size. */
  lemma DigitBound(a: nat, n: nat, e: nat, s: nat)
    requires a < n && e < s
    ensures a * s + e < n * s
  {
    MulMono(a + 1, n, s);
  }

  lemma MulMono(a: nat, b: nat, c: nat)
    requires a <= b
    ensures a * c <= b * c
  {
  }

  /** Two points with the same position are the same point. */
  lemma {:induction false} EncodeInjective(lens: seq<nat>, d: seq<nat>, e: seq<nat>)
    requires InBounds(lens, d) && InBounds(lens, e)
    requires Encode(lens, d) == Encode(lens, e)
    ensures d == e
  {
    if |lens| > 0 {
      var t := lens[1..];
      EncodeBound(t, d[1..]);
      EncodeBound(t, e[1..]);
      LeadingCoordinate(d[0], e[0], Size(t), Encode(t, d[1..]), Encode(t, e[1..]));
      EncodeInjective(t, d[1..], e[1..]);
      assert d == [d[0]] + d[1..] && e == [e[0]] + e[1..];
    }
  }

  /** `a * s + x` with `x < s` determines `a` and `x`, and orders like `a`
      first. */
  lemma LeadingCoordinate(a: nat, b: nat, s: nat, x: nat, y: nat)
    requires x < s && y < s
    ensures a < b ==> a * s + x < b * s + y
    ensures a * s + x == b * s + y ==> a == b && x == y
  {
    if a < b {
      NextMultiple(a, b, s);
    } else if b < a {
      NextMultiple(b, a, s);
    }
  }

  /** Between two multiples of `s` there is room for a whole `s`. */
  lemma NextMultiple(a: nat, b: nat, s: nat)
    requires a < b
    ensures a * s + s <= b * s
  {
    MulMono(a + 1, b, s);
    assert (a + 1) * s == a * s + s;
  }

  /** Position `a * |ts| + e` of `Blocks(n, ts)` is point `e` of `ts`
      prefixed by `a`. */
  lemma {:induction false} BlocksAt(n: nat, ts: seq<seq<nat>>, a: nat, e: nat)
    requires a < n && e < |ts|
    ensures a * |ts| + e < |Blocks(n, ts)|
    ensures Blocks(n, ts)[a * |ts| + e] == [a] + ts[e]
  {
    MulMono(a + 1, n, |ts|);
    if a < n - 1 {
      BlocksAt(n - 1, ts, a, e);
      MulMono(a + 1, n - 1, |ts|);
    } else {
      assert |Blocks(n - 1, ts)| == a * |ts|;
    }
  }

  /** Position `k` of the enumeration is the point whose row-major position
      is `k`. */
  lemma {:induction false} TuplesAt(lens: seq<nat>, k: nat)
    requires k < Size(lens)
    ensures InBounds(lens, Tuples(lens)[k])
    ensures Encode(lens, Tuples(lens)[k]) == k
  {
    if |lens| > 0 {
      var t := lens[1..];
      var ts := Tuples(t);
      var a, e := SplitIndex(k, lens[0], |ts|);
      BlocksAt(lens[0], ts, a, e);
      TuplesAt(t, e);
      var d := Tuples(lens)[k];
      assert d == [a] + ts[e];
      assert d[1..] == ts[e];
    }
  }

  /** An index below `n * b` is `a * b + e` with `a < n` and `e < b`. */
  lemma SplitIndex(k: nat, n: nat, b: nat) returns (a: nat, e: nat)
    requires k < n * b
    ensures a < n && e < b && k == a * b + e
  {
    a, e := k / b, k % b;
    if n <= a {
      MulMono(n, a, b);
    }
  }

  /** Every point of the box is enumerated, at its row-major position. */
  lemma TuplesComplete(lens: seq<nat>, d: seq<nat>)
    requires InBounds(lens, d)
    ensures Encode(lens, d) < |Tuples(lens)|
    ensures Tuples(lens)[Encode(lens, d)] == d
  {
    EncodeBound(lens, d);
    TuplesAt(lens, Encode(lens, d));
    EncodeInjective(lens, d, Tuples(lens)[Encode(lens, d)]);
  }

  /** Row-major position order is lexicographic order. */
  lemma EncodeOrder(lens: seq<nat>, d: seq<nat>, e: seq<nat>)
    requires InBounds(lens, d) && InBounds(lens, e)
    ensures LexLess(d, e) <==> Encode(lens, d) < Encode(lens, e)
  {
    if LexLess(d, e) {
      LexLessEncode(lens, d, e);
    }
    if Encode(lens, d) < Encode(lens, e) {
      EncodeLexLess(lens, d, e);
    }
  }

  /** A lexicographically smaller point has a smaller position. */
  lemma {:induction false} LexLessEncode(lens: seq<nat>, d: seq<nat>, e: seq<nat>)
    requires InBounds(lens, d) && InBounds(lens, e) && LexLess(d, e)
    ensures Encode(lens, d) < Encode(lens, e)
  {
    var t := lens[1..];
    EncodeBound(t, d[1..]);
    EncodeBound(t, e[1..]);
    var j :| 0 <= j < |d| && d[..j] == e[..j] && d[j] < e[j];
    if j > 0 {
      assert d[0] == d[..j][0] == e[..j][0] == e[0];
      assert d[1..][..j - 1] == d[..j][1..] == e[..j][1..] == e[1..][..j - 1];
      assert LexLess(d[1..], e[1..]);
      LexLessEncode(t, d[1..], e[1..]);
    } else {
      LeadingCoordinate(d[0], e[0], Size(t), Encode(t, d[1..]), Encode(t, e[1..]));
    }
  }

  /** A point with a smaller position is lexicographically smaller. */
  lemma {:induction false} EncodeLexLess(lens: seq<nat>, d: seq<nat>, e: seq<nat>)
    requires InBounds(lens, d) && InBounds(lens, e)
    requires Encode(lens, d) < Encode(lens, e)
    ensures LexLess(d, e)
  {
    var t := lens[1..];
    EncodeBound(t, d[1..]);
    EncodeBound(t, e[1..]);
    LeadingCoordinate(e[0], d[0], Size(t), Encode(t, e[1..]), Encode(t, d[1..]));
    if d[0] == e[0] {
      EncodeLexLess(t, d[1..], e[1..]);
      var j :| 0 <= j < |d[1..]| && d[1..][..j] == e[1..][..j] && d[1..][j] < e[1..][j];
      assert d[..j + 1] == [d[0]] + d[1..][..j];
      assert e[..j + 1] == [e[0]] + e[1..][..j];
      assert d[j + 1] < e[j + 1];
    } else {
      assert d[..0] == e[..0];
    }
  }

  /** The enumeration is strictly increasing in lexicographic order, so no
      point occurs twice. */
  lemma TuplesSorted(lens: seq<nat>, j: nat, k: nat)
    requires j < k < Size(lens)
    ensures LexLess(Tuples(lens)[j], Tuples(lens)[k])
  {
    TuplesAt(lens, j);
    TuplesAt(lens, k);
    EncodeOrder(lens, Tuples(lens)[j], Tuples(lens)[k]);
  }

  /** The row-major position is the offset under row-major strides. */
  lemma {:induction false} EncodeIsDot(lens: seq<nat>, d: seq<nat>)
    requires |d| == |lens|
    ensures Encode(lens, d) == Dot(d, RowMajor(lens))
  {
    if |lens| > 0 {
      EncodeIsDot(lens[1..], d[1..]);
      assert RowMajor(lens)[1..] == RowMajor(lens[1..]);
    }
  }

  /** The position splits off the last coordinate too: the prefix counts
      whole rows of the last extent. */
  lemma {:induction false} EncodeSnoc(lens: seq<nat>, d: seq<nat>)
    requires |d| == |lens| > 0
    ensures var n := |lens| - 1;
            Encode(lens, d) == Encode(lens[..n], d[..n]) * lens[n] + d[n]
  {
    var n := |lens| - 1;
    if n > 0 {
      var t, u := lens[1..], d[1..];
      EncodeSnoc(t, u);
      SizeSnoc(t);
      assert t[..n - 1] == lens[..n][1..];
      assert u[..n - 1] == d[..n][1..];
      var inner, size := Encode(t[..n - 1], u[..n - 1]), Size(t[..n - 1]);
      assert Encode(lens[..n], d[..n]) == d[0] * size + inner;
      RowsOfLast(d[0], size, inner, lens[n], d[n]);
    }
  }

  /** `a * (s * l) + (i * l + x) == (a * s + i) * l + x`. */
  lemma RowsOfLast(a: nat, s: nat, i: nat, l: nat, x: nat)
    ensures a * (s * l) + (i * l + x) == (a * s + i) * l + x
  {
    MulAssoc(a, s, l);
    assert (a * s + i) * l == a * s * l + i * l;
  }

  lemma MulAssoc(a: nat, b: nat, c: nat)
    ensures a * (b * c) == a * b * c
  {
  }

  /** The size splits off the last extent. */
  lemma {:induction false} SizeSnoc(lens: seq<nat>)
    requires |lens| > 0
    ensures Size(lens) == Size(lens[..|lens| - 1]) * lens[|lens| - 1]
  {
    if |lens| > 1 {
      SizeSnoc(lens[1..]);
      assert lens[1..][..|lens| - 2] == lens[..|lens| - 1][1..];
      MulAssoc(lens[0], Size(lens[1..][..|lens| - 2]), lens[|lens| - 1]);
    }
  }

  /** Sizes multiply over concatenation. */
  lemma {:induction false} SizeAppend(a: seq<nat>, b: seq<nat>)
    ensures Size(a + b) == Size(a) * Size(b)
  {
    if |a| > 0 {
      SizeAppend(a[1..], b);
      assert (a + b)[1..] == a[1..] + b;
      assert Size(a + b) == a[0] * Size(a[1..] + b);
      MulAssoc(a[0], Size(a[1..]), Size(b));
    } else {
      assert a + b == b;
    }
  }
}
