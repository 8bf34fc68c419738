/** `TiledArray::range::Range`, a half-open interval walked by a counting
    iterator, and `cartesian_foreach`, the odometer that calls a function on
    every tuple of a product of ranges. */
module Ranges {
  import opened MixedRadix

  /** `Range(begin, end)`: the integers `begin, begin + 1, ..., end - 1`. */
  datatype Range = Range(begin: int, end: int)

  /** A counting iterator started at `begin` reaches `end` only if
      `begin <= end`. */
  predicate Valid(r: Range)
  {
    r.begin <= r.end
  }

  /** The number of values of a valid range. */
  function Length(r: Range): nat
    requires Valid(r)
  {
    r.end - r.begin
  }

  /** The values visited from `begin()` to `end()`, in order: each step of
      the counting iterator adds one. */
  function Values(r: Range): (v: seq<int>)
    requires Valid(r)
    ensures |v| == Length(r)
    ensures forall x :: x in v <==> r.begin <= x < r.end
    ensures forall i :: 0 < i < |v| ==> v[i] == v[i - 1] + 1
    ensures |v| > 0 ==> v[0] == r.begin
    decreases r.end - r.begin
  {
    if r.begin == r.end then [] else [r.begin] + Values(Range(r.begin + 1, r.end))
  }

  /** The pair constructor `Range(std::pair{first, second})` delegates to
      `Range(first, second + 1)`. */
  function FromPair(first: int, second: int): Range
  {
    Range(first, second + 1)
  }

  /** A range built from a pair includes its second component: it holds
      exactly `first, ..., second`. */
  lemma FromPairInclusive(first: int, second: int)
    requires first <= second + 1
    ensures Valid(FromPair(first, second))
    ensures Length(FromPair(first, second)) == second - first + 1
    ensures forall x :: x in Values(FromPair(first, second)) <==> first <= x <= second
  {
  }

  /** The extents of the ranges. */
  function Lengths(rs: seq<Range>): (lens: seq<nat>)
    requires forall k :: 0 <= k < |rs| ==> Valid(rs[k])
    ensures |lens| == |rs|
    ensures forall k :: 0 <= k < |rs| ==> lens[k] == Length(rs[k])
  {
    seq(|rs|, k requires 0 <= k < |rs| => Length(rs[k]))
  }

  /** The tuple `s` built from the iterators: each iterator is kept as its
      offset from its range's `begin`, so it dereferences to `begin + offset`. */
  function Point(rs: seq<Range>, its: seq<nat>): seq<int>
    requires |its| == |rs|
  {
    seq(|rs|, k requires 0 <= k < |rs| => rs[k].begin + its[k])
  }

  /** `t` is a tuple of the Cartesian product of the ranges. */
  predicate InProduct(rs: seq<Range>, t: seq<int>)
  {
    |t| == |rs| && forall k :: 0 <= k < |rs| ==> rs[k].begin <= t[k] < rs[k].end
  }

  /** One pass of the inner `while (i > 0)` loop entered with counter `i`:
      advance wheel `i - 1`; stop at wheel 0, which never wraps, or at a
      wheel that has not reached its end; otherwise rewind that wheel to its
      begin and carry into the wheel on its left. */
  function Carry(lens: seq<nat>, its: seq<nat>, i: nat): (r: seq<nat>)
    requires 1 <= i <= |its| == |lens|
    ensures |r| == |its|
    ensures r[i..] == its[i..]
    decreases i
  {
    var j := i - 1;
    var bumped := its[j := its[j] + 1];
    if j == 0 then bumped
    else if bumped[j] != lens[j] then bumped
    else Carry(lens, bumped[j := 0], j)
  }

  /** Wheels `1 .. i-1` are below their extents. */
  predicate WheelsBelow(lens: seq<nat>, its: seq<nat>, i: nat)
    requires i <= |its| == |lens|
  {
    forall k :: 1 <= k < i ==> its[k] < lens[k]
  }

  /** A carry pass entered with counter `i` adds one to the row-major
      position of the first `i` wheels and keeps wheels `1 .. i-1` below
      their extents. */
  lemma {:induction false} CarryCounts(lens: seq<nat>, its: seq<nat>, i: nat)
    requires 1 <= i <= |its| == |lens|
    requires WheelsBelow(lens, its, i)
    ensures WheelsBelow(lens, Carry(lens, its, i), i)
    ensures Encode(lens[..i], Carry(lens, its, i)[..i]) == Encode(lens[..i], its[..i]) + 1
    decreases i
  {
    var j := i - 1;
    var r := Carry(lens, its, i);
    var bumped := its[j := its[j] + 1];
    if j == 0 {
      assert r == bumped;
      assert r[..1] == [its[0] + 1] && its[..1] == [its[0]];
    } else if bumped[j] != lens[j] {
      assert r == bumped;
      assert r[..j] == its[..j];
      StepNoCarry(lens, its, r, i);
    } else {
      var rewound := bumped[j := 0];
      assert r == Carry(lens, rewound, j);
      assert WheelsBelow(lens, rewound, j);
      CarryCounts(lens, rewound, j);
      assert rewound[..j] == its[..j];
      assert r[j] == rewound[j];
      StepCarry(lens, its, r, i);
    }
  }

  /** Advancing wheel `i - 1` without a carry adds one to the position of
      the first `i` wheels. */
  lemma StepNoCarry(lens: seq<nat>, its: seq<nat>, r: seq<nat>, i: nat)
    requires 2 <= i <= |its| == |r| == |lens|
    requires r[..i - 1] == its[..i - 1] && r[i - 1] == its[i - 1] + 1
    ensures Encode(lens[..i], r[..i]) == Encode(lens[..i], its[..i]) + 1
  {
    var j := i - 1;
    EncodeSnoc(lens[..i], its[..i]);
    EncodeSnoc(lens[..i], r[..i]);
    assert lens[..i][..j] == lens[..j];
    assert its[..i][..j] == its[..j] && r[..i][..j] == r[..j];
  }

  /** Rewinding wheel `i - 1` from its last value after the wheels on its
      left advanced by one adds one to the position of the first `i` wheels. */
  lemma StepCarry(lens: seq<nat>, its: seq<nat>, r: seq<nat>, i: nat)
    requires 2 <= i <= |its| == |r| == |lens|
    requires its[i - 1] + 1 == lens[i - 1] && r[i - 1] == 0
    requires Encode(lens[..i - 1], r[..i - 1]) == Encode(lens[..i - 1], its[..i - 1]) + 1
    ensures Encode(lens[..i], r[..i]) == Encode(lens[..i], its[..i]) + 1
  {
    var j := i - 1;
    EncodeSnoc(lens[..i], its[..i]);
    EncodeSnoc(lens[..i], r[..i]);
    assert lens[..i][..j] == lens[..j];
    assert its[..i][..j] == its[..j] && r[..i][..j] == r[..j];
    NextRow(Encode(lens[..j], its[..j]), its[j]);
  }

  /** `(e + 1) * (x + 1) == e * (x + 1) + x + 1`. */
  lemma NextRow(e: nat, x: nat)
    ensures (e + 1) * (x + 1) == e * (x + 1) + x + 1
  {
  }

  /** Wheel 0 decides whether the odometer has passed the last tuple: below
      its extent the position is inside the box, at or past it the
      position is not. */
  lemma LeadingWheel(lens: seq<nat>, its: seq<nat>)
    requires |its| == |lens| > 0 && WheelsBelow(lens, its, |its|)
    ensures its[0] < lens[0] ==> Encode(lens, its) < Size(lens)
    ensures its[0] >= lens[0] ==> Encode(lens, its) >= Size(lens)
    ensures its[0] > lens[0] && Size(lens[1..]) > 0 ==> Encode(lens, its) > Size(lens)
  {
    if its[0] < lens[0] {
      assert InBounds(lens, its);
      EncodeBound(lens, its);
    } else {
      LeadingBound(lens[0], its[0], Size(lens[1..]), Encode(lens[1..], its[1..]));
    }
  }

  /** `l * s <= x * s + e` when `l <= x`, strictly when also `l < x` and `s > 0`. */
  lemma LeadingBound(l: nat, x: nat, s: nat, e: nat)
    requires l <= x
    ensures l * s <= x * s + e
    ensures l < x && s > 0 ==> l * s < x * s + e
  {
    MulMono(l, x, s);
    if l < x {
      MulMono(l + 1, x, s);
    }
  }

  /** All wheels at their begin is position 0. */
  lemma {:induction false} EncodeZeros(lens: seq<nat>, its: seq<nat>)
    requires |its| == |lens|
    requires forall k :: 0 <= k < |its| ==> its[k] == 0
    ensures Encode(lens, its) == 0
  {
    if |lens| > 0 {
      EncodeZeros(lens[1..], its[1..]);
    }
  }

  /** A non-empty box has no empty extent. */
  lemma {:induction false} SizePositive(lens: seq<nat>)
    requires Size(lens) > 0
    ensures forall k :: 0 <= k < |lens| ==> lens[k] > 0
  {
    if |lens| > 0 {
      SizePositive(lens[1..]);
      assert forall k :: 1 <= k < |lens| ==> lens[k] == lens[1..][k - 1];
    }
  }

  /** With every extent after the first non-empty, the box is empty only
      when the first extent is. */
  lemma {:induction false} SizeZero(lens: seq<nat>)
    requires |lens| > 0 && forall k :: 1 <= k < |lens| ==> lens[k] > 0
    ensures Size(lens) == 0 <==> lens[0] == 0
  {
    var t := lens[1..];
    assert forall k :: 0 <= k < |t| ==> t[k] > 0;
    AllPositive(t);
  }

  lemma {:induction false} AllPositive(lens: seq<nat>)
    requires forall k :: 0 <= k < |lens| ==> lens[k] > 0
    ensures Size(lens) > 0
  {
    if |lens| > 0 {
      AllPositive(lens[1..]);
    }
  }

  /** `cartesian_foreach(rs, f)`, returning the tuples passed to `f` in call
      order. The code reads `its.front()`, so `rs` must not be empty. An empty
      first range ends the loop before any later range is read, whatever
      those ranges are. Otherwise every later range must be non-empty: an
      empty or inverted one would be dereferenced at or past its end and,
      since a counting iterator then never compares equal to its end again,
      the loop would not stop. */
  method CartesianForeach(rs: seq<Range>) returns (calls: seq<seq<int>>)
    requires |rs| >= 1 && Valid(rs[0])
    requires Length(rs[0]) > 0 ==> forall k :: 1 <= k < |rs| ==> rs[k].begin < rs[k].end
    ensures Length(rs[0]) == 0 ==> calls == []
    ensures (forall k :: 0 <= k < |rs| ==> Valid(rs[k])) ==> |calls| == Size(Lengths(rs))
    ensures (forall k :: 0 <= k < |rs| ==> Valid(rs[k])) ==>
              forall n :: 0 <= n < |calls| ==>
                |Tuples(Lengths(rs))[n]| == |rs| && calls[n] == Point(rs, Tuples(Lengths(rs))[n])
    ensures forall n :: 0 <= n < |calls| ==> InProduct(rs, calls[n])
    ensures forall t :: InProduct(rs, t) ==> t in calls
    ensures forall n, m :: 0 <= n < m < |calls| ==> LexLess(calls[n], calls[m])
  {
    if rs[0].begin == rs[0].end {
      // The loop test `its.front() != ends.front()` fails on entry.
      if forall k :: 0 <= k < |rs| ==> Valid(rs[k]) {
        assert Size(Lengths(rs)) == Lengths(rs)[0] * Size(Lengths(rs)[1..]);
      }
      return [];
    }
    assert forall k :: 0 <= k < |rs| ==> Valid(rs[k]);
    var lens := Lengths(rs);
    var its: seq<nat> := seq(|rs|, k => 0);
    calls := [];
    OdometerStart(lens, its);
    assert Size(lens) > 0;
    while its[0] != lens[0]
      invariant |its| == |rs| && |calls| <= Size(lens)
      invariant WheelsBelow(lens, its, |its|) && Encode(lens, its) == |calls|
      invariant forall n :: 0 <= n < |calls| ==>
                  |Tuples(lens)[n]| == |rs| && calls[n] == Point(rs, Tuples(lens)[n])
      decreases Size(lens) - |calls|
    {
      OdometerStep(lens, its, |calls|);
      calls := calls + [Point(rs, its)];
      its := Carry(lens, its, |its|);
    }
    LeadingWheel(lens, its);
    forall n | 0 <= n < |calls|
      ensures InProduct(rs, calls[n])
    {
      TuplesAt(lens, n);
      PointInProduct(rs, Tuples(lens)[n]);
    }
    forall t | InProduct(rs, t)
      ensures t in calls
    {
      ProductCovered(rs, t);
    }
    forall n, m | 0 <= n < m < |calls|
      ensures LexLess(calls[n], calls[m])
    {
      CallsSorted(rs, n, m);
    }
  }

  /** All iterators at their begin: position 0, and the loop is skipped
      exactly when the box is empty. */
  lemma OdometerStart(lens: seq<nat>, its: seq<nat>)
    requires |its| == |lens| > 0 && forall k :: 0 <= k < |its| ==> its[k] == 0
    requires lens[0] == 0 || forall k :: 1 <= k < |lens| ==> lens[k] > 0
    ensures Size(lens) == 0 ==> lens[0] == 0
    ensures Size(lens) > 0 ==> WheelsBelow(lens, its, |its|) && Encode(lens, its) == 0
  {
    if Size(lens) > 0 {
      SizePositive(lens);
    } else if lens[0] != 0 {
      SizeZero(lens);
    }
    EncodeZeros(lens, its);
  }

  /** One turn of the outer loop: while wheel 0 has not reached its end the
      iterators point at the tuple of rank `c`, and the carry pass moves them
      to rank `c + 1`. */
  lemma OdometerStep(lens: seq<nat>, its: seq<nat>, c: nat)
    requires |its| == |lens| > 0 && Size(lens) > 0
    requires WheelsBelow(lens, its, |its|) && Encode(lens, its) == c <= Size(lens)
    requires its[0] != lens[0]
    ensures c < Size(lens)
    ensures Tuples(lens)[c] == its
    ensures WheelsBelow(lens, Carry(lens, its, |its|), |its|)
    ensures Encode(lens, Carry(lens, its, |its|)) == c + 1
  {
    assert Size(lens) == lens[0] * Size(lens[1..]);
    LeadingWheel(lens, its);
    assert InBounds(lens, its);
    TuplesComplete(lens, its);
    CarryCounts(lens, its, |its|);
    var r := Carry(lens, its, |its|);
    assert lens[..|its|] == lens && its[..|its|] == its && r[..|its|] == r;
  }

  /** Every tuple passed to `f` is a tuple of the product. */
  lemma PointInProduct(rs: seq<Range>, d: seq<nat>)
    requires forall k :: 0 <= k < |rs| ==> Valid(rs[k])
    requires InBounds(Lengths(rs), d)
    ensures InProduct(rs, Point(rs, d))
  {
  }

  /** Every tuple of the product is passed to `f`, at the position given by
      its row-major rank. */
  lemma ProductCovered(rs: seq<Range>, t: seq<int>)
    requires forall k :: 0 <= k < |rs| ==> Valid(rs[k])
    requires InProduct(rs, t)
    ensures var lens := Lengths(rs);
            var d := seq(|rs|, k requires 0 <= k < |rs| => (t[k] - rs[k].begin) as nat);
            && InBounds(lens, d)
            && Encode(lens, d) < Size(lens)
            && Tuples(lens)[Encode(lens, d)] == d
            && Point(rs, d) == t
  {
    var lens := Lengths(rs);
    var d := seq(|rs|, k requires 0 <= k < |rs| => (t[k] - rs[k].begin) as nat);
    assert InBounds(lens, d);
    TuplesComplete(lens, d);
  }

  /** The calls are in strictly increasing lexicographic order, so no tuple
      is passed twice. */
  lemma CallsSorted(rs: seq<Range>, n: nat, m: nat)
    requires forall k :: 0 <= k < |rs| ==> Valid(rs[k])
    requires n < m < Size(Lengths(rs))
    ensures |Tuples(Lengths(rs))[n]| == |Tuples(Lengths(rs))[m]| == |rs|
    ensures LexLess(Point(rs, Tuples(Lengths(rs))[n]), Point(rs, Tuples(Lengths(rs))[m]))
  {
    var lens := Lengths(rs);
    TuplesAt(lens, n);
    TuplesAt(lens, m);
    TuplesSorted(lens, n, m);
    PointLexLess(rs, Tuples(lens)[n], Tuples(lens)[m]);
  }

  /** Shifting every coordinate by its range's begin keeps lexicographic
      order. */
  lemma PointLexLess(rs: seq<Range>, d: seq<nat>, e: seq<nat>)
    requires |d| == |e| == |rs| && LexLess(d, e)
    ensures LexLess(Point(rs, d), Point(rs, e))
  {
    var j :| 0 <= j < |d| && d[..j] == e[..j] && d[j] < e[j];
    assert forall k :: 0 <= k < j ==> d[k] == d[..j][k] == e[..j][k] == e[k];
    assert Point(rs, d)[..j] == Point(rs, e)[..j];
  }
}
