/** `IndexShuffle`, the permutation taking one index to another, and the free
    `shuffle` helper that applies a raw position map. */
module Shuffles {
  import opened Outcomes
  import opened Seqs
  import opened IndexAlgebra

  /** For each target position, the source position it reads from. */
  datatype IndexShuffle = IndexShuffle(mapping: seq<nat>)

  /** The constructor's nested loops: for each label of `p` in turn, the
      first position of that label in `s`; a label `s` lacks adds nothing. */
  function Mapping<T(==)>(s: Index<T>, p: Index<T>): (m: seq<nat>)
    ensures |m| <= |p|
    ensures forall k :: 0 <= k < |m| ==> m[k] < |s|
    ensures (forall i :: 0 <= i < |p| ==> p[i] in s) ==>
              |m| == |p| && forall i :: 0 <= i < |p| ==> FirstPos(s, p[i]) == Some(m[i])
    decreases |p|
  {
    if |p| == 0 then []
    else
      var init := p[..|p| - 1];
      assert forall i :: 0 <= i < |init| ==> init[i] == p[i];
      Mapping(s, init) + (match FirstPos(s, p[|p| - 1]) case Some(j) => [j] case None => [])
  }

  /** `IndexShuffle(s, p)`. The constructor asserts that `s ^ p` is empty;
      a violated assert is fatal, which is the `Failure` here. */
  function Derive<T(==,!new)>(s: Index<T>, p: Index<T>): (r: Result<IndexShuffle>)
    ensures r.Success? <==> SameElements(s, p)
    ensures r.Success? ==> |r.value.mapping| == |p|
    ensures r.Success? ==> forall k :: 0 <= k < |p| ==> r.value.mapping[k] < |s|
    ensures r.Success? ==> forall i :: 0 <= i < |p| ==> s[r.value.mapping[i]] == p[i]
  {
    SymmetricDifferenceEmpty(s, p);
    if Truthy(SymmetricDifference(s, p)) then Failure(LabelMismatch)
    else
      assert forall i :: 0 <= i < |p| ==> p[i] in p;
      Success(IndexShuffle(Mapping(s, p)))
  }

  /** The copy-then-overwrite loop shared by `operator()` and `shuffle`,
      after its first `n` iterations. */
  function ApplyUpTo<T>(m: seq<int>, s: seq<T>, n: nat): (t: seq<T>)
    requires n <= |m| && n <= |s|
    requires forall k :: 0 <= k < n ==> 0 <= m[k] < |s|
    ensures |t| == |s|
    ensures forall i :: 0 <= i < n ==> t[i] == s[m[i]]
    ensures forall i :: n <= i < |s| ==> t[i] == s[i]
  {
    if n == 0 then s else ApplyUpTo(m, s, n - 1)[n - 1 := s[m[n - 1]]]
  }

  /** `IndexShuffle::operator()`: position `i` of the result reads
      `s[mapping[i]]`; positions past the mapping keep their value. */
  function Apply<T>(sh: IndexShuffle, s: seq<T>): (t: seq<T>)
    requires |sh.mapping| <= |s|
    requires forall k :: 0 <= k < |sh.mapping| ==> sh.mapping[k] < |s|
    ensures |t| == |s|
    ensures forall i :: 0 <= i < |sh.mapping| ==> t[i] == s[sh.mapping[i]]
    ensures forall i :: |sh.mapping| <= i < |s| ==> t[i] == s[i]
  {
    ApplyUpTo(sh.mapping, s, |sh.mapping|)
  }

  /** The free `shuffle(map, s)`, with `map` named `order`: position `i`
      reads `s[order[i]]` for every position of `s`. */
  function Shuffle<T>(order: seq<int>, s: seq<T>): (t: seq<T>)
    requires |s| <= |order|
    requires forall i :: 0 <= i < |s| ==> 0 <= order[i] < |s|
    ensures |t| == |s|
    ensures forall i :: 0 <= i < |s| ==> t[i] == s[order[i]]
  {
    ApplyUpTo(order, s, |s|)
  }

  /** Searching a duplicate-free index for each of its own labels finds
      each label where it stands. */
  lemma MappingIdentity<T>(s: Index<T>)
    requires NoDup(s)
    ensures Mapping(s, s) == Iota(|s|)
  {
    var m := Mapping(s, s);
    assert forall i :: 0 <= i < |s| ==> s[i] in s;
    forall i | 0 <= i < |s|
      ensures m[i] == i
    {
      FirstPosNoDup(s, i);
    }
  }

  /** The shuffle from an index to itself is the identity mapping. */
  lemma DeriveIdentity<T(!new)>(s: Index<T>)
    requires NoDup(s)
    ensures Derive(s, s) == Success(IndexShuffle(Iota(|s|)))
  {
    SymmetricDifferenceEmpty(s, s);
    assert SameElements(s, s);
    MappingIdentity(s);
  }

  /** Between two duplicate-free indices with the same labels the mapping is
      a permutation of the source positions, and applying it to the source
      yields the target. */
  lemma DerivePermutation<T(!new)>(s: Index<T>, p: Index<T>)
    requires NoDup(s) && NoDup(p) && Derive(s, p).Success?
    ensures IsPermutation(Derive(s, p).value.mapping, |s|)
    ensures Apply(Derive(s, p).value, s) == p
  {
    SameElementsSameLength(s, p);
    var m := Derive(s, p).value.mapping;
    forall i, j | 0 <= i < j < |m|
      ensures m[i] != m[j]
    {
      assert s[m[i]] == p[i] && s[m[j]] == p[j];
      assert p[i] != p[j];
    }
  }

  /** For a mapping as long as the sequence, `shuffle` and `operator()`
      agree. */
  lemma ShuffleAgreesWithApply<T>(sh: IndexShuffle, s: seq<T>)
    requires |sh.mapping| == |s|
    requires forall k :: 0 <= k < |sh.mapping| ==> sh.mapping[k] < |s|
    ensures Shuffle(sh.mapping, s) == Apply(sh, s)
  {
  }

  /** The identity map leaves a sequence unchanged. */
  lemma ShuffleIdentity<T>(s: seq<T>)
    ensures Shuffle(Iota(|s|), s) == s
  {
  }
}
