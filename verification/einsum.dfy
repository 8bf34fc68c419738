/** The symbolic planning done by `einsum`: which labels are Hadamard
    (fused), free or contracted, when the plain expression path is taken,
    and the shuffles that bring each operand and the result into
    Hadamard-first order. */
module Einsum {
  import opened Outcomes
  import opened Seqs
  import opened IndexAlgebra
  import opened Shuffles

  /** Annotations are tokenized into string labels. */
  type Label = string

  /** The two-argument `einsum` assigns the product to `a ^ b`: labels in
      exactly one operand survive, every shared label is contracted. */
  function ImplicitResult(a: Index<Label>, b: Index<Label>): (c: Index<Label>)
    ensures forall x :: x in c <==> (x in a) != (x in b)
    ensures c == Difference(a, b) + Difference(b, a)
  {
    SymmetricDifferenceSplit(a, b);
    SymmetricDifference(a, b)
  }

  /** When the operands have the same labels no label is free, and the
      two-argument `einsum` assigns the product to the empty index: every
      label is contracted, down to a scalar. */
  lemma ImplicitResultSameLabels(a: Index<Label>, b: Index<Label>)
    ensures SameElements(a, b) <==> ImplicitResult(a, b) == []
  {
    SymmetricDifferenceEmpty(a, b);
  }

  /** `h = a & b & c`: the Hadamard labels, present in all three indices,
      in `a`'s order. */
  function Hadamard(a: Index<Label>, b: Index<Label>, c: Index<Label>): (h: Index<Label>)
    ensures forall x :: x in h <==> x in a && x in b && x in c
  {
    Intersect(Intersect(a, b), c)
  }

  /** `h` is a subsequence of `a`. */
  lemma HadamardInOrder(a: Index<Label>, b: Index<Label>, c: Index<Label>)
    ensures IsSubsequence(Hadamard(a, b, c), a)
  {
    var ab := Intersect(a, b);
    SelectStable(a, b, true);
    SelectStable(ab, c, true);
    var p1, p2 := SelectPositions(ab, c, true), SelectPositions(a, b, true);
    EmbeddingCompose(p1, Hadamard(a, b, c), ab, p2, a);
  }

  /** `e = a ^ b`: the free labels. */
  function Free(a: Index<Label>, b: Index<Label>): Index<Label> {
    SymmetricDifference(a, b)
  }

  /** `i = (a & b) - h`: the contracted labels. */
  function Contracted(a: Index<Label>, b: Index<Label>, h: Index<Label>): Index<Label> {
    Difference(Intersect(a, b), h)
  }

  /** The order an operand is shuffled into: `h + (x & e) + i`. */
  function TermOrder(x: Index<Label>, h: Index<Label>, e: Index<Label>, i: Index<Label>): Index<Label> {
    Concat(Concat(h, Intersect(x, e)), i)
  }

  /** What `einsum(A, B, c)` decides before touching any tile. */
  datatype Plan =
    | Direct(result: Index<Label>)
    | Tiled(hadamard: Index<Label>, free: Index<Label>, contracted: Index<Label>,
            shuffleA: IndexShuffle, shuffleB: IndexShuffle, shuffleC: IndexShuffle)

  /** No label is common to all three indices exactly when `h` is empty. */
  lemma HadamardEmpty(a: Index<Label>, b: Index<Label>, c: Index<Label>)
    ensures !Truthy(Hadamard(a, b, c)) <==> forall x :: !(x in a && x in b && x in c)
  {
    var h := Hadamard(a, b, c);
    if Truthy(h) {
      assert h[0] in h;
    }
  }

  /** The three-argument `einsum` up to the tile loop. With no Hadamard
      label, or with `a == b == c`, the product is assigned directly to
      `C(c)`; otherwise the tiled path is planned. */
  function Classify(a: Index<Label>, b: Index<Label>, c: Index<Label>): (r: Result<Plan>)
    ensures (r.Success? && r.value.Direct?) <==>
              (forall x :: !(x in a && x in b && x in c)) || (a == b && b == c)
    ensures r.Success? && r.value.Direct? ==> r.value.result == c
    ensures r.Failure? ==> r.error == LabelMismatch
  {
    HadamardEmpty(a, b, c);
    var h := Hadamard(a, b, c);
    if !Truthy(h) || (a == b && b == c) then Success(Direct(c))
    else PlanTiled(a, b, c, h)
  }

  /** The tiled path: classify the labels and build the operand and result
      shuffles, each constructor asserting that its two indices have the
      same labels. */
  function PlanTiled(a: Index<Label>, b: Index<Label>, c: Index<Label>, h: Index<Label>): (r: Result<Plan>)
    ensures r.Success? ==> r.value.Tiled?
    ensures r.Failure? ==> r.error == LabelMismatch
  {
    var e := Free(a, b);
    var i := Contracted(a, b, h);
    var sa := Derive(a, TermOrder(a, h, e, i));
    var sb := Derive(b, TermOrder(b, h, e, i));
    var sc := Derive(Concat(h, e), c);
    if sa.Failure? || sb.Failure? || sc.Failure? then Failure(LabelMismatch)
    else Success(Tiled(h, e, i, sa.value, sb.value, sc.value))
  }

  /** On the tiled path the plan records `h`, `e` and `i` as computed from
      the three indices. */
  lemma TiledRoles(a: Index<Label>, b: Index<Label>, c: Index<Label>)
    requires Classify(a, b, c).Success? && Classify(a, b, c).value.Tiled?
    ensures var p := Classify(a, b, c).value;
            && (forall x :: x in p.hadamard <==> x in a && x in b && x in c)
            && (forall x :: x in p.free <==> (x in a) != (x in b))
            && (forall x :: x in p.contracted <==> x in a && x in b && x !in c)
  {
    var h := Hadamard(a, b, c);
    assert Classify(a, b, c) == PlanTiled(a, b, c, h);
  }

  /** `h` and `i` split the common labels `a & b`: none is in both, each is
      in one of them. */
  lemma HadamardContractedPartition(a: Index<Label>, b: Index<Label>, c: Index<Label>)
    ensures forall x :: !(x in Hadamard(a, b, c) && x in Contracted(a, b, Hadamard(a, b, c)))
    ensures forall x :: x in Intersect(a, b) <==>
              x in Hadamard(a, b, c) || x in Contracted(a, b, Hadamard(a, b, c))
  {
  }

  /** For duplicate-free operands, `h + (x & e) + i` is a rearrangement of
      the operand `x`, so the operand's `IndexShuffle` assert holds. */
  lemma TermOrderRearranges(a: Index<Label>, b: Index<Label>, c: Index<Label>, x: Index<Label>)
    requires NoDup(a) && NoDup(b) && (x == a || x == b)
    ensures var h := Hadamard(a, b, c);
            var t := TermOrder(x, h, Free(a, b), Contracted(a, b, h));
            NoDup(t) && SameElements(x, t)
  {
    var ab := Intersect(a, b);
    var h := Hadamard(a, b, c);
    var e := Free(a, b);
    var i := Contracted(a, b, h);
    SelectNoDup(a, b, true);
    SelectNoDup(ab, c, true);
    SelectNoDup(x, e, true);
    SelectNoDup(ab, h, false);
    AppendNoDup(h, Intersect(x, e));
    AppendNoDup(Concat(h, Intersect(x, e)), i);
  }

  /** With duplicate-free operands both operand shuffles can be built. */
  lemma TermShufflesDerive(a: Index<Label>, b: Index<Label>, c: Index<Label>)
    requires NoDup(a) && NoDup(b)
    ensures var h := Hadamard(a, b, c);
            var e, i := Free(a, b), Contracted(a, b, h);
            Derive(a, TermOrder(a, h, e, i)).Success? && Derive(b, TermOrder(b, h, e, i)).Success?
  {
    var h := Hadamard(a, b, c);
    var e, i := Free(a, b), Contracted(a, b, h);
    var ta, tb := TermOrder(a, h, e, i), TermOrder(b, h, e, i);
    TermOrderRearranges(a, b, c, a);
    TermOrderRearranges(a, b, c, b);
    assert SameElements(a, ta) && SameElements(b, tb);
    var ra, rb := Derive(a, ta), Derive(b, tb);
    assert ra.Success? && rb.Success?;
  }

  /** With duplicate-free operands each operand shuffle is a permutation of
      the operand's positions that puts it into `h + (x & e) + i` order. */
  lemma TermShufflesPermute(a: Index<Label>, b: Index<Label>, c: Index<Label>)
    requires NoDup(a) && NoDup(b)
    requires Classify(a, b, c).Success? && Classify(a, b, c).value.Tiled?
    ensures var p := Classify(a, b, c).value;
            && IsPermutation(p.shuffleA.mapping, |a|)
            && IsPermutation(p.shuffleB.mapping, |b|)
            && Apply(p.shuffleA, a) == TermOrder(a, p.hadamard, p.free, p.contracted)
            && Apply(p.shuffleB, b) == TermOrder(b, p.hadamard, p.free, p.contracted)
  {
    var h := Hadamard(a, b, c);
    var e, i := Free(a, b), Contracted(a, b, h);
    var ta, tb := TermOrder(a, h, e, i), TermOrder(b, h, e, i);
    assert Classify(a, b, c) == PlanTiled(a, b, c, h);
    var p := Classify(a, b, c).value;
    assert p.shuffleA == Derive(a, ta).value && p.shuffleB == Derive(b, tb).value;
    assert p.hadamard == h && p.free == e && p.contracted == i;
    TermOrderRearranges(a, b, c, a);
    TermOrderRearranges(a, b, c, b);
    DerivePermutation(a, ta);
    DerivePermutation(b, tb);
  }

  /** With duplicate-free operands and result, the result shuffle of a
      tiled plan is a permutation of the positions of `h + e` that puts
      them into the order of `c`. */
  lemma ResultShufflePermutes(a: Index<Label>, b: Index<Label>, c: Index<Label>)
    requires NoDup(a) && NoDup(b) && NoDup(c)
    requires Classify(a, b, c).Success? && Classify(a, b, c).value.Tiled?
    ensures var p := Classify(a, b, c).value;
            && IsPermutation(p.shuffleC.mapping, |Concat(p.hadamard, p.free)|)
            && Apply(p.shuffleC, Concat(p.hadamard, p.free)) == c
  {
    var h := Hadamard(a, b, c);
    var e := Free(a, b);
    assert Classify(a, b, c) == PlanTiled(a, b, c, h);
    NoDupPreserved(a, b);
    SelectNoDup(Intersect(a, b), c, true);
    AppendNoDup(h, e);
    DerivePermutation(Concat(h, e), c);
  }

  /** The tiled plan fails exactly when one of its three shuffles cannot be
      derived. */
  lemma PlanTiledFails(a: Index<Label>, b: Index<Label>, c: Index<Label>, h: Index<Label>)
    ensures PlanTiled(a, b, c, h).Failure? <==>
      (Derive(a, TermOrder(a, h, Free(a, b), Contracted(a, b, h))).Failure? ||
       Derive(b, TermOrder(b, h, Free(a, b), Contracted(a, b, h))).Failure? ||
       Derive(Concat(h, Free(a, b)), c).Failure?)
  {
  }

  /** Past the direct-path test, `einsum` plans the tiled path. */
  lemma ClassifyTiled(a: Index<Label>, b: Index<Label>, c: Index<Label>)
    requires Truthy(Hadamard(a, b, c)) && !(a == b && b == c)
    ensures Classify(a, b, c) == PlanTiled(a, b, c, Hadamard(a, b, c))
  {
  }

  /** When all three shuffles can be derived, the tiled plan records them
      together with the label roles. */
  lemma PlanTiledSucceeds(a: Index<Label>, b: Index<Label>, c: Index<Label>, h: Index<Label>)
    requires Derive(a, TermOrder(a, h, Free(a, b), Contracted(a, b, h))).Success?
    requires Derive(b, TermOrder(b, h, Free(a, b), Contracted(a, b, h))).Success?
    requires Derive(Concat(h, Free(a, b)), c).Success?
    ensures PlanTiled(a, b, c, h) ==
              Success(Tiled(h, Free(a, b), Contracted(a, b, h),
                            Derive(a, TermOrder(a, h, Free(a, b), Contracted(a, b, h))).value,
                            Derive(b, TermOrder(b, h, Free(a, b), Contracted(a, b, h))).value,
                            Derive(Concat(h, Free(a, b)), c).value))
  {
  }

  /** With duplicate-free operands the plan fails exactly when the tiled
      path is taken and `c` does not have the labels of `h + e`. */
  lemma ClassifyFailsIff(a: Index<Label>, b: Index<Label>, c: Index<Label>)
    requires NoDup(a) && NoDup(b)
    ensures Classify(a, b, c).Failure? <==>
              && !((forall x :: !(x in a && x in b && x in c)) || (a == b && b == c))
              && !SameElements(Concat(Hadamard(a, b, c), Free(a, b)), c)
  {
    var h := Hadamard(a, b, c);
    var e, i := Free(a, b), Contracted(a, b, h);
    HadamardEmpty(a, b, c);
    if Truthy(h) && !(a == b && b == c) {
      assert !((forall x :: !(x in a && x in b && x in c)) || (a == b && b == c));
      TermShufflesDerive(a, b, c);
      var sa, sb := Derive(a, TermOrder(a, h, e, i)), Derive(b, TermOrder(b, h, e, i));
      var sc := Derive(Concat(h, e), c);
      assert sa.Success? && sb.Success?;
      PlanTiledFails(a, b, c, h);
      assert Classify(a, b, c) == PlanTiled(a, b, c, h);
    } else {
      assert Classify(a, b, c) == Success(Direct(c));
    }
  }
}

/** The four calls of the library's einsum unit test, evaluated on the model
    for any three distinct labels `i`, `j`, `k`. */
module EinsumExamples {
  import opened Outcomes
  import opened Seqs
  import opened IndexAlgebra
  import opened Shuffles
  import opened Einsum

  /** `&` and `-` on a one-label index. */
  lemma FilterOne(x: Label, b: Index<Label>)
    ensures Intersect([x], b) == if x in b then [x] else []
    ensures Difference([x], b) == if x in b then [] else [x]
  {
    assert [x][..0] == [];
  }

  /** `&` and `-` on a two-label index. */
  lemma FilterTwo(x: Label, y: Label, b: Index<Label>)
    ensures Intersect([x, y], b) == (if x in b then [x] else []) + (if y in b then [y] else [])
    ensures Difference([x, y], b) == (if x in b then [] else [x]) + (if y in b then [] else [y])
  {
    assert [x, y][..1] == [x];
    FilterOne(x, b);
  }

  /** `[x, y] - b` when exactly one of `x`, `y` is in `b`. */
  lemma DifferenceTwo(x: Label, y: Label, b: Index<Label>)
    requires (x in b) != (y in b)
    ensures Difference([x, y], b) == if x in b then [y] else [x]
  {
    FilterTwo(x, y, b);
  }

  /** `einsum(a("i,k"), b("k,j"))` contracts `k` and produces `i,j`. */
  lemma MatrixProduct(i: Label, j: Label, k: Label)
    requires i != j && j != k && i != k
    ensures ImplicitResult([i, k], [k, j]) == [i, j]
  {
    DifferenceTwo(i, k, [k, j]);
    DifferenceTwo(k, j, [i, k]);
    var c := ImplicitResult([i, k], [k, j]);
    assert c == [i] + [j];
  }

  /** `einsum(a("i,j"), b("i,j"), "i,j")` takes the direct path. */
  lemma ElementwiseProduct(i: Label, j: Label)
    requires i != j
    ensures Classify([i, j], [i, j], [i, j]) == Success(Direct([i, j]))
  {
  }

  /** The label roles of `einsum(a("i,k"), b("i,k"), "i")`. */
  lemma RowwiseDotLabels(i: Label, k: Label)
    requires i != k
    ensures Hadamard([i, k], [i, k], [i]) == [i]
    ensures Free([i, k], [i, k]) == []
    ensures Contracted([i, k], [i, k], [i]) == [k]
    ensures TermOrder([i, k], [i], Free([i, k], [i, k]), Contracted([i, k], [i, k], [i])) == [i, k]
    ensures Concat([i], Free([i, k], [i, k])) == [i]
  {
    var a := [i, k];
    SelfLaws(a);
    FilterTwo(i, k, [i]);
    FilterTwo(i, k, []);
    assert Intersect(a, []) == [];
  }

  /** The shuffle from a one-label index to itself. */
  lemma DeriveIdentityOne(s: Index<Label>)
    requires |s| == 1
    ensures Derive(s, s) == Success(IndexShuffle([0]))
  {
    DeriveIdentity(s);
    var r := Iota(1);
    assert r[0] == 0;
    assert r == [0];
  }

  /** The shuffle from a two-label index to itself. */
  lemma DeriveIdentityTwo(s: Index<Label>)
    requires NoDup(s) && |s| == 2
    ensures Derive(s, s) == Success(IndexShuffle([0, 1]))
  {
    DeriveIdentity(s);
    var r := Iota(2);
    assert r[0] == 0 && r[1] == 1;
    assert r == [0, 1];
  }

  /** `einsum(a("i,k"), b("i,k"), "i")` is tiled over `i` and contracts `k`. */
  lemma RowwiseDot(i: Label, k: Label)
    requires i != k
    ensures Classify([i, k], [i, k], [i]) ==
              Success(Tiled([i], [], [k], IndexShuffle([0, 1]), IndexShuffle([0, 1]), IndexShuffle([0])))
  {
    var a, c := [i, k], [i];
    DeriveIdentityTwo(a);
    DeriveIdentityOne(c);
    RowwiseDotLabels(i, k);
    assert |a| != |c|;
    ClassifyTiled(a, a, c);
    PlanTiledSucceeds(a, a, c, c);
  }

  /** The label roles of `einsum(a("i,k"), b("j,k"), "i,j,k")`. */
  lemma BatchedOuterProductLabels(i: Label, j: Label, k: Label)
    requires i != j && j != k && i != k
    ensures Hadamard([i, k], [j, k], [i, j, k]) == [k]
    ensures Free([i, k], [j, k]) == [i, j]
    ensures Contracted([i, k], [j, k], [k]) == []
  {
    assert Intersect([i, k], [j, k]) == [k] by {
      FilterTwo(i, k, [j, k]);
      assert i !in [j, k] && k in [j, k];
    }
    assert Hadamard([i, k], [j, k], [i, j, k]) == [k] by {
      FilterOne(k, [i, j, k]);
      assert k in [i, j, k];
    }
    assert Free([i, k], [j, k]) == [i, j] by {
      DifferenceTwo(i, k, [j, k]);
      DifferenceTwo(j, k, [i, k]);
      SymmetricDifferenceSplit([i, k], [j, k]);
    }
    assert Contracted([i, k], [j, k], [k]) == [] by {
      FilterOne(k, [k]);
    }
  }

  /** The operand orders `h + (x & e) + i` of the same call. */
  lemma BatchedOuterProductTerms(i: Label, j: Label, k: Label)
    requires i != j && j != k && i != k
    ensures TermOrder([i, k], [k], [i, j], []) == [k, i]
    ensures TermOrder([j, k], [k], [i, j], []) == [k, j]
  {
    FilterTwo(i, k, [i, j]);
    FilterTwo(j, k, [i, j]);
    assert Intersect([i, k], [i, j]) == [i];
    assert Intersect([j, k], [i, j]) == [j];
  }

  /** Swapping two distinct labels is the mapping `[1, 0]`. */
  lemma DeriveSwap(s: Index<Label>, p: Index<Label>)
    requires |s| == 2 && s[0] != s[1] && p == [s[1], s[0]]
    ensures Derive(s, p) == Success(IndexShuffle([1, 0]))
  {
    assert s == [s[0], s[1]];
    assert SameElements(s, p);
    var r := Derive(s, p);
    var m := r.value.mapping;
    assert s[m[0]] == p[0] && s[m[1]] == p[1];
    assert m == [1, 0];
  }

  /** Rotating three distinct labels left is the mapping `[1, 2, 0]`. */
  lemma DeriveRotate(s: Index<Label>, p: Index<Label>)
    requires |s| == 3 && s[0] != s[1] && s[1] != s[2] && s[0] != s[2]
    requires p == [s[1], s[2], s[0]]
    ensures Derive(s, p) == Success(IndexShuffle([1, 2, 0]))
  {
    assert s == [s[0], s[1], s[2]];
    assert SameElements(s, p);
    var r := Derive(s, p);
    var m := r.value.mapping;
    assert s[m[0]] == p[0] && s[m[1]] == p[1] && s[m[2]] == p[2];
    assert m == [1, 2, 0];
  }

  /** The shuffle of `a` in the same call, as the tiled plan derives it. */
  lemma BatchedOuterProductShuffleA(i: Label, j: Label, k: Label)
    requires i != j && j != k && i != k
    ensures Derive([i, k], TermOrder([i, k], [k], Free([i, k], [j, k]), Contracted([i, k], [j, k], [k]))) ==
              Success(IndexShuffle([1, 0]))
  {
    BatchedOuterProductLabels(i, j, k);
    BatchedOuterProductTerms(i, j, k);
    DeriveSwap([i, k], [k, i]);
  }

  /** The shuffle of `b` in the same call. */
  lemma BatchedOuterProductShuffleB(i: Label, j: Label, k: Label)
    requires i != j && j != k && i != k
    ensures Derive([j, k], TermOrder([j, k], [k], Free([i, k], [j, k]), Contracted([i, k], [j, k], [k]))) ==
              Success(IndexShuffle([1, 0]))
  {
    BatchedOuterProductLabels(i, j, k);
    BatchedOuterProductTerms(i, j, k);
    DeriveSwap([j, k], [k, j]);
  }

  /** The result shuffle of the same call, from `h + e = k,i,j` to `i,j,k`. */
  lemma BatchedOuterProductShuffleC(i: Label, j: Label, k: Label)
    requires i != j && j != k && i != k
    ensures Derive(Concat([k], Free([i, k], [j, k])), [i, j, k]) == Success(IndexShuffle([1, 2, 0]))
  {
    BatchedOuterProductLabels(i, j, k);
    var s := Concat([k], Free([i, k], [j, k]));
    assert s == [k, i, j];
    DeriveRotate(s, [i, j, k]);
  }

  /** `einsum(a("i,k"), b("j,k"), "i,j,k")` is tiled over `k`, keeps `i` and
      `j`, contracts nothing, and reads the result from `k,i,j` as `[1, 2, 0]`. */
  lemma BatchedOuterProduct(i: Label, j: Label, k: Label)
    requires i != j && j != k && i != k
    ensures Classify([i, k], [j, k], [i, j, k]) ==
              Success(Tiled([k], [i, j], [], IndexShuffle([1, 0]), IndexShuffle([1, 0]), IndexShuffle([1, 2, 0])))
  {
    var a, b, c := [i, k], [j, k], [i, j, k];
    BatchedOuterProductLabels(i, j, k);
    BatchedOuterProductShuffleA(i, j, k);
    BatchedOuterProductShuffleB(i, j, k);
    BatchedOuterProductShuffleC(i, j, k);
    assert a != b;
    ClassifyTiled(a, b, c);
    PlanTiledSucceeds(a, b, c, [k]);
  }
}
