/**
 * The Bloom-filter based multi-client cardinality scheme `CardinalityEfficient`
 * (nipsi/multiclient.py). Group elements are exponents in `Z_q`, as in `MultiClient`:
 * `x ** e` is `x * e mod q` and a product of group elements is a sum modulo `q`.
 */
module Efficient {
  import opened Wrappers
  import opened ByteStrings
  import opened Modular

  // The Shamir polynomial of `setup`

  /** `sum([c * x**i for i, c in enumerate(cs)])` before reduction into `Z_q`. */
  function PolySum(cs: seq<int>, x: int): int
  {
    if cs == [] then 0 else PolySum(cs[..|cs| - 1], x) + cs[|cs| - 1] * Pow(x, |cs| - 1)
  }

  /** The polynomial `f` with coefficients `cs`, evaluated in `Z_q`. */
  function Poly(q: nat, cs: seq<int>, x: int): (r: nat)
    requires q > 0
    ensures r < q
  {
    PolySum(cs, x) % q
  }

  /** At 0 every term but the constant one vanishes. */
  lemma {:induction false} PolySumAtZero(cs: seq<int>)
    requires |cs| > 0
    ensures PolySum(cs, 0) == cs[0]
    decreases |cs|
  {
    if |cs| > 1 {
      PolySumAtZero(cs[..|cs| - 1]);
      assert Pow(0, |cs| - 1) == 0;
    } else {
      assert cs[..0] == [];
    }
  }

  /** The shared secret of the key shares, `f(0)`, is 0: the constant coefficient is 0. */
  lemma PolyZeroSecret(q: nat, rs: seq<int>)
    requires q > 0
    ensures Poly(q, [0] + rs, 0) == 0
  {
    PolySumAtZero([0] + rs);
  }

  /** A client's key: the key of the element PRF and the shares `f(i)` and `f(n + i)`. */
  datatype UserKey = UserKey(phiKey: Bytes, fi: int, fni: int)

  // The Lagrange helper `delta`

  /**
   * `delta(S, i)`: the product over `j` in `S` other than `i` of `j * (j - i)^-1` in
   * `Z_q`, taken in the order of `S`. Elements of `Z_q` compare modulo `q`.
   */
  function LagrangeCoeff(q: nat, S: seq<int>, i: int): (r: int)
    requires q > 1
    ensures 0 <= r < q || (r == 1 && S == [])
  {
    if S == [] then 1
    else
      var j := S[|S| - 1];
      if i % q == j % q then LagrangeCoeff(q, S[..|S| - 1], i)
      else (LagrangeCoeff(q, S[..|S| - 1], i) * ((j * Inverse(j - i, q)) % q)) % q
  }

  /** The product of the `j` in `S` other than `i`, in `Z_q`: the numerator of `delta`. */
  function Numerator(q: nat, S: seq<int>, i: int): int
    requires q > 1
  {
    if S == [] then 1
    else
      var j := S[|S| - 1];
      if i % q == j % q then Numerator(q, S[..|S| - 1], i)
      else (Numerator(q, S[..|S| - 1], i) * j) % q
  }

  /** The product of the `j - i` for `j` in `S` other than `i`, in `Z_q`: the denominator of `delta`. */
  function Denominator(q: nat, S: seq<int>, i: int): int
    requires q > 1
  {
    if S == [] then 1
    else
      var j := S[|S| - 1];
      if i % q == j % q then Denominator(q, S[..|S| - 1], i)
      else (Denominator(q, S[..|S| - 1], i) * (j - i)) % q
  }

  lemma Rearrange(a: int, b: int, c: int, d: int)
    ensures (a * c) * (b * d) == (a * b) * (c * d)
  {
  }

  /** `((a % q) * (b % q)) % q == (a * b) % q`. */
  lemma ModMul(a: int, b: int, q: nat)
    requires q > 0
    ensures ((a % q) * (b % q)) % q == (a * b) % q
  {
    ModMulLeft(a, b % q, q);
    ModMulRight(a, b, q);
  }

  /** Distinct residues have a difference that is not 0 modulo `q`. */
  lemma DiffNonzero(q: nat, j: int, i: int)
    requires q > 0 && i % q != j % q
    ensures (j - i) % q != 0
  {
    if (j - i) % q == 0 {
      ModAdd(j - i, i, q);
      assert false;
    }
  }

  lemma Regroup(j: int, v: int, d: int)
    ensures (j * v) * d == j * (d * v)
  {
  }

  /** One factor of `delta` times its denominator is its numerator, in `Z_q`. */
  lemma FactorEquation(q: nat, j: int, i: int)
    requires q > 1 && IsPrime(q) && i % q != j % q
    ensures (((j * Inverse(j - i, q)) % q) * (j - i)) % q == j % q
  {
    var v := Inverse(j - i, q);
    var d := j - i;
    DiffNonzero(q, j, i);
    assert (d * v) % q == 1;
    ModMulLeft(j * v, d, q);
    Regroup(j, v, d);
    ModMulRight(j, d * v, q);
    assert j * 1 == j;
  }

  /**
   * `delta` is the fraction it is meant to be: in a prime field, `delta(S, i)` times the
   * product of the `j - i` is the product of the `j`, over the `j` in `S` other than `i`.
   */
  lemma {:induction false} LagrangeEquation(q: nat, S: seq<int>, i: int)
    requires q > 1 && IsPrime(q)
    ensures (LagrangeCoeff(q, S, i) * Denominator(q, S, i)) % q == Numerator(q, S, i) % q
    decreases |S|
  {
    if S != [] {
      var S' := S[..|S| - 1];
      var j := S[|S| - 1];
      LagrangeEquation(q, S', i);
      if i % q != j % q {
        var l, d, n := LagrangeCoeff(q, S', i), Denominator(q, S', i), Numerator(q, S', i);
        var f := (j * Inverse(j - i, q)) % q;
        FactorEquation(q, j, i);
        calc {
          (LagrangeCoeff(q, S, i) * Denominator(q, S, i)) % q;
          (((l * f) % q) * ((d * (j - i)) % q)) % q;
          { ModMul(l * f, d * (j - i), q); }
          ((l * f) * (d * (j - i))) % q;
          { Rearrange(l, d, f, j - i); }
          ((l * d) * (f * (j - i))) % q;
          { ModMul(l * d, f * (j - i), q); }
          (((l * d) % q) * ((f * (j - i)) % q)) % q;
          (((n % q) * (j % q)) % q);
          { ModMul(n, j, q); }
          (n * j) % q;
          { ModUnique((n * j) % q, q, 0, (n * j) % q); }
          Numerator(q, S, i) % q;
        }
      }
    }
  }

  /** The loop of `delta(S, i)`. */
  method Delta(q: nat, S: seq<int>, i: int) returns (prod: int)
    requires q > 1
    ensures prod == LagrangeCoeff(q, S, i)
  {
    prod := 1;
    for n := 0 to |S|
      invariant prod == LagrangeCoeff(q, S[..n], i)
    {
      var j := S[n];
      assert S[..n + 1][..n] == S[..n];
      if i % q == j % q {
        continue;
      }
      prod := (prod * ((j * Inverse(j - i, q)) % q)) % q;
    }
    assert S[..|S|] == S;
  }

  // The ciphertexts and the smallest-set selection of `eval`

  /**
   * What a client sends: the masked Bloom filter of its whole set, `m` exponents, and
   * for every element `m` pairs `(ct, gr)`.
   */
  datatype Ciphertext = Ciphertext(bfSet: seq<int>, elements: seq<seq<(int, int)>>)

  /** The first index of a ciphertext with the fewest elements. */
  function FirstMinimal(ctSets: seq<Ciphertext>): (idx: nat)
    requires |ctSets| > 0
    ensures idx < |ctSets|
    ensures forall j :: 0 <= j < |ctSets| ==> |ctSets[idx].elements| <= |ctSets[j].elements|
    ensures forall j :: 0 <= j < idx ==> |ctSets[j].elements| > |ctSets[idx].elements|
    decreases |ctSets|
  {
    if |ctSets| == 1 then 0
    else
      var p := FirstMinimal(ctSets[..|ctSets| - 1]);
      if |ctSets[|ctSets| - 1].elements| < |ctSets[p].elements| then |ctSets| - 1 else p
  }

  /** The loop of `eval` that finds `smallest_set_index`. */
  method SmallestSetIndex(ctSets: seq<Ciphertext>) returns (idx: nat)
    requires |ctSets| > 0
    ensures idx == FirstMinimal(ctSets)
  {
    idx := 0;
    var size := |ctSets[0].elements|;
    for i := 1 to |ctSets|
      invariant idx == FirstMinimal(ctSets[..i]) && size == |ctSets[idx].elements|
    {
      assert ctSets[..i + 1][..i] == ctSets[..i];
      if |ctSets[i].elements| < size {
        idx := i;
        size := |ctSets[i].elements|;
      }
    }
    assert ctSets[..|ctSets|] == ctSets;
  }

  /** `S` of `eval`: the points `1, ..., n` of the shares `f(i)`, then `n + gamma`. */
  function Points(n: nat, gamma: nat): (S: seq<int>)
    ensures |S| == n + 1 && S[n] == n + gamma
    ensures forall i :: 0 <= i < n ==> S[i] == i + 1
  {
    seq(n, i => i + 1) + [n + gamma]
  }

  // The combination `a_list`

  /** Every ciphertext carries a Bloom filter of at least `m` entries. */
  ghost predicate FiltersCover(ctSets: seq<Ciphertext>, m: nat)
  {
    forall i :: 0 <= i < |ctSets| ==> m <= |ctSets[i].bfSet|
  }

  /**
   * The exponent of `a` after the first `upto` factors
   * `ct_bf_set_i[ell] ** delta(S, i + 1)`, starting from the identity.
   */
  function Combination(q: nat, ctSets: seq<Ciphertext>, S: seq<int>, m: nat, ell: nat, upto: nat): (r: int)
    requires q > 1 && upto <= |ctSets| && FiltersCover(ctSets, m) && ell < m
    ensures 0 <= r < q
  {
    if upto == 0 then 0
    else (Combination(q, ctSets, S, m, ell, upto - 1) + (ctSets[upto - 1].bfSet[ell] * LagrangeCoeff(q, S, upto)) % q) % q
  }

  /** `sum(fs[i] * delta(S, i + 1))` over the first `upto` clients. */
  function WeightedShares(q: nat, fs: seq<int>, S: seq<int>, upto: nat): int
    requires q > 1 && upto <= |fs|
  {
    if upto == 0 then 0 else WeightedShares(q, fs, S, upto - 1) + fs[upto - 1] * LagrangeCoeff(q, S, upto)
  }

  lemma Distribute3(h: int, f: int, l: int, w: int)
    ensures h * w + (h * f) * l == h * (w + f * l)
  {
  }

  /**
   * Where every client's Bloom filter entry is `H(ell) ** f_i` (its bit is set),
   * `a_list[ell]` is `H(ell)` raised to the Lagrange combination of the shares `f_i`.
   */
  lemma {:induction false} CombinationOfShares(q: nat, ctSets: seq<Ciphertext>, S: seq<int>, m: nat, ell: nat,
                                              upto: nat, h: int, fs: seq<int>)
    requires q > 1 && upto <= |ctSets| && upto <= |fs| && FiltersCover(ctSets, m) && ell < m
    requires forall i :: 0 <= i < upto ==> ctSets[i].bfSet[ell] == (h * fs[i]) % q
    ensures Combination(q, ctSets, S, m, ell, upto) == (h * WeightedShares(q, fs, S, upto)) % q
    decreases upto
  {
    if upto > 0 {
      var n := upto - 1;
      var w := WeightedShares(q, fs, S, n);
      var l := LagrangeCoeff(q, S, upto);
      CombinationOfShares(q, ctSets, S, m, ell, n, h, fs);
      ModMulLeft(h * fs[n], l, q);
      ModAdd(h * w, (h * fs[n]) * l, q);
      Distribute3(h, fs[n], l, w);
    }
  }

  /** The inner loop of `eval` that builds `a_list[ell]`, calling `delta` for every factor. */
  method CombineAt(q: nat, ctSets: seq<Ciphertext>, S: seq<int>, m: nat, ell: nat) returns (a: int)
    requires q > 1 && FiltersCover(ctSets, m) && ell < m
    ensures a == Combination(q, ctSets, S, m, ell, |ctSets|)
  {
    a := 0;
    for i := 0 to |ctSets|
      invariant a == Combination(q, ctSets, S, m, ell, i)
    {
      var d := Delta(q, S, i + 1);
      a := (a + (ctSets[i].bfSet[ell] * d) % q) % q;
    }
  }

  /** The values `a_list` takes: one combination per Bloom filter position. */
  ghost function AListOf(q: nat, ctSets: seq<Ciphertext>, S: seq<int>, m: nat): (a: seq<int>)
    requires q > 1 && FiltersCover(ctSets, m)
    ensures |a| == m
  {
    seq(m, ell requires 0 <= ell < m => Combination(q, ctSets, S, m, ell, |ctSets|))
  }

  /** The outer loop of `eval` that builds `a_list`, one entry per Bloom filter position. */
  method AList(q: nat, ctSets: seq<Ciphertext>, S: seq<int>, m: nat) returns (aList: seq<int>)
    requires q > 1 && FiltersCover(ctSets, m)
    ensures aList == AListOf(q, ctSets, S, m)
  {
    aList := [];
    for ell := 0 to m
      invariant |aList| == ell
      invariant forall e :: 0 <= e < ell ==> aList[e] == Combination(q, ctSets, S, m, e, |ctSets|)
    {
      var a := CombineAt(q, ctSets, S, m, ell);
      aList := aList + [a];
    }
    AListIs(q, ctSets, S, m, aList);
  }

  // The counting loop

  /**
   * The data the counting loop reads for one element: the group order, `Delta`, the
   * combination `a_list`, the element's pairs and the filter length `m`.
   */
  datatype Check = Check(q: nat, delta: int, aList: seq<int>, pairs: seq<(int, int)>, m: nat)
  {
    ghost predicate Valid()
    {
      q > 1 && m <= |aList| && m <= |pairs|
    }
  }

  /** `lhs == rhs` of `eval` at position `ell` for the candidate weight `i`. */
  predicate Hit(c: Check, ell: nat, i: int)
    requires c.Valid() && ell < c.m
  {
    ((c.pairs[ell].0 * c.delta) % c.q + c.aList[ell]) % c.q == (c.pairs[ell].1 * ((c.delta * i) % c.q)) % c.q
  }

  /** The largest weight `t` in `1..i` that matches at `ell`, or 0 if none does. */
  function Candidate(c: Check, ell: nat, i: nat): (t: nat)
    requires c.Valid() && ell < c.m
    ensures t <= i
    ensures t > 0 ==> Hit(c, ell, t)
    ensures forall j :: t < j <= i ==> !Hit(c, ell, j)
  {
    if i == 0 then 0 else if Hit(c, ell, i) then i else Candidate(c, ell, i - 1)
  }

  /** The first position at or after `ell` with a candidate weight, or `m` if there is none. */
  function FirstHit(c: Check, k: nat, ell: nat): (r: nat)
    requires c.Valid() && ell <= c.m
    ensures ell <= r <= c.m
    ensures r < c.m ==> Candidate(c, r, k) > 0
    ensures forall e :: ell <= e < r ==> Candidate(c, e, k) == 0
    decreases c.m - ell
  {
    if ell == c.m then c.m else if Candidate(c, ell, k) > 0 then ell else FirstHit(c, k, ell + 1)
  }

  /** The number of positions in `[from, to)` that match weight `t`. */
  function HitCount(c: Check, t: nat, from: nat, to: nat): (r: nat)
    requires c.Valid() && to <= c.m
    ensures from <= to ==> r <= to - from
    ensures to <= from ==> r == 0
  {
    if to <= from then 0 else HitCount(c, t, from, to - 1) + (if Hit(c, to - 1, t) then 1 else 0)
  }

  /** Counting matches over a longer range never gives fewer. */
  lemma {:induction false} HitCountMonotone(c: Check, t: nat, from: nat, to: nat, to': nat)
    requires c.Valid() && to <= to' <= c.m
    ensures HitCount(c, t, from, to) <= HitCount(c, t, from, to')
    decreases to' - to
  {
    if to < to' {
      HitCountMonotone(c, t, from, to, to' - 1);
    }
  }

  /**
   * Whether the loop of `eval` counts the element, as written: the weight `t` is fixed at
   * the first position where some weight in `k..1` matches (the largest one), and the
   * element is counted when a later match brings the number of matches of `t` to `t`.
   * The first match sets the number to 1 without comparing it to `t`, so an element with
   * `t == 1` is never counted.
   */
  predicate Counted(c: Check, k: nat)
    requires c.Valid()
  {
    var ell0 := FirstHit(c, k, 0);
    ell0 < c.m &&
    var t := Candidate(c, ell0, k);
    t >= 2 && HitCount(c, t, ell0, c.m) >= t
  }

  /** Whether the element should be counted: at least `t` positions match the weight `t`. */
  predicate CountedIntended(c: Check, k: nat)
    requires c.Valid()
  {
    var ell0 := FirstHit(c, k, 0);
    ell0 < c.m && HitCount(c, Candidate(c, ell0, k), ell0, c.m) >= Candidate(c, ell0, k)
  }

  /** The exponent of `lhs` at position `ell`. */
  function Lhs(c: Check, ell: nat): int
    requires c.Valid() && ell < c.m
  {
    ((c.pairs[ell].0 * c.delta) % c.q + c.aList[ell]) % c.q
  }

  /** The exponent of `rhs` at position `ell` for weight `i`. */
  function Rhs(c: Check, ell: nat, i: int): int
    requires c.Valid() && ell < c.m
  {
    (c.pairs[ell].1 * ((c.delta * i) % c.q)) % c.q
  }

  /** The loop `for i in range(k, 0, -1)` that fixes the weight `t` at position `ell`. */
  method FindWeight(c: Check, k: nat, ell: nat) returns (t: Option<nat>)
    requires c.Valid() && ell < c.m
    ensures t.Some? <==> Candidate(c, ell, k) > 0
    ensures t.Some? ==> t.value == Candidate(c, ell, k)
  {
    var lhs := Lhs(c, ell);
    t := None;
    var i: nat := k;
    while i > 0
      invariant i <= k && Candidate(c, ell, k) == Candidate(c, ell, i)
      decreases i
    {
      if lhs == Rhs(c, ell, i) {
        t := Some(i);
        return;
      }
      i := i - 1;
    }
  }

  /** The loop over the positions of one element in `eval`, as written. */
  method CountElement(c: Check, k: nat) returns (counted: bool)
    requires c.Valid()
    ensures counted == Counted(c, k)
  {
    var t: Option<nat> := None;
    var identical := 0;
    ghost var ell0 := 0;
    counted := false;
    var ell := 0;
    while ell < c.m
      invariant ell <= c.m
      invariant t.None? ==> FirstHit(c, k, 0) == FirstHit(c, k, ell)
      invariant t.Some? ==>
        ell0 == FirstHit(c, k, 0) < ell && t.value == Candidate(c, ell0, k) &&
        identical == HitCount(c, t.value, ell0, ell) && 1 <= identical &&
        (t.value == 1 || identical < t.value)
      decreases c.m - ell
    {
      var lhs := Lhs(c, ell);
      if t.None? {
        t := FindWeight(c, k, ell);
        if t.Some? {
          identical := 1;
          ell0 := ell;
        }
      } else if lhs == Rhs(c, ell, t.value) {
        identical := identical + 1;
        if t.value == identical {
          HitCountMonotone(c, t.value, ell0, ell + 1, c.m);
          return true;
        }
      }
      ell := ell + 1;
    }
    if t.None? {
      assert FirstHit(c, k, 0) == c.m;
    }
    return false;
  }

  /**
   * The loop with the comparison `t == identical_count` made after the first match as
   * well, so that an element of weight 1 is counted.
   */
  method CountElementIntended(c: Check, k: nat) returns (counted: bool)
    requires c.Valid()
    ensures counted == CountedIntended(c, k)
  {
    var t: Option<nat> := None;
    var identical := 0;
    ghost var ell0 := 0;
    var ell := 0;
    while ell < c.m
      invariant ell <= c.m
      invariant t.None? ==> FirstHit(c, k, 0) == FirstHit(c, k, ell)
      invariant t.Some? ==>
        ell0 == FirstHit(c, k, 0) < ell && t.value == Candidate(c, ell0, k) &&
        identical == HitCount(c, t.value, ell0, ell) && identical < t.value
      decreases c.m - ell
    {
      var lhs := Lhs(c, ell);
      if t.None? {
        t := FindWeight(c, k, ell);
        if t.Some? {
          identical := 1;
          ell0 := ell;
        }
      } else if lhs == Rhs(c, ell, t.value) {
        identical := identical + 1;
      }
      if t.Some? && t.value == identical {
        HitCountMonotone(c, t.value, ell0, ell + 1, c.m);
        return true;
      }
      ell := ell + 1;
    }
    return false;
  }

  /** The two counts differ exactly on elements whose weight `t` is 1. */
  lemma CountedDiffersOnWeightOne(c: Check, k: nat)
    requires c.Valid()
    ensures Counted(c, k) <==> CountedIntended(c, k) && Candidate(c, FirstHit(c, k, 0), k) != 1
  {
  }

  /** With a single hash function (`k == 1`) no element is ever counted. */
  lemma SingleHashCountsNothing(c: Check)
    requires c.Valid()
    ensures !Counted(c, 1)
  {
  }

  /**
   * An element of weight 1 that matches at its one position: `q = 5`, `Delta = 1`,
   * `a_list = [0]` and the pair `(1, 1)`, so `lhs = 1 = rhs` for `t = 1`.
   */
  lemma WeightOneNeverCounted()
    ensures CountedIntended(Check(5, 1, [0], [(1, 1)], 1), 1)
    ensures !Counted(Check(5, 1, [0], [(1, 1)], 1), 1)
  {
    var c := Check(5, 1, [0], [(1, 1)], 1);
    assert Hit(c, 0, 1);
    assert Candidate(c, 0, 1) == 1;
    assert FirstHit(c, 1, 0) == 0;
    assert HitCount(c, 1, 0, 1) == 1 by {
      assert HitCount(c, 1, 0, 0) == 0;
    }
  }

  // `setup` and `eval`

  /** Every element of a ciphertext carries at least `m` pairs. */
  ghost predicate ElementsCover(elements: seq<seq<(int, int)>>, m: nat)
  {
    forall j :: 0 <= j < |elements| ==> m <= |elements[j]|
  }

  /** The number of the first `upto` elements that the loop of `eval` counts. */
  function NumCounted(q: nat, delta: int, aList: seq<int>, elements: seq<seq<(int, int)>>, m: nat, k: nat,
                      upto: nat): (r: nat)
    requires q > 1 && m <= |aList| && ElementsCover(elements, m) && upto <= |elements|
    ensures r <= upto
  {
    if upto == 0 then 0
    else
      NumCounted(q, delta, aList, elements, m, k, upto - 1) +
      (if Counted(Check(q, delta, aList, elements[upto - 1], m), k) then 1 else 0)
  }


  /** The loop of `eval` over the elements of the picked ciphertext. */
  method CountElements(q: nat, delta: int, aList: seq<int>, elements: seq<seq<(int, int)>>, m: nat, k: nat)
    returns (cardinality: nat)
    requires q > 1 && m <= |aList| && ElementsCover(elements, m)
    ensures cardinality == NumCounted(q, delta, aList, elements, m, k, |elements|)
  {
    cardinality := 0;
    for j := 0 to |elements|
      invariant cardinality == NumCounted(q, delta, aList, elements, m, k, j)
    {
      var counted := CountElement(Check(q, delta, aList, elements[j], m), k);
      if counted {
        cardinality := cardinality + 1;
      }
    }
  }

  lemma AListIs(q: nat, ctSets: seq<Ciphertext>, S: seq<int>, m: nat, aList: seq<int>)
    requires q > 1 && FiltersCover(ctSets, m) && |aList| == m
    requires forall ell :: 0 <= ell < m ==> aList[ell] == Combination(q, ctSets, S, m, ell, |ctSets|)
    ensures aList == AListOf(q, ctSets, S, m)
  {
  }

  /**
   * The count `eval` returns for `n` clients when the ciphertext at `idx` is picked: with
   * `S` the points `1, ..., n, n + idx + 1`, the number of that ciphertext's elements the
   * loop counts against `a_list`.
   */
  ghost function CountAt(q: nat, n: nat, m: nat, k: nat, ctSets: seq<Ciphertext>, idx: nat): (r: nat)
    requires q > 1 && idx < |ctSets| && FiltersCover(ctSets, m) && ElementsCover(ctSets[idx].elements, m)
    ensures r <= |ctSets[idx].elements|
  {
    NumCounted(q, LagrangeCoeff(q, Points(n, idx + 1), n + idx + 1), AListOf(q, ctSets, Points(n, idx + 1), m),
               ctSets[idx].elements, m, k, |ctSets[idx].elements|)
  }

  /**
   * The count `eval` returns: the ciphertext picked is the first with the fewest
   * elements, so the count is bounded by every ciphertext's element count.
   */
  ghost function EvalCount(q: nat, n: nat, m: nat, k: nat, ctSets: seq<Ciphertext>): (r: nat)
    requires q > 1 && |ctSets| > 0 && FiltersCover(ctSets, m)
    requires ElementsCover(ctSets[FirstMinimal(ctSets)].elements, m)
    ensures forall j :: 0 <= j < |ctSets| ==> r <= |ctSets[j].elements|
  {
    CountAt(q, n, m, k, ctSets, FirstMinimal(ctSets))
  }

  /** The part of `eval` after the ciphertext at `idx` is picked, with `gamma == idx + 1`. */
  method EvalAt(q: nat, n: nat, m: nat, k: nat, ctSets: seq<Ciphertext>, idx: nat) returns (cardinality: nat)
    requires q > 1 && idx < |ctSets| && FiltersCover(ctSets, m) && ElementsCover(ctSets[idx].elements, m)
    ensures cardinality == CountAt(q, n, m, k, ctSets, idx)
  {
    var aList := AList(q, ctSets, Points(n, idx + 1), m);
    var delta := Delta(q, Points(n, idx + 1), n + idx + 1);
    cardinality := CountElements(q, delta, aList, ctSets[idx].elements, m, k);
  }

  /** The scheme object, holding the group order and the parameters `setup` records. */
  class CardinalityEfficient {
    const q: nat
    var clientCount: nat
    var m: nat
    var k: nat

    ghost predicate Valid()
      reads this
    {
      q > 1
    }

    /** The scheme for a group of order `q`, with `client_count` already assigned. */
    constructor(q: nat, clientCount: nat)
      requires q > 1
      ensures Valid() && this.q == q && this.clientCount == clientCount && m == 0 && k == 0
    {
      this.q := q;
      this.clientCount := clientCount;
      m, k := 0, 0;
    }

    /**
     * `setup`: records `m` and `k` and hands client `i` (from 1) the PRF key and the
     * shares `f(i)` and `f(n + i)` of the polynomial with coefficients `[0] + rs`. The
     * number of clients is the recorded `client_count`, not the argument.
     */
    method Setup(secpar: nat, clientCountArg: nat, m: nat, k: nat, phiKey: Bytes, rs: seq<int>)
      returns (usks: seq<UserKey>)
      requires Valid() && |phiKey| == secpar / 8 && |rs| == clientCount
      modifies this
      ensures Valid() && this.m == m && this.k == k && clientCount == old(clientCount)
      ensures |usks| == clientCount
      ensures forall i :: 0 <= i < |usks| ==>
        usks[i] == UserKey(phiKey, Poly(q, [0] + rs, i + 1), Poly(q, [0] + rs, clientCount + i + 1))
    {
      this.m := m;
      this.k := k;
      var cs := [0] + rs;
      var n, order := clientCount, q;
      usks := seq(n, i requires 0 <= i < n => UserKey(phiKey, Poly(order, cs, i + 1), Poly(order, cs, n + i + 1)));
    }

    /**
     * `eval`: picks the first ciphertext with the fewest elements (index `gamma - 1`),
     * combines the Bloom filters into `a_list` and counts the elements of the picked
     * ciphertext that the loop accepts. The count never exceeds the element count of any
     * ciphertext.
     */
    method Eval(ctSets: seq<Ciphertext>) returns (cardinality: nat)
      requires Valid() && |ctSets| > 0 && FiltersCover(ctSets, m)
      requires ElementsCover(ctSets[FirstMinimal(ctSets)].elements, m)
      ensures cardinality == EvalCount(q, clientCount, m, k, ctSets)
      ensures forall j :: 0 <= j < |ctSets| ==> cardinality <= |ctSets[j].elements|
    {
      var n, m, k := clientCount, this.m, this.k;
      var idx := SmallestSetIndex(ctSets);
      cardinality := EvalAt(q, n, m, k, ctSets, idx);
    }
  }
}
