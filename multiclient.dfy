/**
 * The multi-client set-intersection-cardinality scheme `Cardinality`
 * (nipsi/multiclient.py). A group element `g^e` is its exponent `e` in `Z_q`: the
 * identity `g ** 0` is 0, a product of group elements is a sum of exponents, and a
 * serialized ciphertext is the exponent reduced modulo `q`.
 */
module MultiClient {
  import opened ByteStrings
  import opened SetFacts
  import opened Modular

  /**
   * The keys `setup` hands out: the `n - 1` random exponents `rs`, then the negation of
   * their sum. With `n == 0` the list of random keys is empty and one key, 0, is returned.
   */
  function KeyShares(q: nat, n: nat, rs: seq<int>): (usks: seq<int>)
    requires q > 0
    requires |rs| == if n > 0 then n - 1 else 0
    ensures |usks| == if n > 0 then n else 1
    ensures usks[..|usks| - 1] == rs
    ensures Sum(usks) % q == 0
  {
    assert (rs + [Neg(Sum(rs), q)])[..|rs|] == rs;
    rs + [Neg(Sum(rs), q)]
  }

  /** The exponent of `H(gid + pt) ** usk`, where `hash` gives the exponent of `H`. */
  function EncryptElement(q: nat, hash: Bytes -> int, usk: int, gid: Bytes, pt: Bytes): (c: nat)
    requires q > 0
    ensures c < q
  {
    (hash(gid + pt) * usk) % q
  }

  /** `encrypt(usk, gid, pt_set)`: one ciphertext per plaintext. */
  function Encrypt(q: nat, hash: Bytes -> int, usk: int, gid: Bytes, pts: set<Bytes>): (cts: set<int>)
    requires q > 0
    ensures forall c :: c in cts ==> 0 <= c < q
    ensures forall pt :: pt in pts ==> EncryptElement(q, hash, usk, gid, pt) in cts
  {
    set pt | pt in pts :: EncryptElement(q, hash, usk, gid, pt)
  }

  /** Every ciphertext is a reduced exponent, as deserializing a group element gives. */
  ghost predicate Residues(q: nat, L: seq<set<int>>)
  {
    forall i, c :: 0 <= i < |L| && c in L[i] ==> 0 <= c < q
  }

  /**
   * A chain picks one ciphertext from each set so that, multiplied onto the partial
   * product `p`, the result is the identity.
   */
  ghost predicate IsChain(q: nat, L: seq<set<int>>, p: int, cs: seq<int>)
    requires q > 0
  {
    |cs| == |L| && (forall i :: 0 <= i < |L| ==> cs[i] in L[i]) && (p + Sum(cs)) % q == 0
  }

  /** No ciphertext lies on two different chains. */
  ghost predicate ChainsDisjoint(q: nat, L: seq<set<int>>, p: int)
    requires q > 0
  {
    forall cs, ds, i :: IsChain(q, L, p, cs) && IsChain(q, L, p, ds) && 0 <= i < |cs| && cs[i] == ds[i] ==> cs == ds
  }

  /** The ciphertexts of set `i` that lie on a chain whose last ciphertext is in `D`. */
  ghost function ChainElems(q: nat, L: seq<set<int>>, p: int, i: nat, D: set<int>): set<int>
    requires q > 0 && i < |L|
  {
    set c | c in L[i] && exists cs :: IsChain(q, L, p, cs) && cs[i] == c && cs[|L| - 1] in D
  }

  lemma ChainElemsIntro(q: nat, L: seq<set<int>>, p: int, i: nat, D: set<int>, cs: seq<int>)
    requires q > 0 && i < |L| && IsChain(q, L, p, cs) && cs[|L| - 1] in D
    ensures cs[i] in ChainElems(q, L, p, i, D)
  {
  }

  /** Two residues that both complete `p` to the identity are the same residue. */
  lemma UniqueCompletion(q: nat, p: int, c: int, d: int)
    requires q > 0 && 0 <= c < q && 0 <= d < q
    requires (p + c) % q == 0 && (p + d) % q == 0
    ensures c == d
  {
    var a, b := (p + c) / q, (p + d) / q;
    assert c - d == (a - b) * q;
    MulSign(a - b, q);
  }

  /** With one set left, the chains are the single ciphertexts that complete `p`. */
  lemma LastLevelChains(q: nat, L: seq<set<int>>, p: int)
    requires q > 0 && |L| == 1
    ensures forall c :: c in ChainElems(q, L, p, 0, L[0]) <==> c in L[0] && (p + c) % q == 0
  {
    forall c | c in L[0] && (p + c) % q == 0
      ensures c in ChainElems(q, L, p, 0, L[0])
    {
      assert Sum([c]) == c by {
        assert [c][..0] == [];
      }
      ChainElemsIntro(q, L, p, 0, L[0], [c]);
    }
    forall c | c in ChainElems(q, L, p, 0, L[0])
      ensures (p + c) % q == 0
    {
      var cs :| IsChain(q, L, p, cs) && cs[0] == c && cs[0] in L[0];
      assert cs == [c];
      assert Sum([c]) == c by {
        assert [c][..0] == [];
      }
    }
  }

  /** A chain of the remaining sets under the product `p * c` extends to a chain ending in `c`. */
  lemma ExtendChain(q: nat, L: seq<set<int>>, p: int, cur: seq<set<int>>, c: int, cs: seq<int>)
    requires q > 0 && |L| >= 2 && |cur| == |L| - 1
    requires forall i :: 0 <= i < |cur| ==> cur[i] <= L[i]
    requires c in L[|L| - 1]
    requires IsChain(q, cur, (p + c) % q, cs)
    ensures IsChain(q, L, p, cs + [c])
  {
    assert (cs + [c])[..|cs|] == cs;
    assert Sum(cs + [c]) == Sum(cs) + c;
    ModAddLeft(p + c, Sum(cs), q);
  }

  /** A chain ending in `c` whose other ciphertexts remain is a chain of the remaining sets under `p * c`. */
  lemma TruncateChain(q: nat, L: seq<set<int>>, p: int, cur: seq<set<int>>, cs: seq<int>)
    requires q > 0 && |L| >= 2 && |cur| == |L| - 1
    requires IsChain(q, L, p, cs)
    requires forall i :: 0 <= i < |cur| ==> cs[i] in cur[i]
    ensures IsChain(q, cur, (p + cs[|L| - 1]) % q, cs[..|L| - 1])
  {
    var c := cs[|L| - 1];
    assert cs == cs[..|L| - 1] + [c];
    assert Sum(cs) == Sum(cs[..|L| - 1]) + c;
    ModAddLeft(p + c, Sum(cs[..|L| - 1]), q);
  }

  /** The chains through a single last ciphertext are at most one chain. */
  lemma OneChainPerTop(q: nat, L: seq<set<int>>, p: int, c: int, i: nat)
    requires q > 0 && |L| >= 2 && i < |L| && ChainsDisjoint(q, L, p)
    ensures forall a, b :: a in ChainElems(q, L, p, i, {c}) && b in ChainElems(q, L, p, i, {c}) ==> a == b
  {
    forall a, b | a in ChainElems(q, L, p, i, {c}) && b in ChainElems(q, L, p, i, {c})
      ensures a == b
    {
      var cs :| IsChain(q, L, p, cs) && cs[i] == a && cs[|L| - 1] in {c};
      var ds :| IsChain(q, L, p, ds) && ds[i] == b && ds[|L| - 1] in {c};
      assert cs[|L| - 1] == ds[|L| - 1];
    }
  }

  /** Once the chains through `done` are removed, the chains under `p * c` are still disjoint. */
  lemma StepDisjoint(q: nat, L: seq<set<int>>, p: int, cur: seq<set<int>>, c: int)
    requires q > 0 && |L| >= 2 && |cur| == |L| - 1 && ChainsDisjoint(q, L, p)
    requires c in L[|L| - 1]
    requires forall i :: 0 <= i < |cur| ==> cur[i] <= L[i]
    ensures ChainsDisjoint(q, cur, (p + c) % q)
  {
    var p' := (p + c) % q;
    forall cs, ds, i | IsChain(q, cur, p', cs) && IsChain(q, cur, p', ds) && 0 <= i < |cs| && cs[i] == ds[i]
      ensures cs == ds
    {
      ExtendChain(q, L, p, cur, c, cs);
      ExtendChain(q, L, p, cur, c, ds);
      assert (cs + [c])[i] == (ds + [c])[i];
      assert cs == (cs + [c])[..|cs|];
      assert ds == (ds + [c])[..|ds|];
    }
  }

  /** A chain ending in a ciphertext outside `done` shares no ciphertext with the chains through `done`. */
  lemma ChainAvoidsDone(q: nat, L: seq<set<int>>, p: int, cs: seq<int>, done: set<int>, j: nat)
    requires q > 0 && |L| >= 1 && j < |L| && ChainsDisjoint(q, L, p)
    requires IsChain(q, L, p, cs) && cs[|L| - 1] !in done
    ensures cs[j] !in ChainElems(q, L, p, j, done)
  {
  }

  /**
   * One step of the search through the last set: once the chains through the
   * ciphertexts `done` are removed, the chains of what remains under `p * c` are
   * exactly the chains ending in `c`.
   */
  lemma StepChains(q: nat, L: seq<set<int>>, p: int, cur: seq<set<int>>, c: int, done: set<int>, i: nat)
    requires q > 0 && |L| >= 2 && |cur| == |L| - 1 && ChainsDisjoint(q, L, p)
    requires c in L[|L| - 1] && c !in done && i < |cur|
    requires forall j :: 0 <= j < |cur| ==> cur[j] == L[j] - ChainElems(q, L, p, j, done)
    ensures ChainElems(q, cur, (p + c) % q, i, cur[|cur| - 1]) == ChainElems(q, L, p, i, {c})
  {
    var p' := (p + c) % q;
    forall a | a in ChainElems(q, cur, p', i, cur[|cur| - 1])
      ensures a in ChainElems(q, L, p, i, {c})
    {
      var cs :| IsChain(q, cur, p', cs) && cs[i] == a && cs[|cur| - 1] in cur[|cur| - 1];
      ExtendChain(q, L, p, cur, c, cs);
      ChainElemsIntro(q, L, p, i, {c}, cs + [c]);
    }
    forall a | a in ChainElems(q, L, p, i, {c})
      ensures a in ChainElems(q, cur, p', i, cur[|cur| - 1])
    {
      var cs :| IsChain(q, L, p, cs) && cs[i] == a && cs[|L| - 1] in {c};
      forall j | 0 <= j < |cur|
        ensures cs[j] in cur[j]
      {
        ChainAvoidsDone(q, L, p, cs, done, j);
      }
      TruncateChain(q, L, p, cur, cs);
      ChainElemsIntro(q, cur, p', i, cur[|cur| - 1], cs[..|L| - 1]);
    }
  }

  /** Chains ending in `c` exist exactly when `c` itself is on a chain. */
  lemma TopOnChain(q: nat, L: seq<set<int>>, p: int, c: int)
    requires q > 0 && |L| >= 2
    ensures ChainElems(q, L, p, |L| - 2, {c}) != {} <==> c in ChainElems(q, L, p, |L| - 1, {c})
  {
    if c in ChainElems(q, L, p, |L| - 1, {c}) {
      var cs :| IsChain(q, L, p, cs) && cs[|L| - 1] == c && cs[|L| - 1] in {c};
      ChainElemsIntro(q, L, p, |L| - 2, {c}, cs);
    }
    if ChainElems(q, L, p, |L| - 2, {c}) != {} {
      var a :| a in ChainElems(q, L, p, |L| - 2, {c});
      var cs :| IsChain(q, L, p, cs) && cs[|L| - 2] == a && cs[|L| - 1] in {c};
      ChainElemsIntro(q, L, p, |L| - 1, {c}, cs);
    }
  }

  lemma ChainElemsSplit(q: nat, L: seq<set<int>>, p: int, i: nat, D: set<int>, E: set<int>)
    requires q > 0 && i < |L|
    ensures ChainElems(q, L, p, i, D + E) == ChainElems(q, L, p, i, D) + ChainElems(q, L, p, i, E)
  {
  }

  /** On the last set, the chain ciphertexts among `{c}` are `c` itself or nothing. */
  lemma TopChainElems(q: nat, L: seq<set<int>>, p: int, c: int)
    requires q > 0 && |L| >= 1
    ensures ChainElems(q, L, p, |L| - 1, {c}) <= {c}
  {
  }

  /** The ciphertexts of `S` that complete `p` to the identity. */
  ghost function Completions(q: nat, S: set<int>, p: int): set<int>
    requires q > 0
  {
    set c | c in S && (p + c) % q == 0
  }

  /**
   * The last level of `intersection_count`: removes the first ciphertext found that
   * completes `p` to the identity, and counts 1 for it. Among reduced exponents there
   * is at most one such ciphertext.
   */
  method LastSetCount(q: nat, S: set<int>, p: int) returns (count: nat, rest: set<int>)
    requires q > 0 && forall c :: c in S ==> 0 <= c < q
    ensures count == |Completions(q, S, p)| && count <= 1
    ensures rest == S - Completions(q, S, p)
  {
    rest := S;
    count := 0;
    var todo := S;
    while todo != {}
      invariant todo <= S && rest == S
      invariant Completions(q, S, p) <= todo
      decreases |todo|
    {
      ghost var w := Pick(todo);
      var c :| c in todo;
      if (p + c) % q == 0 {
        forall d | d in Completions(q, S, p)
          ensures d == c
        {
          UniqueCompletion(q, p, c, d);
        }
        assert Completions(q, S, p) == {c};
        rest := rest - {c};
        count := 1;
        return;
      }
      assert c !in Completions(q, S, p);
      todo := todo - {c};
    }
  }

  /**
   * The state of the loop over the last set after the ciphertexts `done` are searched:
   * when no ciphertext lies on two chains, exactly the chains through `done` have been
   * counted and removed.
   */
  ghost predicate Searched(q: nat, L: seq<set<int>>, p: int, cur: seq<set<int>>, ctSet: set<int>, count: nat, done: set<int>)
    requires q > 0 && |L| >= 2
  {
    ChainsDisjoint(q, L, p) ==>
      |cur| == |L| - 1 &&
      count == |ChainElems(q, L, p, |L| - 1, done)| &&
      ctSet == L[|L| - 1] - ChainElems(q, L, p, |L| - 1, done) &&
      forall i :: 0 <= i < |cur| ==> cur[i] == L[i] - ChainElems(q, L, p, i, done)
  }

  lemma SearchedInit(q: nat, L: seq<set<int>>, p: int)
    requires q > 0 && |L| >= 2
    ensures Searched(q, L, p, L[..|L| - 1], L[|L| - 1], 0, {})
  {
  }

  lemma SearchedDone(q: nat, L: seq<set<int>>, p: int, cur: seq<set<int>>, ctSet: set<int>, count: nat)
    requires q > 0 && |L| >= 2 && |cur| == |L| - 1 && Searched(q, L, p, cur, ctSet, count, L[|L| - 1])
    ensures Counted(q, L, p, count, cur + [ctSet])
  {
    if ChainsDisjoint(q, L, p) {
      var rest := cur + [ctSet];
      forall i | 0 <= i < |L|
        ensures rest[i] == L[i] - ChainElems(q, L, p, i, L[|L| - 1])
      {
        if i < |cur| {
          assert rest[i] == cur[i];
        }
      }
    }
  }

  /**
   * What `intersection_count` promises when no ciphertext lies on two chains: the count
   * is the number of chains, and each set loses exactly the ciphertexts on a chain.
   */
  ghost predicate Counted(q: nat, L: seq<set<int>>, p: int, count: nat, rest: seq<set<int>>)
    requires q > 0 && |L| > 0
  {
    ChainsDisjoint(q, L, p) ==>
      |rest| == |L| &&
      count == |ChainElems(q, L, p, |L| - 1, L[|L| - 1])| &&
      forall i :: 0 <= i < |L| ==> rest[i] == L[i] - ChainElems(q, L, p, i, L[|L| - 1])
  }

  /**
   * What one pass of the loop over the last set keeps true: after the recursive search
   * for `c`, the earlier sets have lost exactly the chains through `done` and `c`, and the
   * search found one chain or none, one exactly when `c` is on a chain.
   */
  lemma SearchStep(q: nat, L: seq<set<int>>, p: int, cur: seq<set<int>>, cur': seq<set<int>>,
                   c: int, done: set<int>, found: nat, ctSet: set<int>, count: nat)
    requires q > 0 && |L| >= 2 && |cur| == |L| - 1 == |cur'|
    requires forall i :: 0 <= i < |cur| ==> cur[i] <= L[i]
    requires c in L[|L| - 1] && c !in done
    requires Searched(q, L, p, cur, ctSet, count, done)
    requires Counted(q, cur, (p + c) % q, found, cur')
    ensures Searched(q, L, p, cur', if found == 1 then ctSet - {c} else ctSet,
                     if found == 1 then count + 1 else count, done + {c})
  {
    if ChainsDisjoint(q, L, p) {
      StepRemoves(q, L, p, cur, cur', c, done, found);
      OneChainPerTop(q, L, p, c, |L| - 2);
      AtMostOne(ChainElems(q, L, p, |L| - 2, {c}));
      TopOnChain(q, L, p, c);
      TopChainElems(q, L, p, c);
      ChainElemsSplit(q, L, p, |L| - 1, done, {c});
      if found == 1 {
        assert ChainElems(q, L, p, |L| - 1, {c}) == {c};
      } else {
        assert ChainElems(q, L, p, |L| - 2, {c}) == {};
        assert ChainElems(q, L, p, |L| - 1, {c}) == {};
      }
      CountStep(L[|L| - 1], ChainElems(q, L, p, |L| - 1, done), ChainElems(q, L, p, |L| - 1, done + {c}),
                c, found, ctSet, count);
    }
  }

  /**
   * The recursive search for `c` finds the chains ending in `c`, and removes their
   * ciphertexts from the earlier sets.
   */
  lemma StepRemoves(q: nat, L: seq<set<int>>, p: int, cur: seq<set<int>>, cur': seq<set<int>>,
                    c: int, done: set<int>, found: nat)
    requires q > 0 && |L| >= 2 && |cur| == |L| - 1 == |cur'| && ChainsDisjoint(q, L, p)
    requires c in L[|L| - 1] && c !in done
    requires forall i :: 0 <= i < |cur| ==> cur[i] == L[i] - ChainElems(q, L, p, i, done)
    requires Counted(q, cur, (p + c) % q, found, cur')
    ensures found == |ChainElems(q, L, p, |L| - 2, {c})|
    ensures forall i :: 0 <= i < |cur| ==> cur'[i] == L[i] - ChainElems(q, L, p, i, done + {c})
  {
    StepDisjoint(q, L, p, cur, c);
    forall i | 0 <= i < |cur|
      ensures ChainElems(q, cur, (p + c) % q, i, cur[|cur| - 1]) == ChainElems(q, L, p, i, {c})
    {
      StepChains(q, L, p, cur, c, done, i);
    }
    forall i | 0 <= i < |cur|
      ensures cur'[i] == L[i] - ChainElems(q, L, p, i, done + {c})
    {
      ChainElemsSplit(q, L, p, i, done, {c});
    }
  }

  /** Removing `c` from the last set and counting it keeps the count equal to the chains found. */
  lemma CountStep(top: set<int>, A: set<int>, A': set<int>, c: int, found: nat, ctSet: set<int>, count: nat)
    requires A' == A + (if found == 1 then {c} else {}) && c !in A && A <= top && c in top
    requires ctSet == top - A && count == |A|
    ensures found == 1 ==> ctSet - {c} == top - A' && count + 1 == |A'|
    ensures found != 1 ==> ctSet == top - A' && count == |A'|
  {
  }

  /**
   * The recursive `intersection_count`: it removes from the last set each ciphertext
   * that completes a chain through the earlier sets (which are searched recursively and
   * lose the ciphertexts of the chains found), and counts them. Whatever the input,
   * the count is the number of ciphertexts removed from the last set; when no
   * ciphertext lies on two chains, it is the number of chains, and exactly the chains'
   * ciphertexts are removed.
   */
  method IntersectionCount(q: nat, L: seq<set<int>>, p: int) returns (count: nat, rest: seq<set<int>>)
    requires q > 0 && |L| > 0 && Residues(q, L)
    ensures |rest| == |L| && forall i :: 0 <= i < |L| ==> rest[i] <= L[i]
    ensures count + |rest[|L| - 1]| == |L[|L| - 1]|
    ensures Counted(q, L, p, count, rest)
    decreases |L|, 1
  {
    if |L| == 1 {
      var ctSet;
      LastLevelChains(q, L, p);
      count, ctSet := LastSetCount(q, L[0], p);
      assert ChainElems(q, L, p, 0, L[0]) == Completions(q, L[0], p);
      rest := [ctSet];
    } else {
      count, rest := SearchLastSet(q, L, p);
    }
  }

  /**
   * The loop of `intersection_count` over the last set, for two sets or more: each
   * ciphertext `c` of the last set is tried by a recursive search of the earlier sets
   * for a chain closing with `c`.
   */
  method SearchLastSet(q: nat, L: seq<set<int>>, p: int) returns (count: nat, rest: seq<set<int>>)
    requires q > 0 && |L| >= 2 && Residues(q, L)
    ensures |rest| == |L| && forall i :: 0 <= i < |L| ==> rest[i] <= L[i]
    ensures count + |rest[|L| - 1]| == |L[|L| - 1]|
    ensures Counted(q, L, p, count, rest)
    decreases |L|, 0
  {
    var prefix := L[..|L| - 1];
    var top := L[|L| - 1];
    var ctSet := top;
    var cur := prefix;
    var todo := top;
    ghost var done: set<int> := {};
    count := 0;
    SearchedInit(q, L, p);
    while todo != {}
      invariant todo <= ctSet <= top && done == top - todo
      invariant count + |ctSet| == |top|
      invariant |cur| == |prefix| && forall i :: 0 <= i < |prefix| ==> cur[i] <= prefix[i]
      invariant Searched(q, L, p, cur, ctSet, count, done)
      decreases |todo|
    {
      ghost var w := Pick(todo);
      var c :| c in todo;
      ghost var before := cur;
      var found;
      found, cur := IntersectionCount(q, cur, (p + c) % q);
      SearchStep(q, L, p, before, cur, c, done, found, ctSet, count);
      if found == 1 {
        ctSet := ctSet - {c};
        count := count + 1;
      }
      todo := todo - {c};
      done := done + {c};
    }
    SearchedDone(q, L, p, cur, ctSet, count);
    rest := cur + [ctSet];
  }

  /** `eval(ct_sets)`: the count of `intersection_count`, starting from the identity. */
  method Eval(q: nat, ctSets: seq<set<int>>) returns (cardinality: nat)
    requires q > 0 && |ctSets| > 0 && Residues(q, ctSets)
    ensures cardinality <= |ctSets[|ctSets| - 1]|
    ensures ChainsDisjoint(q, ctSets, 0) ==>
      cardinality == |ChainElems(q, ctSets, 0, |ctSets| - 1, ctSets[|ctSets| - 1])|
  {
    var remaining;
    cardinality, remaining := IntersectionCount(q, ctSets, 0);
    assert Counted(q, ctSets, 0, cardinality, remaining);
  }

  // Correctness for honest clients

  /** The ciphertext sets of the clients: client `i` encrypts `pts[i]` under `usks[i]`. */
  function EncryptAll(q: nat, hash: Bytes -> int, usks: seq<int>, gid: Bytes, pts: seq<set<Bytes>>): (L: seq<set<int>>)
    requires q > 0 && |usks| == |pts|
    ensures |L| == |pts| && Residues(q, L)
    ensures forall i :: 0 <= i < |L| ==> L[i] == Encrypt(q, hash, usks[i], gid, pts[i])
  {
    seq(|pts|, i requires 0 <= i < |pts| => Encrypt(q, hash, usks[i], gid, pts[i]))
  }

  /** The plaintexts every client holds. */
  ghost function Common(pts: seq<set<Bytes>>): set<Bytes>
    requires |pts| > 0
  {
    set x | x in pts[0] && forall i :: 0 <= i < |pts| ==> x in pts[i]
  }

  lemma CommonMember(pts: seq<set<Bytes>>, x: Bytes)
    requires |pts| > 0
    ensures x in Common(pts) <==> forall i :: 0 <= i < |pts| ==> x in pts[i]
  {
  }

  /** The ciphertexts of one plaintext per client, `xs[i]` encrypted under `usks[i]`. */
  function Encryptions(q: nat, hash: Bytes -> int, usks: seq<int>, gid: Bytes, xs: seq<Bytes>): (cs: seq<int>)
    requires q > 0 && |xs| == |usks|
    ensures |cs| == |xs|
    ensures forall i :: 0 <= i < |xs| ==> cs[i] == EncryptElement(q, hash, usks[i], gid, xs[i])
  {
    seq(|xs|, i requires 0 <= i < |xs| => EncryptElement(q, hash, usks[i], gid, xs[i]))
  }

  /** The chain every client's ciphertext of the common plaintext `x` forms. */
  function ChainOf(q: nat, hash: Bytes -> int, usks: seq<int>, gid: Bytes, x: Bytes): (cs: seq<int>)
    requires q > 0
    ensures |cs| == |usks|
    ensures forall i :: 0 <= i < |usks| ==> cs[i] == EncryptElement(q, hash, usks[i], gid, x)
  {
    Encryptions(q, hash, usks, gid, seq(|usks|, i => x))
  }

  /** `xs` picks one plaintext from each client's set. */
  ghost predicate IsSelection(pts: seq<set<Bytes>>, xs: seq<Bytes>)
  {
    |xs| == |pts| && forall i :: 0 <= i < |xs| ==> xs[i] in pts[i]
  }

  /** Each client's encryption is injective on its own set. */
  ghost predicate LevelInjective(q: nat, hash: Bytes -> int, usks: seq<int>, gid: Bytes, pts: seq<set<Bytes>>)
    requires q > 0 && |usks| == |pts|
  {
    forall i, x, y ::
      0 <= i < |pts| && x in pts[i] && y in pts[i] &&
      EncryptElement(q, hash, usks[i], gid, x) == EncryptElement(q, hash, usks[i], gid, y)
      ==> x == y
  }

  /**
   * The ciphertexts of different plaintexts never multiply to the identity: a selection
   * whose ciphertexts close a chain picks the same plaintext from every set. In the real
   * group this holds except with negligible probability over the hash.
   */
  ghost predicate NoSpurious(q: nat, hash: Bytes -> int, usks: seq<int>, gid: Bytes, pts: seq<set<Bytes>>)
    requires q > 0 && |usks| == |pts|
  {
    forall xs :: IsSelection(pts, xs) && Sum(Encryptions(q, hash, usks, gid, xs)) % q == 0 ==>
      forall i :: 0 <= i < |xs| ==> xs[i] == xs[0]
  }

  lemma Distribute(h: int, a: int, b: int)
    ensures h * a + h * b == h * (a + b)
  {
  }

  /** Scaling every term by `h` scales the sum by `h`. */
  lemma {:induction false} SumScale(h: int, us: seq<int>, xs: seq<int>)
    requires |xs| == |us| && forall i :: 0 <= i < |us| ==> xs[i] == h * us[i]
    ensures Sum(xs) == h * Sum(us)
    decreases |us|
  {
    if us != [] {
      SumScale(h, us[..|us| - 1], xs[..|xs| - 1]);
      Distribute(h, Sum(us[..|us| - 1]), us[|us| - 1]);
    }
  }

  /** Reducing every term modulo `q` leaves the sum unchanged modulo `q`. */
  lemma {:induction false} SumMod(q: nat, xs: seq<int>, ys: seq<int>)
    requires q > 0 && |ys| == |xs| && forall i :: 0 <= i < |xs| ==> ys[i] == xs[i] % q
    ensures Sum(ys) % q == Sum(xs) % q
    decreases |xs|
  {
    if xs != [] {
      var xs', ys' := xs[..|xs| - 1], ys[..|ys| - 1];
      var x := xs[|xs| - 1];
      SumMod(q, xs', ys');
      ModAdd(Sum(ys'), x % q, q);
      ModAdd(Sum(xs'), x, q);
      ModAddLeft(x, 0, q);
    }
  }

  /** When the key shares sum to 0, the ciphertexts of one plaintext multiply to the identity. */
  lemma ChainOfCloses(q: nat, hash: Bytes -> int, usks: seq<int>, gid: Bytes, x: Bytes)
    requires q > 0 && Sum(usks) % q == 0
    ensures Sum(ChainOf(q, hash, usks, gid, x)) % q == 0
  {
    var h := hash(gid + x);
    var xs := Scaled(h, usks);
    SumScale(h, usks, xs);
    ChainTerms(q, hash, usks, gid, x, xs);
    SumMod(q, xs, ChainOf(q, hash, usks, gid, x));
    MultipleOfZero(h, Sum(usks), q);
  }

  /** Every key share multiplied by `h`: the exponents of `H(gid + x) ** usk` before reduction. */
  function Scaled(h: int, us: seq<int>): (xs: seq<int>)
    ensures |xs| == |us| && forall i :: 0 <= i < |us| ==> xs[i] == h * us[i]
  {
    seq(|us|, i requires 0 <= i < |us| => h * us[i])
  }

  lemma ChainTerms(q: nat, hash: Bytes -> int, usks: seq<int>, gid: Bytes, x: Bytes, xs: seq<int>)
    requires q > 0 && xs == Scaled(hash(gid + x), usks)
    ensures |ChainOf(q, hash, usks, gid, x)| == |xs|
    ensures forall i :: 0 <= i < |xs| ==> ChainOf(q, hash, usks, gid, x)[i] == xs[i] % q
  {
  }

  /** `h * s` is a multiple of `q` when `s` is. */
  lemma MultipleOfZero(h: int, s: int, q: nat)
    requires q > 0 && s % q == 0
    ensures (h * s) % q == 0
  {
    ModMulRight(h, s, q);
    MulZero(h, s % q);
  }

  lemma MulZero(h: int, z: int)
    requires z == 0
    ensures h * z == 0
  {
  }

  /** When the key shares sum to 0, every common plaintext gives a chain. */
  lemma CommonChain(q: nat, hash: Bytes -> int, usks: seq<int>, gid: Bytes, pts: seq<set<Bytes>>, x: Bytes)
    requires q > 0 && |usks| == |pts| > 0 && Sum(usks) % q == 0
    requires x in Common(pts)
    ensures IsChain(q, EncryptAll(q, hash, usks, gid, pts), 0, ChainOf(q, hash, usks, gid, x))
  {
    ChainOfCloses(q, hash, usks, gid, x);
    CommonMember(pts, x);
    var cs, L := ChainOf(q, hash, usks, gid, x), EncryptAll(q, hash, usks, gid, pts);
    forall i | 0 <= i < |L|
      ensures cs[i] in L[i]
    {
      assert x in pts[i];
      assert L[i] == Encrypt(q, hash, usks[i], gid, pts[i]);
      assert cs[i] == EncryptElement(q, hash, usks[i], gid, x);
    }
  }

  /** A plaintext that lies under ciphertext `c` of a client's set. */
  ghost function Preimage(q: nat, hash: Bytes -> int, usk: int, gid: Bytes, pts: set<Bytes>, c: int): (x: Bytes)
    requires q > 0 && c in Encrypt(q, hash, usk, gid, pts)
    ensures x in pts && EncryptElement(q, hash, usk, gid, x) == c
  {
    var x :| x in pts && EncryptElement(q, hash, usk, gid, x) == c; x
  }

  /** Without spurious products, every chain is the chain of a common plaintext. */
  lemma ChainIsCommon(q: nat, hash: Bytes -> int, usks: seq<int>, gid: Bytes, pts: seq<set<Bytes>>, cs: seq<int>)
    returns (x: Bytes)
    requires q > 0 && |usks| == |pts| > 0 && NoSpurious(q, hash, usks, gid, pts)
    requires IsChain(q, EncryptAll(q, hash, usks, gid, pts), 0, cs)
    ensures x in Common(pts) && cs == ChainOf(q, hash, usks, gid, x)
  {
    var L := EncryptAll(q, hash, usks, gid, pts);
    var xs := seq(|cs|, i requires 0 <= i < |cs| => Preimage(q, hash, usks[i], gid, pts[i], cs[i]));
    assert Encryptions(q, hash, usks, gid, xs) == cs;
    assert IsSelection(pts, xs);
    x := xs[0];
    assert forall i :: 0 <= i < |xs| ==> xs[i] == x;
    assert forall i :: 0 <= i < |pts| ==> x in pts[i] by {
      forall i | 0 <= i < |pts|
        ensures x in pts[i]
      {
        assert xs[i] in pts[i];
      }
    }
  }

  /** With injective encryption per client, chains of common plaintexts meet only if they are equal. */
  lemma HonestChainsDisjoint(q: nat, hash: Bytes -> int, usks: seq<int>, gid: Bytes, pts: seq<set<Bytes>>)
    requires q > 0 && |usks| == |pts| > 0
    requires LevelInjective(q, hash, usks, gid, pts) && NoSpurious(q, hash, usks, gid, pts)
    ensures ChainsDisjoint(q, EncryptAll(q, hash, usks, gid, pts), 0)
  {
    var L := EncryptAll(q, hash, usks, gid, pts);
    forall cs, ds, i | IsChain(q, L, 0, cs) && IsChain(q, L, 0, ds) && 0 <= i < |cs| && cs[i] == ds[i]
      ensures cs == ds
    {
      var x := ChainIsCommon(q, hash, usks, gid, pts, cs);
      var y := ChainIsCommon(q, hash, usks, gid, pts, ds);
      assert x in pts[i] && y in pts[i];
    }
  }

  /**
   * The correctness claim of the scheme: when the key shares sum to 0, encryption is
   * injective per client and no product of different plaintexts' ciphertexts is the
   * identity, no ciphertext lies on two chains and the chains through the last set are
   * as many as the plaintexts all clients hold.
   */
  lemma HonestChainCount(q: nat, hash: Bytes -> int, usks: seq<int>, gid: Bytes, pts: seq<set<Bytes>>)
    requires q > 0 && |usks| == |pts| > 0 && Sum(usks) % q == 0
    requires LevelInjective(q, hash, usks, gid, pts) && NoSpurious(q, hash, usks, gid, pts)
    ensures ChainsDisjoint(q, EncryptAll(q, hash, usks, gid, pts), 0)
    ensures var L := EncryptAll(q, hash, usks, gid, pts);
      |ChainElems(q, L, 0, |L| - 1, L[|L| - 1])| == |Common(pts)|
  {
    HonestChainsDisjoint(q, hash, usks, gid, pts);
    var L := EncryptAll(q, hash, usks, gid, pts);
    var n := |L|;
    var f := (x: Bytes) => EncryptElement(q, hash, usks[n - 1], gid, x);
    var C := Common(pts);
    forall c | c in ChainElems(q, L, 0, n - 1, L[n - 1])
      ensures c in Image(C, f)
    {
      var cs :| IsChain(q, L, 0, cs) && cs[n - 1] == c && cs[n - 1] in L[n - 1];
      var x := ChainIsCommon(q, hash, usks, gid, pts, cs);
      assert f(x) == c;
    }
    forall x | x in C
      ensures f(x) in ChainElems(q, L, 0, n - 1, L[n - 1])
    {
      CommonChain(q, hash, usks, gid, pts, x);
      ChainElemsIntro(q, L, 0, n - 1, L[n - 1], ChainOf(q, hash, usks, gid, x));
    }
    assert ChainElems(q, L, 0, n - 1, L[n - 1]) == Image(C, f);
    assert InjectiveOn(C, f) by {
      forall x, y | x in C && y in C && f(x) == f(y)
        ensures x == y
      {
        assert x in pts[n - 1] && y in pts[n - 1];
      }
    }
    InjectiveImageCard(C, f);
  }

  /**
   * Encrypting every client's set and evaluating gives the size of the intersection of
   * the plaintext sets, under the conditions of `HonestChainCount`.
   */
  method HonestEval(q: nat, hash: Bytes -> int, usks: seq<int>, gid: Bytes, pts: seq<set<Bytes>>)
    returns (cardinality: nat)
    requires q > 0 && |usks| == |pts| > 0 && Sum(usks) % q == 0
    requires LevelInjective(q, hash, usks, gid, pts) && NoSpurious(q, hash, usks, gid, pts)
    ensures cardinality == |Common(pts)|
  {
    HonestChainCount(q, hash, usks, gid, pts);
    cardinality := Eval(q, EncryptAll(q, hash, usks, gid, pts));
  }
}
