/** Optional values, for Python calls that may raise instead of returning. */
module Wrappers {
  datatype Option<+T> = None | Some(value: T)
}

/** Python `bytes` values and the integer conversions the schemes use on them. */
module ByteStrings {

  /** A Python byte value. */
  newtype byte = x: int | 0 <= x < 256

  type Bytes = seq<byte>

  function Pow2(n: nat): (r: nat)
    ensures r >= 1
  {
    if n == 0 then 1 else 2 * Pow2(n - 1)
  }

  function Pow256(n: nat): (r: nat)
    ensures r >= 1
  {
    if n == 0 then 1 else 256 * Pow256(n - 1)
  }

  /** Python's `int.bit_length()` on a non-negative integer. */
  function BitLength(n: nat): (r: nat)
    ensures n < Pow2(r)
    ensures r > 0 ==> Pow2(r - 1) <= n
  {
    if n == 0 then 0 else 1 + BitLength(n / 2)
  }

  lemma {:induction false} Pow2BelowPow256(n: nat)
    ensures Pow2(n) <= Pow256(n)
  {
    if n > 0 {
      Pow2BelowPow256(n - 1);
    }
  }

  /** Python's `i.to_bytes(n, 'big')`, for an `i` that fits in `n` bytes. */
  function ToBytesBE(i: nat, n: nat): (r: Bytes)
    requires i < Pow256(n)
    ensures |r| == n
    decreases n
  {
    if n == 0 then [] else ToBytesBE(i / 256, n - 1) + [(i % 256) as byte]
  }

  /** Python's `int.from_bytes(s, 'big')`. */
  function FromBytesBE(s: Bytes): (r: nat)
    ensures r < Pow256(|s|)
  {
    if s == [] then 0 else 256 * FromBytesBE(s[..|s| - 1]) + s[|s| - 1] as nat
  }

  /** Decoding undoes encoding: `int.from_bytes(i.to_bytes(n, 'big'), 'big') == i`. */
  lemma {:induction false} FromToBytesBE(i: nat, n: nat)
    requires i < Pow256(n)
    ensures FromBytesBE(ToBytesBE(i, n)) == i
    decreases n
  {
    if n > 0 {
      var s := ToBytesBE(i, n);
      var j, d := i / 256, i % 256;
      DivBelowPow256(i, n);
      assert s[..n - 1] == ToBytesBE(j, n - 1);
      FromToBytesBE(j, n - 1);
      LastByteValue(s, j, d);
    }
  }

  lemma DivBelowPow256(i: nat, n: nat)
    requires n > 0 && i < Pow256(n)
    ensures i / 256 < Pow256(n - 1) && i == 256 * (i / 256) + i % 256
  {
  }

  lemma LastByteValue(s: Bytes, j: nat, d: nat)
    requires |s| > 0 && FromBytesBE(s[..|s| - 1]) == j && s[|s| - 1] as nat == d
    ensures FromBytesBE(s) == 256 * j + d
  {
  }

  /** Big-endian encodings of distinct integers of the same width differ. */
  lemma ToBytesBEInjective(i: nat, j: nat, n: nat)
    requires i < Pow256(n) && j < Pow256(n) && i != j
    ensures ToBytesBE(i, n) != ToBytesBE(j, n)
  {
    FromToBytesBE(i, n);
    FromToBytesBE(j, n);
  }

  /** Python's slice `s[:n]`, which never fails. */
  function Take(s: Bytes, n: nat): (r: Bytes)
    ensures |r| == if n < |s| then n else |s|
    ensures r <= s
  {
    if n < |s| then s[..n] else s
  }
}

/** Facts about finite sets used by the cardinality arguments. */
module SetFacts {

  /** The image of a set under a function, as a Python set comprehension builds it. */
  ghost function Image<X, Y>(a: set<X>, f: X -> Y): set<Y>
  {
    set x | x in a :: f(x)
  }

  ghost predicate InjectiveOn<X(!new), Y>(a: set<X>, f: X -> Y)
  {
    forall x, y :: x in a && y in a && f(x) == f(y) ==> x == y
  }

  /** An injective comprehension neither merges nor loses elements. */
  lemma {:induction false} InjectiveImageCard<X(!new), Y>(a: set<X>, f: X -> Y)
    requires InjectiveOn(a, f)
    ensures |Image(a, f)| == |a|
    decreases |a|
  {
    if a != {} {
      var x :| x in a;
      var rest := a - {x};
      InjectiveImageCard(rest, f);
      assert Image(a, f) == Image(rest, f) + {f(x)};
      assert f(x) !in Image(rest, f);
    }
  }

  /** A comprehension never has more elements than the set it ranges over. */
  lemma {:induction false} ImageCardBound<X, Y>(a: set<X>, f: X -> Y)
    ensures |Image(a, f)| <= |a|
    decreases |a|
  {
    if a != {} {
      var x :| x in a;
      var rest := a - {x};
      ImageCardBound(rest, f);
      assert Image(a, f) == Image(rest, f) + {f(x)};
    }
  }

  lemma {:induction false} SubsetCard<T>(a: set<T>, b: set<T>)
    requires a <= b
    ensures |a| <= |b|
    decreases |b|
  {
    if a != {} {
      var x :| x in a;
      SubsetCard(a - {x}, b - {x});
    }
  }

  lemma Pick<T>(s: set<T>) returns (x: T)
    requires s != {}
    ensures x in s
  {
    assert |s| > 0;
    x :| x in s;
  }

  lemma AtMostOne<T>(s: set<T>)
    requires forall a, b :: a in s && b in s ==> a == b
    ensures |s| <= 1
  {
    if s != {} {
      var a := Pick(s);
      assert s == {a};
    }
  }

}

/**
 * Arithmetic modulo the group order `q`. A group element `g^e` is modelled by its
 * exponent `e`, so the product of group elements is the sum of exponents modulo `q`,
 * and `h ** a` is a product of exponents modulo `q`.
 */
module Modular {

  ghost predicate IsPrime(q: nat)
  {
    q > 1 && forall d :: 1 < d < q ==> q % d != 0
  }

  lemma MulSign(x: int, q: int)
    requires q > 0
    ensures x >= 1 ==> x * q >= q
    ensures x <= -1 ==> x * q <= -q
  {
  }

  lemma ModUnique(a: int, q: int, d: int, r: int)
    requires q > 0 && a == d * q + r && 0 <= r < q
    ensures a % q == r && a / q == d
  {
    var d' := a / q;
    assert (d - d') * q == a % q - r;
    MulSign(d - d', q);
  }

  lemma ModAddMultiple(a: int, k: int, q: int)
    requires q > 0
    ensures (a + k * q) % q == a % q
  {
    ModUnique(a + k * q, q, a / q + k, a % q);
  }

  lemma ModAdd(a: int, b: int, q: int)
    requires q > 0
    ensures (a + b) % q == (a % q + b % q) % q
  {
    var s := a % q + b % q;
    ModAddMultiple(s, a / q + b / q, q);
    assert s + (a / q + b / q) * q == a + b;
  }

  lemma ModAddLeft(a: int, b: int, q: int)
    requires q > 0
    ensures (a % q + b) % q == (a + b) % q
  {
    ModAddMultiple(a % q + b, a / q, q);
  }

  lemma ModMulRight(a: int, b: int, q: int)
    requires q > 0
    ensures (a * (b % q)) % q == (a * b) % q
  {
    assert a * b == a * (b % q) + (a * (b / q)) * q;
    ModAddMultiple(a * (b % q), a * (b / q), q);
  }

  lemma ModMulLeft(a: int, b: int, q: int)
    requires q > 0
    ensures ((a % q) * b) % q == (a * b) % q
  {
    ModMulRight(b, a, q);
    assert (a % q) * b == b * (a % q);
    assert a * b == b * a;
  }

  /** Sum of a sequence, taken element by element from the front as Python's `sum` does. */
  function Sum(xs: seq<int>): int
  {
    if xs == [] then 0 else Sum(xs[..|xs| - 1]) + xs[|xs| - 1]
  }

  lemma {:induction false} SumAppend(xs: seq<int>, ys: seq<int>)
    ensures Sum(xs + ys) == Sum(xs) + Sum(ys)
    decreases |ys|
  {
    if ys != [] {
      assert (xs + ys)[..|xs + ys| - 1] == xs + ys[..|ys| - 1];
      assert (xs + ys)[|xs + ys| - 1] == ys[|ys| - 1];
      SumAppend(xs, ys[..|ys| - 1]);
    } else {
      assert xs + ys == xs;
    }
  }

  /** Additive inverse in Z_q: the exponent of `g ** -e`. */
  function Neg(x: int, q: nat): (r: nat)
    requires q > 0
    ensures r < q && (x + r) % q == 0
  {
    ModAddLeft(-x, x, q);
    (-x) % q
  }

  /** Python's `a ** i` on integers, with `0 ** 0 == 1`. */
  function Pow(a: int, i: nat): int
  {
    if i == 0 then 1 else a * Pow(a, i - 1)
  }

  function Gcd(a: nat, b: nat): nat
    decreases b
  {
    if b == 0 then a else Gcd(b, a % b)
  }

  lemma DividesCombination(m: int, b: int, r: int, g: int)
    requires g > 0 && b % g == 0 && r % g == 0
    ensures (m * b + r) % g == 0
  {
    var u, v := b / g, r / g;
    assert b == u * g;
    assert r == v * g;
    assert m * b + r == (m * u + v) * g;
    ModUnique(m * b + r, g, m * u + v, 0);
  }

  lemma {:induction false} GcdDivides(a: nat, b: nat)
    requires a > 0 || b > 0
    ensures Gcd(a, b) > 0 && a % Gcd(a, b) == 0 && b % Gcd(a, b) == 0
    decreases b
  {
    if b > 0 {
      GcdDivides(b, a % b);
      var g := Gcd(b, a % b);
      assert a == (a / b) * b + a % b;
      DividesCombination(a / b, b, a % b, g);
    }
  }

  /** Extended Euclid: Bezout coefficients `(x, y)` with `a*x + b*y == Gcd(a, b)`. */
  function Bezout(a: nat, b: nat): (r: (int, int))
    ensures a * r.0 + b * r.1 == Gcd(a, b)
    decreases b
  {
    if b == 0 then (1, 0)
    else
      var (x, y) := Bezout(b, a % b);
      assert a == (a / b) * b + a % b;
      assert a * y + b * (x - (a / b) * y) == b * x + (a % b) * y;
      (y, x - (a / b) * y)
  }

  /** The multiplicative inverse in Z_q that charm computes for `x ** -1`. */
  function Inverse(a: int, q: nat): (r: nat)
    requires q > 1
    ensures r < q
    ensures IsPrime(q) && a % q != 0 ==> (a * r) % q == 1
  {
    var b := Bezout(q, a % q);
    InverseCorrect(a, q);
    b.1 % q
  }

  /** A prime shares no factor with a smaller positive number. */
  lemma GcdPrime(q: nat, a: nat)
    requires IsPrime(q) && 0 < a < q
    ensures Gcd(q, a) == 1
  {
    GcdDivides(q, a);
    var g := Gcd(q, a);
    if g > a {
      ModUnique(a, g, 0, a);
    }
    assert g <= a;
    if g != 1 {
      assert false;
    }
  }

  lemma BezoutUnit(r: int, x: int, y: int, q: nat)
    requires q > 1 && q * x + r * y == 1
    ensures (r * y) % q == 1
  {
    assert r * y == 1 + (-x) * q;
    ModAddMultiple(1, -x, q);
  }

  lemma InverseStep(a: int, x: int, y: int, q: nat)
    requires q > 1 && q * x + (a % q) * y == 1
    ensures (a * (y % q)) % q == 1
  {
    ModMulRight(a, y, q);
    ModMulLeft(a, y, q);
    BezoutUnit(a % q, x, y, q);
  }

  lemma InverseCorrect(a: int, q: nat)
    requires q > 1
    ensures IsPrime(q) && a % q != 0 ==> (a * (Bezout(q, a % q).1 % q)) % q == 1
  {
    if IsPrime(q) && a % q != 0 {
      var b := Bezout(q, a % q);
      GcdPrime(q, a % q);
      InverseStep(a, b.0, b.1, q);
    }
  }
}
