/**
 * The two-client schemes of nipsi/twoclient.py: `Cardinality`, `Intersection` and
 * `Threshold`. AES-CBC under a key and an IV, SHA-256 (`_H`, `_H_bytes`), AES-GCM and
 * the group's (de)serialization are parameters; group elements are exponents in `Z_q`.
 */
module TwoClient {
  import opened Wrappers
  import opened ByteStrings
  import opened SetFacts
  import opened Modular
  import Efficient

  // Padding to the AES block size in `_prf`, `_phi` and `_psi`

  /** `pt + b'\0' * (16 - len(pt) % 16)`. */
  function ZeroPad(pt: Bytes): (r: Bytes)
    ensures |r| % 16 == 0
    ensures pt <= r
    ensures 1 <= |r| - |pt| <= 16
    ensures forall i :: |pt| <= i < |r| ==> r[i] == 0
  {
    pt + seq(16 - |pt| % 16, i => 0)
  }

  /** The empty plaintext and the one-byte plaintext 0 are padded to the same block. */
  lemma ZeroPadCollision()
    ensures [] != [0 as byte]
    ensures ZeroPad([]) == ZeroPad([0])
  {
    var z := seq(16, i => 0 as byte);
    assert ZeroPad([]) == z;
    assert ZeroPad([0]) == [0 as byte] + seq(15, i => 0 as byte);
    assert ZeroPad([0]) == z;
  }

  /** PKCS#7 padding: `n = 16 - len(pt) % 16` bytes, each of value `n`. */
  function Pkcs7Pad(pt: Bytes): (r: Bytes)
    ensures |r| % 16 == 0 && pt <= r && 1 <= |r| - |pt| <= 16
  {
    var n := 16 - |pt| % 16;
    pt + seq(n, i => n as byte)
  }

  /** Removes PKCS#7 padding, or fails on input that is not padded. */
  function Pkcs7Unpad(r: Bytes): (pt: Option<Bytes>)
    ensures pt.Some? ==> |pt.value| < |r| && pt.value == r[..|pt.value|]
  {
    if |r| == 0 || |r| % 16 != 0 then None
    else
      var n := r[|r| - 1] as int;
      if n < 1 || n > 16 then None
      else if forall i :: |r| - n <= i < |r| ==> r[i] as int == n then Some(r[..|r| - n])
      else None
  }

  /** Unpadding undoes PKCS#7 padding. */
  lemma Pkcs7RoundTrip(pt: Bytes)
    ensures Pkcs7Unpad(Pkcs7Pad(pt)) == Some(pt)
  {
    var n := 16 - |pt| % 16;
    var r := Pkcs7Pad(pt);
    assert r[|r| - 1] == n as byte;
    assert forall i :: |r| - n <= i < |r| ==> r[i] as int == n;
    assert r[..|r| - n] == pt;
  }

  /** So, unlike zero padding, PKCS#7 padding never maps two plaintexts to one block. */
  lemma Pkcs7Injective(a: Bytes, b: Bytes)
    requires Pkcs7Pad(a) == Pkcs7Pad(b)
    ensures a == b
  {
    Pkcs7RoundTrip(a);
    Pkcs7RoundTrip(b);
  }

  // `Cardinality`

  /** `setup`: both clients receive the same key of `secpar // 8` bytes. */
  function CardinalitySetup(secpar: nat, key: Bytes): (usks: (Bytes, Bytes))
    requires |key| == secpar / 8
    ensures usks.0 == usks.1 && |usks.0| == secpar / 8
  {
    (key, key)
  }

  /** `_prf`: AES-CBC (`cbc(key, iv, block)`) of the zero-padded plaintext. */
  function Prf(cbc: (Bytes, Bytes, Bytes) -> Bytes, key: Bytes, iv: Bytes, pt: Bytes): (r: Bytes)
    ensures exists block :: r == cbc(key, iv, block) && |block| % 16 == 0 && pt <= block
    ensures forall pt' :: ZeroPad(pt') == ZeroPad(pt) ==> r == cbc(key, iv, ZeroPad(pt'))
  {
    cbc(key, iv, ZeroPad(pt))
  }

  /** `encrypt`: the set of PRF values of the plaintexts, with the `gid` as the IV. */
  function CardinalityEncrypt(cbc: (Bytes, Bytes, Bytes) -> Bytes, usk: Bytes, gid: Bytes, pts: set<Bytes>): (cts: set<Bytes>)
    ensures |cts| <= |pts|
  {
    var cts := set pt | pt in pts :: Prf(cbc, usk, gid, pt);
    assert cts == Image(pts, pt => Prf(cbc, usk, gid, pt));
    ImageCardBound(pts, pt => Prf(cbc, usk, gid, pt));
    cts
  }

  /** `eval`: the size of the intersection of the two ciphertext sets. */
  function CardinalityEval(ct0: set<Bytes>, ct1: set<Bytes>): (n: nat)
    ensures n <= |ct0| && n <= |ct1|
  {
    SubsetCard(ct0 * ct1, ct0);
    SubsetCard(ct0 * ct1, ct1);
    |ct0 * ct1|
  }

  /** The image of an intersection under a map injective on the union is the intersection of the images. */
  lemma ImageIntersection<X(!new), Y>(a: set<X>, b: set<X>, f: X -> Y)
    requires InjectiveOn(a + b, f)
    ensures Image(a, f) * Image(b, f) == Image(a * b, f)
  {
    forall y | y in Image(a, f) * Image(b, f)
      ensures y in Image(a * b, f)
    {
      var x :| x in a && f(x) == y;
      var x' :| x' in b && f(x') == y;
      assert x == x';
    }
  }

  /**
   * When AES-CBC under the shared key is injective and no two plaintexts of the two sets
   * pad to the same blocks, `eval` of the two encryptions is the size of the plaintext
   * intersection.
   */
  lemma CardinalityCorrect(cbc: (Bytes, Bytes, Bytes) -> Bytes, secpar: nat, key: Bytes, gid: Bytes,
                           a: set<Bytes>, b: set<Bytes>)
    requires |key| == secpar / 8
    requires forall x, y :: cbc(key, gid, x) == cbc(key, gid, y) ==> x == y
    requires InjectiveOn(a + b, ZeroPad)
    ensures var usks := CardinalitySetup(secpar, key);
      CardinalityEval(CardinalityEncrypt(cbc, usks.0, gid, a), CardinalityEncrypt(cbc, usks.1, gid, b)) == |a * b|
  {
    var f := pt => Prf(cbc, key, gid, pt);
    forall x, y | x in a + b && y in a + b && f(x) == f(y)
      ensures x == y
    {
      assert cbc(key, gid, ZeroPad(x)) == cbc(key, gid, ZeroPad(y));
    }
    ImageIntersection(a, b, f);
    InjectiveImageCard(a * b, f);
    assert CardinalityEncrypt(cbc, key, gid, a) == Image(a, f);
    assert CardinalityEncrypt(cbc, key, gid, b) == Image(b, f);
  }

  // `Intersection`

  /** The foreign primitives of the schemes. */
  datatype Primitives = Primitives(
    cbc: (Bytes, Bytes, Bytes) -> Bytes,      // AES-CBC encryption under (key, iv)
    hKey: int -> Bytes,                       // `_H`: SHA-256 of 0x00 and the serialized element, first 16 bytes
    hNonce: int -> Bytes,                     // `_H_bytes`: SHA-256 of 0x01 and the serialized element
    aeEnc: (Bytes, Bytes, Bytes) -> Bytes,    // AES-GCM encryption under (key, nonce)
    aeDec: (Bytes, Bytes, Bytes) -> Option<Bytes>)  // AES-GCM decryption, None on a failed tag

  /** An authenticated ciphertext with its nonce. */
  datatype AeCiphertext = AeCiphertext(nonce: Bytes, ct: Bytes)

  /** A value of `Intersection`'s dictionary: the share `k ** sigma` and the encrypted plaintext. */
  datatype Entry = Entry(share: int, sealed: AeCiphertext)

  // Decrypting every key that both dictionaries hold, as both `eval`s do

  /** Every key in both dictionaries opens under `open`, as `eval` needs to finish without an exception. */
  ghost predicate OpensAll<E>(d0: map<Bytes, E>, d1: map<Bytes, E>, open: (E, E) -> Option<Bytes>)
  {
    forall key :: key in d0 && key in d1 ==> open(d0[key], d1[key]).Some?
  }

  /** The plaintexts `open` yields for the keys `keys`, all held by both dictionaries. */
  ghost function OpenedOn<E>(d0: map<Bytes, E>, d1: map<Bytes, E>, open: (E, E) -> Option<Bytes>, keys: set<Bytes>): set<Bytes>
    requires OpensAll(d0, d1, open) && keys <= d0.Keys * d1.Keys
  {
    set key | key in keys :: open(d0[key], d1[key]).value
  }

  lemma OpenedOnAdd<E>(d0: map<Bytes, E>, d1: map<Bytes, E>, open: (E, E) -> Option<Bytes>, keys: set<Bytes>, key: Bytes)
    requires OpensAll(d0, d1, open) && keys + {key} <= d0.Keys * d1.Keys
    ensures OpenedOn(d0, d1, open, keys + {key}) == OpenedOn(d0, d1, open, keys) + {open(d0[key], d1[key]).value}
  {
  }

  /** The loop over the keys in both dictionaries, adding what each opens to to the result set. */
  method OpenAll<E>(d0: map<Bytes, E>, d1: map<Bytes, E>, open: (E, E) -> Option<Bytes>) returns (pts: set<Bytes>)
    requires OpensAll(d0, d1, open)
    ensures pts == OpenedOn(d0, d1, open, d0.Keys * d1.Keys)
  {
    pts := {};
    var todo := d0.Keys * d1.Keys;
    ghost var done: set<Bytes> := {};
    while todo != {}
      invariant done + todo == d0.Keys * d1.Keys
      invariant pts == OpenedOn(d0, d1, open, done)
      decreases |todo|
    {
      ghost var w := Pick(todo);
      var key :| key in todo;
      var pt := open(d0[key], d1[key]);
      OpenedOnAdd(d0, d1, open, done, key);
      pts := pts + {pt.value};
      todo := todo - {key};
      done := done + {key};
    }
  }

  /** `_phi`: the exponent of the group element of a plaintext. */
  function Phi(p: Primitives, q: nat, msk: Bytes, gid: Bytes, pt: Bytes): (e: nat)
    requires q > 0
    ensures e < q
  {
    FromBytesBE(p.cbc(msk, gid, ZeroPad(pt))) % q
  }

  /** The key of a plaintext's dictionary entry, `_H(k)`. */
  function AeKey(p: Primitives, q: nat, msk: Bytes, gid: Bytes, pt: Bytes): Bytes
    requires q > 0
  {
    p.hKey(Phi(p, q, msk, gid, pt))
  }

  /** The dictionary entry of a plaintext under the key share `sigma`. */
  function EntryOf(p: Primitives, q: nat, msk: Bytes, sigma: int, gid: Bytes, pt: Bytes): (e: Entry)
    requires q > 0
    ensures 0 <= e.share < q
  {
    var k := Phi(p, q, msk, gid, pt);
    var nonce := Take(p.hNonce(k), 12);
    Entry((k * sigma) % q, AeCiphertext(nonce, p.aeEnc(p.hKey(k), nonce, pt)))
  }

  /** The dictionary keys of a plaintext set. */
  ghost function AeKeys(p: Primitives, q: nat, msk: Bytes, gid: Bytes, pts: set<Bytes>): set<Bytes>
    requires q > 0
  {
    set pt | pt in pts :: AeKey(p, q, msk, gid, pt)
  }

  /** No two plaintexts of `pts` get the same dictionary key. */
  ghost predicate KeysDistinct(p: Primitives, q: nat, msk: Bytes, gid: Bytes, pts: set<Bytes>)
    requires q > 0
  {
    forall x, y :: x in pts && y in pts && AeKey(p, q, msk, gid, x) == AeKey(p, q, msk, gid, y) ==> x == y
  }

  /** The dictionary holds an entry for exactly the plaintexts' keys, each one from a plaintext with that key. */
  ghost predicate FromPlaintexts(p: Primitives, q: nat, msk: Bytes, sigma: int, gid: Bytes, pts: set<Bytes>,
                                 d: map<Bytes, Entry>)
    requires q > 0
  {
    d.Keys == AeKeys(p, q, msk, gid, pts) &&
    forall key :: key in d ==>
      exists pt :: pt in pts && AeKey(p, q, msk, gid, pt) == key && d[key] == EntryOf(p, q, msk, sigma, gid, pt)
  }

  /** Every plaintext's entry sits under its key. */
  ghost predicate Honest(p: Primitives, q: nat, msk: Bytes, sigma: int, gid: Bytes, pts: set<Bytes>,
                         d: map<Bytes, Entry>)
    requires q > 0
  {
    d.Keys == AeKeys(p, q, msk, gid, pts) &&
    forall pt :: pt in pts ==> d[AeKey(p, q, msk, gid, pt)] == EntryOf(p, q, msk, sigma, gid, pt)
  }

  /** Recombining the two shares: `(k ** sigma) * (k ** (1 - sigma)) == k`. */
  lemma ShareRecombine(k: int, sigma: int, q: nat)
    requires q > 1 && 0 <= k < q
    ensures ((k * sigma) % q + (k * ((1 - sigma) % q)) % q) % q == k
  {
    var u, v := k * sigma, k * (1 - sigma);
    ModMulRight(k, 1 - sigma, q);
    ModAdd(u, v, q);
    SplitOne(k, sigma);
    ModUnique(k, q, 0, k);
  }

  lemma SplitOne(k: int, sigma: int)
    ensures k * sigma + k * (1 - sigma) == k
  {
  }

  /** What `eval` does with the entries of one key: recombine `k` and decrypt with `_H(k)`. */
  function Open(p: Primitives, q: nat, e0: Entry, e1: Entry): Option<Bytes>
    requires q > 0
  {
    var key := (e0.share + e1.share) % q;
    p.aeDec(p.hKey(key), e0.sealed.nonce, e0.sealed.ct)
  }

  /** `Open` as a function of the two entries. */
  function OpenWith(p: Primitives, q: nat): (Entry, Entry) -> Option<Bytes>
    requires q > 0
  {
    (e0: Entry, e1: Entry) => Open(p, q, e0, e1)
  }

  /** Every key in both dictionaries opens. */
  ghost predicate AllOpen(p: Primitives, q: nat, d0: map<Bytes, Entry>, d1: map<Bytes, Entry>)
    requires q > 0
  {
    OpensAll(d0, d1, OpenWith(p, q))
  }

  /** The plaintexts `eval` collects: one per key in both dictionaries. */
  ghost function Opened(p: Primitives, q: nat, d0: map<Bytes, Entry>, d1: map<Bytes, Entry>): set<Bytes>
    requires q > 0 && AllOpen(p, q, d0, d1)
  {
    OpenedOn(d0, d1, OpenWith(p, q), d0.Keys * d1.Keys)
  }

  /** AES-GCM decrypts what it encrypted under the same key and nonce. */
  ghost predicate DecryptsCorrectly(p: Primitives)
  {
    forall key, nonce, pt :: p.aeDec(key, nonce, p.aeEnc(key, nonce, pt)) == Some(pt)
  }

  /** Two entries of the same plaintext under complementary shares open to that plaintext. */
  lemma OpenHonest(p: Primitives, q: nat, msk: Bytes, sigma: int, gid: Bytes, pt: Bytes)
    requires q > 1 && DecryptsCorrectly(p)
    ensures Open(p, q, EntryOf(p, q, msk, sigma, gid, pt), EntryOf(p, q, msk, (1 - sigma) % q, gid, pt)) == Some(pt)
  {
    var k := Phi(p, q, msk, gid, pt);
    ShareRecombine(k, sigma, q);
  }

  /**
   * The correctness claim of `Intersection`: when the two dictionaries are honest
   * encryptions of `a` and `b` under shares `sigma` and `1 - sigma`, no two plaintexts
   * share a key and AES-GCM decrypts correctly, every key in both dictionaries opens, and
   * `eval` returns exactly `a * b`.
   */
  lemma IntersectionCorrect(p: Primitives, q: nat, msk: Bytes, sigma: int, gid: Bytes, a: set<Bytes>, b: set<Bytes>,
                            d0: map<Bytes, Entry>, d1: map<Bytes, Entry>)
    requires q > 1 && DecryptsCorrectly(p) && KeysDistinct(p, q, msk, gid, a + b)
    requires Honest(p, q, msk, sigma, gid, a, d0) && Honest(p, q, msk, (1 - sigma) % q, gid, b, d1)
    ensures AllOpen(p, q, d0, d1)
    ensures Opened(p, q, d0, d1) == a * b
  {
    HonestOpen(p, q, msk, sigma, gid, a, b, d0, d1);
    forall pt | pt in a * b
      ensures pt in Opened(p, q, d0, d1)
    {
      var key := PlaintextOpens(p, q, msk, sigma, gid, a, b, d0, d1, pt);
      assert OpenWith(p, q)(d0[key], d1[key]).value in OpenedOn(d0, d1, OpenWith(p, q), d0.Keys * d1.Keys);
    }
  }

  /** Every key in both honest dictionaries opens, to a plaintext of both sets. */
  lemma HonestOpen(p: Primitives, q: nat, msk: Bytes, sigma: int, gid: Bytes, a: set<Bytes>, b: set<Bytes>,
                   d0: map<Bytes, Entry>, d1: map<Bytes, Entry>)
    requires q > 1 && DecryptsCorrectly(p) && KeysDistinct(p, q, msk, gid, a + b)
    requires Honest(p, q, msk, sigma, gid, a, d0) && Honest(p, q, msk, (1 - sigma) % q, gid, b, d1)
    ensures AllOpen(p, q, d0, d1)
    ensures forall key :: key in d0 && key in d1 ==> Open(p, q, d0[key], d1[key]).value in a * b
  {
    forall key | key in d0 && key in d1
      ensures Open(p, q, d0[key], d1[key]).Some? && Open(p, q, d0[key], d1[key]).value in a * b
    {
      var x := KeyOpens(p, q, msk, sigma, gid, a, b, d0, d1, key);
    }
  }

  /** A plaintext of both sets has its key in both honest dictionaries, and that key opens to it. */
  lemma PlaintextOpens(p: Primitives, q: nat, msk: Bytes, sigma: int, gid: Bytes, a: set<Bytes>, b: set<Bytes>,
                       d0: map<Bytes, Entry>, d1: map<Bytes, Entry>, pt: Bytes) returns (key: Bytes)
    requires q > 1 && DecryptsCorrectly(p) && pt in a * b
    requires Honest(p, q, msk, sigma, gid, a, d0) && Honest(p, q, msk, (1 - sigma) % q, gid, b, d1)
    ensures key in d0 && key in d1 && Open(p, q, d0[key], d1[key]) == Some(pt)
  {
    key := AeKey(p, q, msk, gid, pt);
    assert key in AeKeys(p, q, msk, gid, a) && key in AeKeys(p, q, msk, gid, b);
    OpenHonest(p, q, msk, sigma, gid, pt);
  }

  /** A key in both honest dictionaries comes from one plaintext of both sets and opens to it. */
  lemma KeyOpens(p: Primitives, q: nat, msk: Bytes, sigma: int, gid: Bytes, a: set<Bytes>, b: set<Bytes>,
                 d0: map<Bytes, Entry>, d1: map<Bytes, Entry>, key: Bytes) returns (pt: Bytes)
    requires q > 1 && DecryptsCorrectly(p) && KeysDistinct(p, q, msk, gid, a + b)
    requires Honest(p, q, msk, sigma, gid, a, d0) && Honest(p, q, msk, (1 - sigma) % q, gid, b, d1)
    requires key in d0 && key in d1
    ensures pt in a * b && Open(p, q, d0[key], d1[key]) == Some(pt)
  {
    var x :| x in a && AeKey(p, q, msk, gid, x) == key;
    var y :| y in b && AeKey(p, q, msk, gid, y) == key;
    assert x == y;
    OpenHonest(p, q, msk, sigma, gid, x);
    pt := x;
  }

  /** The state of `encrypt`'s loop after the plaintexts `done` of `pts`. */
  ghost predicate Encrypted(p: Primitives, q: nat, msk: Bytes, sigma: int, gid: Bytes, pts: set<Bytes>, done: set<Bytes>,
                            d: map<Bytes, Entry>)
    requires q > 0
  {
    FromPlaintexts(p, q, msk, sigma, gid, done, d) &&
    (KeysDistinct(p, q, msk, gid, pts) ==> done <= pts && Honest(p, q, msk, sigma, gid, done, d))
  }

  lemma EncryptedStep(p: Primitives, q: nat, msk: Bytes, sigma: int, gid: Bytes, pts: set<Bytes>, done: set<Bytes>,
                      pt: Bytes, d: map<Bytes, Entry>)
    requires q > 0 && pt in pts && Encrypted(p, q, msk, sigma, gid, pts, done, d)
    ensures Encrypted(p, q, msk, sigma, gid, pts, done + {pt},
                      d[AeKey(p, q, msk, gid, pt) := EntryOf(p, q, msk, sigma, gid, pt)])
  {
    EncryptStep(p, q, msk, sigma, gid, done, pt, d);
    if KeysDistinct(p, q, msk, gid, pts) {
      EncryptStepHonest(p, q, msk, sigma, gid, pts, done, pt, d);
    }
  }

  /** One step of `encrypt`'s loop keeps every entry tied to a plaintext with its key. */
  lemma EncryptStep(p: Primitives, q: nat, msk: Bytes, sigma: int, gid: Bytes, done: set<Bytes>, pt: Bytes,
                    d: map<Bytes, Entry>)
    requires q > 0 && FromPlaintexts(p, q, msk, sigma, gid, done, d)
    ensures FromPlaintexts(p, q, msk, sigma, gid, done + {pt},
                           d[AeKey(p, q, msk, gid, pt) := EntryOf(p, q, msk, sigma, gid, pt)])
  {
    var d' := d[AeKey(p, q, msk, gid, pt) := EntryOf(p, q, msk, sigma, gid, pt)];
    assert AeKeys(p, q, msk, gid, done + {pt}) == AeKeys(p, q, msk, gid, done) + {AeKey(p, q, msk, gid, pt)};
    forall key | key in d'
      ensures exists x :: x in done + {pt} && AeKey(p, q, msk, gid, x) == key && d'[key] == EntryOf(p, q, msk, sigma, gid, x)
    {
      if key != AeKey(p, q, msk, gid, pt) {
        var x :| x in done && AeKey(p, q, msk, gid, x) == key && d[key] == EntryOf(p, q, msk, sigma, gid, x);
        assert x in done + {pt};
      }
    }
  }

  /** With distinct keys, one step of `encrypt`'s loop keeps every plaintext's entry under its key. */
  lemma EncryptStepHonest(p: Primitives, q: nat, msk: Bytes, sigma: int, gid: Bytes, pts: set<Bytes>, done: set<Bytes>,
                          pt: Bytes, d: map<Bytes, Entry>)
    requires q > 0 && KeysDistinct(p, q, msk, gid, pts) && done + {pt} <= pts
    requires Honest(p, q, msk, sigma, gid, done, d)
    ensures Honest(p, q, msk, sigma, gid, done + {pt},
                   d[AeKey(p, q, msk, gid, pt) := EntryOf(p, q, msk, sigma, gid, pt)])
  {
    var key := AeKey(p, q, msk, gid, pt);
    var d' := d[key := EntryOf(p, q, msk, sigma, gid, pt)];
    assert AeKeys(p, q, msk, gid, done + {pt}) == AeKeys(p, q, msk, gid, done) + {key};
    forall x | x in done + {pt}
      ensures d'[AeKey(p, q, msk, gid, x)] == EntryOf(p, q, msk, sigma, gid, x)
    {
      if x != pt {
        assert AeKey(p, q, msk, gid, x) != key;
      }
    }
  }

  /** The scheme object of `Intersection`, which records the security parameter in `setup`. */
  class Intersection {
    const q: nat
    var secpar: nat

    ghost predicate Valid()
      reads this
    {
      q > 1
    }

    constructor(q: nat)
      requires q > 1
      ensures Valid() && this.q == q
    {
      this.q := q;
      secpar := 0;
    }

    /** `setup`: the shared master key and the shares `sigma` and `1 - sigma`, which sum to 1. */
    method Setup(secpar: nat, sigma: int, msk: Bytes) returns (usks: ((Bytes, int), (Bytes, int)))
      requires Valid() && |msk| == secpar / 8
      modifies this
      ensures Valid() && this.secpar == secpar
      ensures usks.0.0 == msk && usks.1.0 == msk && usks.0.1 == sigma
      ensures 0 <= usks.1.1 < q && (usks.0.1 + usks.1.1) % q == 1
    {
      this.secpar := secpar;
      usks := ((msk, sigma), (msk, (1 - sigma) % q));
      ModAddLeft(1 - sigma, sigma, q);
    }

    /**
     * `encrypt`: one entry per plaintext, under the key `_H(k)`, holding `k ** sigma` and
     * the AES-GCM encryption of the plaintext under `_H(k)`. A later plaintext with the
     * same key overwrites an earlier one.
     */
    method Encrypt(p: Primitives, usk: (Bytes, int), gid: Bytes, pts: set<Bytes>) returns (ctDict: map<Bytes, Entry>)
      requires Valid()
      ensures FromPlaintexts(p, q, usk.0, usk.1, gid, pts, ctDict)
      ensures KeysDistinct(p, q, usk.0, gid, pts) ==> Honest(p, q, usk.0, usk.1, gid, pts, ctDict)
    {
      var msk, sigma := usk.0, usk.1;
      ctDict := map[];
      var todo := pts;
      ghost var done: set<Bytes> := {};
      while todo != {}
        invariant done + todo == pts
        invariant Encrypted(p, q, msk, sigma, gid, pts, done, ctDict)
        decreases |todo|
      {
        ghost var w := Pick(todo);
        var pt :| pt in todo;
        EncryptedStep(p, q, msk, sigma, gid, pts, done, pt, ctDict);
        ctDict := ctDict[AeKey(p, q, msk, gid, pt) := EntryOf(p, q, msk, sigma, gid, pt)];
        todo := todo - {pt};
        done := done + {pt};
      }
    }

    /**
     * `eval`: for every key in both dictionaries, recombine the shares into `k` and
     * decrypt the first client's ciphertext under `_H(k)`. A failed decryption raises in
     * the source, so every key must open.
     */
    method Eval(p: Primitives, d0: map<Bytes, Entry>, d1: map<Bytes, Entry>) returns (pts: set<Bytes>)
      requires Valid() && AllOpen(p, q, d0, d1)
      ensures pts == Opened(p, q, d0, d1)
    {
      pts := OpenAll(d0, d1, OpenWith(p, q));
    }
  }

  // `Threshold`

  /** A client key of `Threshold`: three AES keys, the share `sigma` and the exponent share `rho`. */
  datatype ThresholdKey = ThresholdKey(sk1: Bytes, sk2: Bytes, sk3: Bytes, sigma: int, rho: int)

  /**
   * A value of `Threshold`'s dictionary: the share `f(k2) ** rho` of the polynomial value,
   * `k1 ** sigma` encrypted under `_H(f(0))`, and the plaintext encrypted under `_H(k1)`.
   */
  datatype ThresholdEntry = ThresholdEntry(fShare: int, sealedShare: AeCiphertext, sealed: AeCiphertext)

  /**
   * The entry `encrypt` makes for a plaintext, given the polynomial share `fShare` and the
   * nonces it draws: `k1 = _phi(pt)`, the secret `f(0)` keys the first AES-GCM encryption
   * and `_H(k1)` the second.
   */
  function ThresholdEntryOf(p: Primitives, q: nat, encode: int -> Bytes, sk1: Bytes, gid: Bytes, secret: int,
                            sigma: int, fShare: int, n1: Bytes, n2: Bytes, pt: Bytes): (e: ThresholdEntry)
    requires q > 0
    ensures e.sealed.nonce == n2 && e.sealedShare.nonce == n1
  {
    var k1 := Phi(p, q, sk1, gid, pt);
    ThresholdEntry(fShare, AeCiphertext(n1, p.aeEnc(p.hKey(secret), n1, encode((k1 * sigma) % q))),
                   AeCiphertext(n2, p.aeEnc(p.hKey(k1), n2, pt)))
  }

  /**
   * What `eval` does with the entries of one key once it knows the secret `c0`: decrypt
   * both shares of `k1` under `_H(c0)`, recombine `k1` and decrypt the plaintext under
   * `_H(k1)`. None when a decryption fails, where the source raises.
   */
  function Recover(p: Primitives, q: nat, decode: Bytes -> int, c0: int, e0: ThresholdEntry, e1: ThresholdEntry): Option<Bytes>
    requires q > 0
  {
    var s0 := p.aeDec(p.hKey(c0), e0.sealedShare.nonce, e0.sealedShare.ct);
    var s1 := p.aeDec(p.hKey(c0), e1.sealedShare.nonce, e1.sealedShare.ct);
    if s0.None? || s1.None? then None
    else
      var k1 := (decode(s0.value) + decode(s1.value)) % q;
      p.aeDec(p.hKey(k1), e0.sealed.nonce, e0.sealed.ct)
  }

  /**
   * With the right secret, correct AES-GCM and a serialization that `decode` undoes, the
   * entries of one plaintext under complementary shares `sigma` and `1 - sigma` recover it.
   */
  lemma RecoverHonest(p: Primitives, q: nat, encode: int -> Bytes, decode: Bytes -> int, sk1: Bytes, gid: Bytes,
                      secret: int, sigma: int, fs0: int, fs1: int, n1: Bytes, n2: Bytes, n1': Bytes, n2': Bytes, pt: Bytes)
    requires q > 1 && DecryptsCorrectly(p)
    requires forall x :: 0 <= x < q ==> decode(encode(x)) == x
    ensures Recover(p, q, decode, secret,
                    ThresholdEntryOf(p, q, encode, sk1, gid, secret, sigma, fs0, n1, n2, pt),
                    ThresholdEntryOf(p, q, encode, sk1, gid, secret, (1 - sigma) % q, fs1, n1', n2', pt)) == Some(pt)
  {
    var k1 := Phi(p, q, sk1, gid, pt);
    var u, v := (k1 * sigma) % q, (k1 * ((1 - sigma) % q)) % q;
    assert decode(encode(u)) == u && decode(encode(v)) == v;
    ShareRecombine(k1, sigma, q);
  }

  /** `Recover` with the secret `c0`, as a function of the two entries. */
  function RecoverWith(p: Primitives, q: nat, decode: Bytes -> int, c0: int): (ThresholdEntry, ThresholdEntry) -> Option<Bytes>
    requires q > 0
  {
    (e0: ThresholdEntry, e1: ThresholdEntry) => Recover(p, q, decode, c0, e0, e1)
  }

  /** Every key in both dictionaries recovers a plaintext with the secret `c0`. */
  ghost predicate AllRecover(p: Primitives, q: nat, decode: Bytes -> int, c0: int,
                             d0: map<Bytes, ThresholdEntry>, d1: map<Bytes, ThresholdEntry>)
    requires q > 0
  {
    OpensAll(d0, d1, RecoverWith(p, q, decode, c0))
  }

  /** The plaintexts recovered with the secret `c0`, one per key in both dictionaries. */
  ghost function Recovered(p: Primitives, q: nat, decode: Bytes -> int, c0: int,
                           d0: map<Bytes, ThresholdEntry>, d1: map<Bytes, ThresholdEntry>): set<Bytes>
    requires q > 0 && AllRecover(p, q, decode, c0, d0, d1)
  {
    OpenedOn(d0, d1, RecoverWith(p, q, decode, c0), d0.Keys * d1.Keys)
  }

  /**
   * `sum([y * delta(xs, x) for x, y in zip(xs, ys)])` over the first `n` points: Lagrange
   * interpolation at 0 in `Z_q`.
   */
  function Interpolate(q: nat, xs: seq<int>, ys: seq<int>, n: nat): (r: int)
    requires q > 1 && |xs| == |ys| && n <= |xs|
    ensures 0 <= r < q
  {
    if n == 0 then 0
    else (Interpolate(q, xs, ys, n - 1) + (ys[n - 1] * Efficient.LagrangeCoeff(q, xs, xs[n - 1])) % q) % q
  }

  /** `xs`: the deserialized keys. */
  function Abscissae(decode: Bytes -> int, keys: seq<Bytes>): (xs: seq<int>)
    ensures |xs| == |keys| && forall i :: 0 <= i < |keys| ==> xs[i] == decode(keys[i])
  {
    seq(|keys|, i requires 0 <= i < |keys| => decode(keys[i]))
  }

  /** `ys`: the products of the two clients' shares of `f(x)`. */
  function Ordinates(q: nat, d0: map<Bytes, ThresholdEntry>, d1: map<Bytes, ThresholdEntry>, keys: seq<Bytes>): (ys: seq<int>)
    requires q > 0 && forall i :: 0 <= i < |keys| ==> keys[i] in d0 && keys[i] in d1
    ensures |ys| == |keys|
    ensures forall i :: 0 <= i < |keys| ==> ys[i] == (d0[keys[i]].fShare * d1[keys[i]].fShare) % q
  {
    seq(|keys|, i requires 0 <= i < |keys| && keys[i] in d0 && keys[i] in d1 =>
      (d0[keys[i]].fShare * d1[keys[i]].fShare) % q)
  }

  /**
   * The `islice` loop of `eval`: for each of the keys `keys`, in order, appends the
   * deserialized key to `xs` and the product of the two clients' shares to `ys`.
   */
  method CollectPoints(q: nat, decode: Bytes -> int, d0: map<Bytes, ThresholdEntry>, d1: map<Bytes, ThresholdEntry>,
                       keys: seq<Bytes>) returns (xs: seq<int>, ys: seq<int>)
    requires q > 0 && forall i :: 0 <= i < |keys| ==> keys[i] in d0 && keys[i] in d1
    ensures xs == Abscissae(decode, keys) && ys == Ordinates(q, d0, d1, keys)
  {
    xs, ys := [], [];
    for n := 0 to |keys|
      invariant |xs| == n && forall i :: 0 <= i < n ==> xs[i] == decode(keys[i])
      invariant |ys| == n && forall i :: 0 <= i < n ==> ys[i] == (d0[keys[i]].fShare * d1[keys[i]].fShare) % q
    {
      var k := keys[n];
      xs := xs + [decode(k)];
      ys := ys + [(d0[k].fShare * d1[k].fShare) % q];
    }
  }

  /** `c0`, interpolated from the points of the keys `keys`. */
  function Secret(q: nat, decode: Bytes -> int, d0: map<Bytes, ThresholdEntry>, d1: map<Bytes, ThresholdEntry>,
                  keys: seq<Bytes>): (c0: int)
    requires q > 1 && forall i :: 0 <= i < |keys| ==> keys[i] in d0 && keys[i] in d1
    ensures 0 <= c0 < q
  {
    Interpolate(q, Abscissae(decode, keys), Ordinates(q, d0, d1, keys), |keys|)
  }

  /** The loop computing `c0`, with `delta` as a nested loop. */
  method RecoverSecret(q: nat, xs: seq<int>, ys: seq<int>) returns (c0: int)
    requires q > 1 && |xs| == |ys|
    ensures c0 == Interpolate(q, xs, ys, |xs|)
  {
    c0 := 0;
    for n := 0 to |xs|
      invariant c0 == Interpolate(q, xs, ys, n)
    {
      var d := Efficient.Delta(q, xs, xs[n]);
      c0 := (c0 + (ys[n] * d) % q) % q;
    }
  }

  /** `order` lists the set `s` without repetition: the iteration order of a Python set. */
  ghost predicate Enumerates(order: seq<Bytes>, s: set<Bytes>)
  {
    |order| == |s| && (forall i :: 0 <= i < |order| ==> order[i] in s) &&
    forall i, j :: 0 <= i < j < |order| ==> order[i] != order[j]
  }

  /** The scheme object of `Threshold`, which records its parameters in `setup`. */
  class Threshold {
    const q: nat
    var secpar: nat
    var threshold: nat
    var ffOrder: int

    ghost predicate Valid()
      reads this
    {
      q > 2
    }

    constructor(q: nat)
      requires q > 2
      ensures Valid() && this.q == q
    {
      this.q := q;
      secpar, threshold, ffOrder := 0, 0, 0;
    }

    /**
     * `setup`: three shared AES keys, the shares `sigma` and `1 - sigma` of the group
     * exponent and the shares `rho1` and `(1 - rho1) % (q - 1)` of the exponent applied
     * to the polynomial values; both pairs sum to 1 in their moduli.
     */
    method Setup(secpar: nat, threshold: nat, sigma: int, rho1: nat, sk1: Bytes, sk2: Bytes, sk3: Bytes)
      returns (usks: (ThresholdKey, ThresholdKey))
      requires Valid() && rho1 < q
      requires |sk1| == secpar / 8 && |sk2| == secpar / 8 && |sk3| == secpar / 8
      modifies this
      ensures Valid() && this.secpar == secpar && this.threshold == threshold && ffOrder == q - 1
      ensures usks.0 == ThresholdKey(sk1, sk2, sk3, sigma, rho1)
      ensures usks.1.sk1 == sk1 && usks.1.sk2 == sk2 && usks.1.sk3 == sk3
      ensures 0 <= usks.1.sigma < q && (usks.0.sigma + usks.1.sigma) % q == 1
      ensures 0 <= usks.1.rho < ffOrder && (usks.0.rho + usks.1.rho) % ffOrder == 1
    {
      var order := q;
      var ff := order - 1;
      var rho2 := (1 - rho1) % ff;
      usks := (ThresholdKey(sk1, sk2, sk3, sigma, rho1), ThresholdKey(sk1, sk2, sk3, (1 - sigma) % order, rho2));
      ModAddLeft(1 - sigma, sigma, order);
      ModAddLeft(1 - rho1, rho1, ff);
      ModUnique(1, order, 0, 1);
      ModUnique(1, ff, 0, 1);
      assert (sigma + (1 - sigma) % order) % order == 1;
      assert (rho1 + rho2) % ff == 1;
      this.secpar, this.threshold, ffOrder := secpar, threshold, ff;
    }

    /**
     * `eval`: the cardinality is the number of keys in both dictionaries. Below the
     * threshold nothing is decrypted; otherwise the first `threshold` keys in the set's
     * iteration order `order` give the points from which `c0` is interpolated, and every
     * key's plaintext is recovered with it.
     */
    method Eval(p: Primitives, decode: Bytes -> int, d0: map<Bytes, ThresholdEntry>, d1: map<Bytes, ThresholdEntry>,
                order: seq<Bytes>) returns (cardinality: nat, pts: set<Bytes>)
      requires Valid() && Enumerates(order, d0.Keys * d1.Keys)
      requires threshold <= |order| ==>
        AllRecover(p, q, decode, Secret(q, decode, d0, d1, order[..threshold]), d0, d1)
      ensures cardinality == |d0.Keys * d1.Keys|
      ensures cardinality < threshold ==> pts == {}
      ensures cardinality >= threshold ==>
        pts == Recovered(p, q, decode, Secret(q, decode, d0, d1, order[..threshold]), d0, d1)
    {
      var both := d0.Keys * d1.Keys;
      cardinality := |both|;
      pts := {};
      if cardinality >= threshold {
        var points := order[..threshold];
        var xs, ys := CollectPoints(q, decode, d0, d1, points);
        var c0 := RecoverSecret(q, xs, ys);
        pts := OpenAll(d0, d1, RecoverWith(p, q, decode, c0));
      }
    }
  }
}
