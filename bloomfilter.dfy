/**
 * `BloomFilter` and its nested `BitString` (nipsi/multiclient.py). The bit string
 * owns a `bytearray` that its methods update in place; the Bloom filter owns a bit
 * string and the list `_h` of its `k` probe functions.
 */
module BloomFilters {
  import opened ByteStrings
  import opened BitStrings

  class BitString {
    const l: nat
    const bytes: array<bv8>

    ghost predicate Valid()
      reads this
    {
      bytes.Length == NumBytes(l)
    }

    /** `BitString(l)`: `(l + 7) // 8` zero bytes. */
    constructor (l: nat)
      ensures Valid() && this.l == l && fresh(bytes)
      ensures bytes[..] == Zeros(NumBytes(l))
    {
      this.l := l;
      bytes := new bv8[NumBytes(l)](_ => 0);
    }

    /** `bs[key]`: bit `key % 8` of byte `key // 8`, always 0 or 1. */
    method Get(key: nat) returns (bit: nat)
      requires Valid() && key / 8 < bytes.Length
      ensures bit == GetBit(bytes[..], key)
      ensures bit <= 1
    {
      var byteIndex := key / 8;
      var b := bytes[byteIndex];
      var shift := key % 8;
      var bitIndex: bv8 := 1 << shift;
      bit := ((b & bitIndex) >> shift) as nat;
    }

    /**
     * `bs[key] = value`: the value must be a bit, but the bit is set to 1 whatever
     * it is; every other bit keeps its value.
     */
    method Set(key: nat, value: nat)
      requires Valid() && key / 8 < bytes.Length
      requires value == 0 || value == 1
      modifies bytes
      ensures bytes[..] == SetBit(old(bytes[..]), key)
      ensures GetBit(bytes[..], key) == 1
      ensures forall k :: 0 <= k < 8 * bytes.Length && k != key ==> GetBit(bytes[..], k) == GetBit(old(bytes[..]), k)
    {
      var byteIndex := key / 8;
      var shift := key % 8;
      var bitIndex: bv8 := 1 << shift;
      bytes[byteIndex] := bytes[byteIndex] | bitIndex;
      assert bytes[..] == SetBit(old(bytes[..]), key);
      SetBitSpec(old(bytes[..]), key);
    }

    /** `self & other`: a fresh bit string holding the bytewise AND of the first `l // 8` bytes. */
    method And(other: BitString) returns (r: BitString)
      requires Valid() && other.Valid() && l == other.l
      ensures fresh(r) && fresh(r.bytes) && r.Valid() && r.l == l
      ensures r.bytes[..] == AndBytes(bytes[..], other.bytes[..], l)
    {
      r := new BitString(l);
      for i := 0 to l / 8
        invariant r.bytes[..i] == AndBytes(bytes[..], other.bytes[..], l)[..i]
        invariant forall j :: i <= j < r.bytes.Length ==> r.bytes[j] == 0
      {
        r.bytes[i] := bytes[i] & other.bytes[i];
      }
      assert r.bytes[..] == r.bytes[..l / 8] + r.bytes[l / 8..];
    }

    /** `self | other`: a fresh bit string holding the bytewise OR of the first `l // 8` bytes. */
    method Or(other: BitString) returns (r: BitString)
      requires Valid() && other.Valid() && l == other.l
      ensures fresh(r) && fresh(r.bytes) && r.Valid() && r.l == l
      ensures r.bytes[..] == OrBytes(bytes[..], other.bytes[..], l)
    {
      r := new BitString(l);
      for i := 0 to l / 8
        invariant r.bytes[..i] == OrBytes(bytes[..], other.bytes[..], l)[..i]
        invariant forall j :: i <= j < r.bytes.Length ==> r.bytes[j] == 0
      {
        r.bytes[i] := bytes[i] | other.bytes[i];
      }
      assert r.bytes[..] == r.bytes[..l / 8] + r.bytes[l / 8..];
    }

    /** `weight()`: the table-driven popcount, which is the number of set bits. */
    function Weight(): (w: nat)
      requires Valid()
      reads this, bytes
      ensures w == CountOnes(bytes[..], 8 * bytes.Length)
    {
      TableWeightCountsBits(bytes[..]);
      TableWeight(bytes[..])
    }
  }

  /** The mmh3 hash functions, both of them foreign: 32-bit `hash` and 128-bit `hash128`. */
  datatype Mmh3 = Mmh3(hash: Bytes -> int, hash128: Bytes -> int)

  /** One probe `lambda y: H(prefix + y) % m` of the list `_h`. */
  datatype Probe = Probe(hash: Bytes -> int, prefix: Bytes, m: nat)

  /** The bit a probe selects: always an index of the filter's bit string. */
  function ProbeIndex(p: Probe, y: Bytes): (r: nat)
    requires p.m > 0
    ensures r < p.m
  {
    p.hash(p.prefix + y) % p.m
  }

  /** `i.to_bytes(k.bit_length(), 'big')`, the prefix of probe `i`. */
  function ProbePrefix(i: nat, k: nat): (r: Bytes)
    requires i < k
    ensures |r| == BitLength(k)
  {
    Pow2BelowPow256(BitLength(k));
    ToBytesBE(i, BitLength(k))
  }

  /** The `k` probes of `BloomFilter(m, k)`, over `hash128` when `m` needs more than 32 bits. */
  function MakeProbes(m: nat, k: nat, lib: Mmh3): (r: seq<Probe>)
    ensures |r| == k
    ensures forall i :: 0 <= i < k ==> r[i].m == m
  {
    var H := if BitLength(m) > 32 then lib.hash128 else lib.hash;
    seq(k, i requires 0 <= i < k => Probe(H, ProbePrefix(i, k), m))
  }

  /** No two probes share a prefix, and every probe uses the hash `m`'s size selects. */
  lemma ProbePrefixesDistinct(m: nat, k: nat, lib: Mmh3)
    ensures forall i, j :: 0 <= i < j < k ==> MakeProbes(m, k, lib)[i].prefix != MakeProbes(m, k, lib)[j].prefix
    ensures forall i :: 0 <= i < k ==>
      MakeProbes(m, k, lib)[i].hash == if BitLength(m) > 32 then lib.hash128 else lib.hash
  {
    var ps := MakeProbes(m, k, lib);
    forall i, j | 0 <= i < j < k
      ensures ps[i].prefix != ps[j].prefix
    {
      Pow2BelowPow256(BitLength(k));
      ToBytesBEInjective(i, j, BitLength(k));
    }
  }

  /** The bits an element's probes select, in probe order. */
  function ProbeIndices(ps: seq<Probe>, y: Bytes): (r: seq<nat>)
    requires forall i :: 0 <= i < |ps| ==> ps[i].m > 0
    ensures |r| == |ps|
    ensures forall i :: 0 <= i < |ps| ==> r[i] < ps[i].m
  {
    seq(|ps|, i requires 0 <= i < |ps| => ProbeIndex(ps[i], y))
  }

  class BloomFilter {
    const m: nat
    const k: nat
    const lib: Mmh3
    var bs: BitString
    var h: seq<Probe>

    ghost predicate Valid()
      reads this, bs
    {
      bs.Valid() && bs.l == m && |h| == k && forall i :: 0 <= i < |h| ==> h[i].m == m
    }

    /** `BloomFilter(m, k)`: an all-zero bit string of `m` bits and `k` probes. */
    constructor (m: nat, k: nat, lib: Mmh3)
      ensures Valid() && this.m == m && this.k == k && this.lib == lib
      ensures h == MakeProbes(m, k, lib)
      ensures fresh(bs) && fresh(bs.bytes) && bs.bytes[..] == Zeros(NumBytes(m))
    {
      this.m := m;
      this.k := k;
      this.lib := lib;
      bs := new BitString(m);
      h := MakeProbes(m, k, lib);
    }

    /** `item in bf`: every probe of `item` selects a set bit (`% m` fails when `m == 0`). */
    predicate Contains(item: Bytes)
      requires Valid() && (m > 0 || k == 0)
      reads this, bs, bs.bytes
      ensures Contains(item) <==>
        forall key :: key in ProbeIndices(h, item) ==> key < m && GetBit(bs.bytes[..], key) == 1
    {
      var ks := ProbeIndices(h, item);
      var c := forall i :: 0 <= i < |h| ==> ContainsAt(item, i);
      assert c ==> forall key :: key in ks ==> key < m && GetBit(bs.bytes[..], key) == 1 by {
        if c {
          forall key | key in ks ensures key < m && GetBit(bs.bytes[..], key) == 1 {
            var i :| 0 <= i < |ks| && ks[i] == key;
            assert ContainsAt(item, i);
          }
        }
      }
      assert (forall key :: key in ks ==> key < m && GetBit(bs.bytes[..], key) == 1) ==> c by {
        if forall key :: key in ks ==> key < m && GetBit(bs.bytes[..], key) == 1 {
          forall i | 0 <= i < |h| ensures ContainsAt(item, i) {
            assert ks[i] in ks;
          }
        }
      }
      c
    }

    predicate ContainsAt(item: Bytes, i: nat)
      requires Valid() && (m > 0 || k == 0) && i < |h|
      reads this, bs, bs.bytes
    {
      KeyInRange(ProbeIndex(h[i], item), m);
      GetBit(bs.bytes[..], ProbeIndex(h[i], item)) == 1
    }

    /**
     * `add(elem)`: sets the bits of `elem`'s probes and no others, so `elem` is then
     * contained and every element contained before still is.
     */
    method Add(elem: Bytes)
      requires Valid() && (m > 0 || k == 0)
      modifies bs.bytes
      ensures Valid()
      ensures forall key :: 0 <= key < 8 * bs.bytes.Length ==>
        (GetBit(bs.bytes[..], key) == 1 <==> GetBit(old(bs.bytes[..]), key) == 1 || key in ProbeIndices(h, elem))
      ensures Contains(elem)
      ensures forall y :: old(Contains(y)) ==> Contains(y)
    {
      ghost var before := bs.bytes[..];
      for i := 0 to |h|
        invariant forall key :: 0 <= key < 8 * bs.bytes.Length ==>
          (GetBit(bs.bytes[..], key) == 1 <==> GetBit(before, key) == 1 || key in ProbeIndices(h[..i], elem))
      {
        var key := ProbeIndex(h[i], elem);
        KeyInRange(key, m);
        bs.Set(key, 1);
        assert ProbeIndices(h[..i + 1], elem) == ProbeIndices(h[..i], elem) + [key];
      }
      assert h[..|h|] == h;
      forall i | 0 <= i < |h|
        ensures ContainsAt(elem, i)
      {
        KeyInRange(ProbeIndex(h[i], elem), m);
        assert ProbeIndices(h, elem)[i] == ProbeIndex(h[i], elem);
      }
      forall y | old(Contains(y))
        ensures Contains(y)
      {
        forall i | 0 <= i < |h|
          ensures ContainsAt(y, i)
        {
          assert old(ContainsAt(y, i));
          KeyInRange(ProbeIndex(h[i], y), m);
        }
      }
    }

    /** `weight()`: the number of set bits of the filter. */
    function Weight(): (w: nat)
      requires Valid()
      reads this, bs, bs.bytes
      ensures w == CountOnes(bs.bytes[..], 8 * bs.bytes.Length)
    {
      bs.Weight()
    }

    /** `empty()`: a fresh filter with the same size and the very same probes, no bit set. */
    method Empty() returns (bf: BloomFilter)
      requires Valid()
      ensures fresh(bf) && fresh(bf.bs) && fresh(bf.bs.bytes)
      ensures bf.Valid() && bf.m == m && bf.k == k && bf.h == h
      ensures bf.bs.bytes[..] == Zeros(NumBytes(m))
    {
      bf := new BloomFilter(m, k, lib);
      bf.h := h;
    }

    /** `union(other)`: a fresh filter whose bits are `self.bs | other.bs`; both operands stay as they were. */
    method Union(other: BloomFilter) returns (bf: BloomFilter)
      requires Valid() && other.Valid() && other.m == m
      ensures fresh(bf) && fresh(bf.bs) && fresh(bf.bs.bytes)
      ensures bf.Valid() && bf.m == m && bf.k == k && bf.h == h
      ensures bf.bs.bytes[..] == OrBytes(bs.bytes[..], other.bs.bytes[..], m)
    {
      bf := Empty();
      bf.bs := bs.Or(other.bs);
    }

    /**
     * `intersection(other)`: a fresh filter whose bits are `self.bs & other.bs`, so
     * its weight is at most either operand's; both operands stay as they were.
     */
    method Intersection(other: BloomFilter) returns (bf: BloomFilter)
      requires Valid() && other.Valid() && other.m == m
      ensures fresh(bf) && fresh(bf.bs) && fresh(bf.bs.bytes)
      ensures bf.Valid() && bf.m == m && bf.k == k && bf.h == h
      ensures bf.bs.bytes[..] == AndBytes(bs.bytes[..], other.bs.bytes[..], m)
      ensures bf.Weight() <= Weight() && bf.Weight() <= other.Weight()
    {
      bf := Empty();
      bf.bs := bs.And(other.bs);
      AndBytesWeight(bs.bytes[..], other.bs.bytes[..], m);
      TableWeightCountsBits(bf.bs.bytes[..]);
      TableWeightCountsBits(bs.bytes[..]);
      TableWeightCountsBits(other.bs.bytes[..]);
    }
  }
}
