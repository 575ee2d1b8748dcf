/**
 * The bit-level meaning of `BloomFilter.BitString`'s backing `bytearray`: bit `key`
 * lives in byte `key / 8` at position `key % 8` (least significant bit first).
 */
module BitStrings {
  import opened ByteStrings

  /** The contents of a `bytearray` of bits. */
  type Octets = seq<bv8>

  /** The number of bytes backing a bit string of `l` bits: `(l + 7) // 8`. */
  function NumBytes(l: nat): nat
  {
    (l + 7) / 8
  }

  lemma KeyInRange(key: nat, l: nat)
    requires key < l
    ensures key / 8 < NumBytes(l)
  {
  }

  lemma SameByteOtherBit(k: nat, key: nat)
    requires k != key && k / 8 == key / 8
    ensures k % 8 != key % 8
  {
  }

  /** A freshly allocated `bytearray(n)`. */
  function Zeros(n: nat): (r: Octets)
    ensures |r| == n
  {
    seq(n, _ => 0)
  }

  /** Bit `j` of byte `b`, read as `(b & (1 << j)) >> j`. */
  function Bit(b: bv8, j: nat): (r: nat)
    requires j < 8
    ensures r <= 1
  {
    ((b & (1 << j)) >> j) as nat
  }

  /** The number of 1-bits of `b`, counted shift by shift. */
  function PopCount(b: bv8): nat
  {
    (b & 1) as nat + ((b >> 1) & 1) as nat + ((b >> 2) & 1) as nat + ((b >> 3) & 1) as nat
    + ((b >> 4) & 1) as nat + ((b >> 5) & 1) as nat + ((b >> 6) & 1) as nat + ((b >> 7) & 1) as nat
  }

  lemma BitIsShift(b: bv8, j: nat)
    requires j < 8
    ensures Bit(b, j) == ((b >> j) & 1) as nat
  {
  }

  /** The popcount table `BitString.bit_weights`, entry `b` for byte value `b`. */
  const BitWeights: seq<nat> :=
    [0, 1, 1, 2, 1, 2, 2, 3, 1, 2, 2, 3, 2, 3, 3, 4]
    + [1, 2, 2, 3, 2, 3, 3, 4, 2, 3, 3, 4, 3, 4, 4, 5]
    + [1, 2, 2, 3, 2, 3, 3, 4, 2, 3, 3, 4, 3, 4, 4, 5]
    + [2, 3, 3, 4, 3, 4, 4, 5, 3, 4, 4, 5, 4, 5, 5, 6]
    + [1, 2, 2, 3, 2, 3, 3, 4, 2, 3, 3, 4, 3, 4, 4, 5]
    + [2, 3, 3, 4, 3, 4, 4, 5, 3, 4, 4, 5, 4, 5, 5, 6]
    + [2, 3, 3, 4, 3, 4, 4, 5, 3, 4, 4, 5, 4, 5, 5, 6]
    + [3, 4, 4, 5, 4, 5, 5, 6, 4, 5, 5, 6, 5, 6, 6, 7]
    + [1, 2, 2, 3, 2, 3, 3, 4, 2, 3, 3, 4, 3, 4, 4, 5]
    + [2, 3, 3, 4, 3, 4, 4, 5, 3, 4, 4, 5, 4, 5, 5, 6]
    + [2, 3, 3, 4, 3, 4, 4, 5, 3, 4, 4, 5, 4, 5, 5, 6]
    + [3, 4, 4, 5, 4, 5, 5, 6, 4, 5, 5, 6, 5, 6, 6, 7]
    + [2, 3, 3, 4, 3, 4, 4, 5, 3, 4, 4, 5, 4, 5, 5, 6]
    + [3, 4, 4, 5, 4, 5, 5, 6, 4, 5, 5, 6, 5, 6, 6, 7]
    + [3, 4, 4, 5, 4, 5, 5, 6, 4, 5, 5, 6, 5, 6, 6, 7]
    + [4, 5, 5, 6, 5, 6, 6, 7, 5, 6, 6, 7, 6, 7, 7, 8]

  lemma BitWeightsBlock0(b: bv8)
    requires 0 <= b as int < 16
    ensures BitWeights[b as int] == PopCount(b)
  {
    if b == 0 {} else if b == 1 {} else if b == 2 {} else if b == 3 {}
    else if b == 4 {} else if b == 5 {} else if b == 6 {} else if b == 7 {}
    else if b == 8 {} else if b == 9 {} else if b == 10 {} else if b == 11 {}
    else if b == 12 {} else if b == 13 {} else if b == 14 {} else {}
  }

  lemma BitWeightsBlock1(b: bv8)
    requires 16 <= b as int < 32
    ensures BitWeights[b as int] == PopCount(b)
  {
    if b == 16 {} else if b == 17 {} else if b == 18 {} else if b == 19 {}
    else if b == 20 {} else if b == 21 {} else if b == 22 {} else if b == 23 {}
    else if b == 24 {} else if b == 25 {} else if b == 26 {} else if b == 27 {}
    else if b == 28 {} else if b == 29 {} else if b == 30 {} else {}
  }

  lemma BitWeightsBlock2(b: bv8)
    requires 32 <= b as int < 48
    ensures BitWeights[b as int] == PopCount(b)
  {
    if b == 32 {} else if b == 33 {} else if b == 34 {} else if b == 35 {}
    else if b == 36 {} else if b == 37 {} else if b == 38 {} else if b == 39 {}
    else if b == 40 {} else if b == 41 {} else if b == 42 {} else if b == 43 {}
    else if b == 44 {} else if b == 45 {} else if b == 46 {} else {}
  }

  lemma BitWeightsBlock3(b: bv8)
    requires 48 <= b as int < 64
    ensures BitWeights[b as int] == PopCount(b)
  {
    if b == 48 {} else if b == 49 {} else if b == 50 {} else if b == 51 {}
    else if b == 52 {} else if b == 53 {} else if b == 54 {} else if b == 55 {}
    else if b == 56 {} else if b == 57 {} else if b == 58 {} else if b == 59 {}
    else if b == 60 {} else if b == 61 {} else if b == 62 {} else {}
  }

  lemma BitWeightsBlock4(b: bv8)
    requires 64 <= b as int < 80
    ensures BitWeights[b as int] == PopCount(b)
  {
    if b == 64 {} else if b == 65 {} else if b == 66 {} else if b == 67 {}
    else if b == 68 {} else if b == 69 {} else if b == 70 {} else if b == 71 {}
    else if b == 72 {} else if b == 73 {} else if b == 74 {} else if b == 75 {}
    else if b == 76 {} else if b == 77 {} else if b == 78 {} else {}
  }

  lemma BitWeightsBlock5(b: bv8)
    requires 80 <= b as int < 96
    ensures BitWeights[b as int] == PopCount(b)
  {
    if b == 80 {} else if b == 81 {} else if b == 82 {} else if b == 83 {}
    else if b == 84 {} else if b == 85 {} else if b == 86 {} else if b == 87 {}
    else if b == 88 {} else if b == 89 {} else if b == 90 {} else if b == 91 {}
    else if b == 92 {} else if b == 93 {} else if b == 94 {} else {}
  }

  lemma BitWeightsBlock6(b: bv8)
    requires 96 <= b as int < 112
    ensures BitWeights[b as int] == PopCount(b)
  {
    if b == 96 {} else if b == 97 {} else if b == 98 {} else if b == 99 {}
    else if b == 100 {} else if b == 101 {} else if b == 102 {} else if b == 103 {}
    else if b == 104 {} else if b == 105 {} else if b == 106 {} else if b == 107 {}
    else if b == 108 {} else if b == 109 {} else if b == 110 {} else {}
  }

  lemma BitWeightsBlock7(b: bv8)
    requires 112 <= b as int < 128
    ensures BitWeights[b as int] == PopCount(b)
  {
    if b == 112 {} else if b == 113 {} else if b == 114 {} else if b == 115 {}
    else if b == 116 {} else if b == 117 {} else if b == 118 {} else if b == 119 {}
    else if b == 120 {} else if b == 121 {} else if b == 122 {} else if b == 123 {}
    else if b == 124 {} else if b == 125 {} else if b == 126 {} else {}
  }

  lemma BitWeightsBlock8(b: bv8)
    requires 128 <= b as int < 144
    ensures BitWeights[b as int] == PopCount(b)
  {
    if b == 128 {} else if b == 129 {} else if b == 130 {} else if b == 131 {}
    else if b == 132 {} else if b == 133 {} else if b == 134 {} else if b == 135 {}
    else if b == 136 {} else if b == 137 {} else if b == 138 {} else if b == 139 {}
    else if b == 140 {} else if b == 141 {} else if b == 142 {} else {}
  }

  lemma BitWeightsBlock9(b: bv8)
    requires 144 <= b as int < 160
    ensures BitWeights[b as int] == PopCount(b)
  {
    if b == 144 {} else if b == 145 {} else if b == 146 {} else if b == 147 {}
    else if b == 148 {} else if b == 149 {} else if b == 150 {} else if b == 151 {}
    else if b == 152 {} else if b == 153 {} else if b == 154 {} else if b == 155 {}
    else if b == 156 {} else if b == 157 {} else if b == 158 {} else {}
  }

  lemma BitWeightsBlock10(b: bv8)
    requires 160 <= b as int < 176
    ensures BitWeights[b as int] == PopCount(b)
  {
    if b == 160 {} else if b == 161 {} else if b == 162 {} else if b == 163 {}
    else if b == 164 {} else if b == 165 {} else if b == 166 {} else if b == 167 {}
    else if b == 168 {} else if b == 169 {} else if b == 170 {} else if b == 171 {}
    else if b == 172 {} else if b == 173 {} else if b == 174 {} else {}
  }

  lemma BitWeightsBlock11(b: bv8)
    requires 176 <= b as int < 192
    ensures BitWeights[b as int] == PopCount(b)
  {
    if b == 176 {} else if b == 177 {} else if b == 178 {} else if b == 179 {}
    else if b == 180 {} else if b == 181 {} else if b == 182 {} else if b == 183 {}
    else if b == 184 {} else if b == 185 {} else if b == 186 {} else if b == 187 {}
    else if b == 188 {} else if b == 189 {} else if b == 190 {} else {}
  }

  lemma BitWeightsBlock12(b: bv8)
    requires 192 <= b as int < 208
    ensures BitWeights[b as int] == PopCount(b)
  {
    if b == 192 {} else if b == 193 {} else if b == 194 {} else if b == 195 {}
    else if b == 196 {} else if b == 197 {} else if b == 198 {} else if b == 199 {}
    else if b == 200 {} else if b == 201 {} else if b == 202 {} else if b == 203 {}
    else if b == 204 {} else if b == 205 {} else if b == 206 {} else {}
  }

  lemma BitWeightsBlock13(b: bv8)
    requires 208 <= b as int < 224
    ensures BitWeights[b as int] == PopCount(b)
  {
    if b == 208 {} else if b == 209 {} else if b == 210 {} else if b == 211 {}
    else if b == 212 {} else if b == 213 {} else if b == 214 {} else if b == 215 {}
    else if b == 216 {} else if b == 217 {} else if b == 218 {} else if b == 219 {}
    else if b == 220 {} else if b == 221 {} else if b == 222 {} else {}
  }

  lemma BitWeightsBlock14(b: bv8)
    requires 224 <= b as int < 240
    ensures BitWeights[b as int] == PopCount(b)
  {
    if b == 224 {} else if b == 225 {} else if b == 226 {} else if b == 227 {}
    else if b == 228 {} else if b == 229 {} else if b == 230 {} else if b == 231 {}
    else if b == 232 {} else if b == 233 {} else if b == 234 {} else if b == 235 {}
    else if b == 236 {} else if b == 237 {} else if b == 238 {} else {}
  }

  lemma BitWeightsBlock15(b: bv8)
    requires 240 <= b as int < 256
    ensures BitWeights[b as int] == PopCount(b)
  {
    if b == 240 {} else if b == 241 {} else if b == 242 {} else if b == 243 {}
    else if b == 244 {} else if b == 245 {} else if b == 246 {} else if b == 247 {}
    else if b == 248 {} else if b == 249 {} else if b == 250 {} else if b == 251 {}
    else if b == 252 {} else if b == 253 {} else if b == 254 {} else {}
  }

  /** Every entry of the table is the popcount of its index. */
  lemma BitWeightsArePopCounts(b: bv8)
    ensures |BitWeights| == 256 && BitWeights[b as int] == PopCount(b)
  {
    var hi := b as int / 16;
    if hi == 0 { BitWeightsBlock0(b); }
    else if hi == 1 { BitWeightsBlock1(b); }
    else if hi == 2 { BitWeightsBlock2(b); }
    else if hi == 3 { BitWeightsBlock3(b); }
    else if hi == 4 { BitWeightsBlock4(b); }
    else if hi == 5 { BitWeightsBlock5(b); }
    else if hi == 6 { BitWeightsBlock6(b); }
    else if hi == 7 { BitWeightsBlock7(b); }
    else if hi == 8 { BitWeightsBlock8(b); }
    else if hi == 9 { BitWeightsBlock9(b); }
    else if hi == 10 { BitWeightsBlock10(b); }
    else if hi == 11 { BitWeightsBlock11(b); }
    else if hi == 12 { BitWeightsBlock12(b); }
    else if hi == 13 { BitWeightsBlock13(b); }
    else if hi == 14 { BitWeightsBlock14(b); }
    else { BitWeightsBlock15(b); }
  }

  /** `BitString.__getitem__`: `(byte & (1 << shift)) >> shift`. */
  function GetBit(s: Octets, key: nat): (r: nat)
    requires key / 8 < |s|
    ensures r <= 1
  {
    Bit(s[key / 8], key % 8)
  }

  /** `BitString.__setitem__`: ORs bit `key % 8` into byte `key // 8`, whatever the value. */
  function SetBit(s: Octets, key: nat): (r: Octets)
    requires key / 8 < |s|
    ensures |r| == |s|
  {
    s[key / 8 := s[key / 8] | (1 << (key % 8))]
  }

  lemma BitOfOr(b: bv8, c: bv8, j: nat)
    requires j < 8
    ensures Bit(b | c, j) == if Bit(b, j) == 1 || Bit(c, j) == 1 then 1 else 0
  {
  }

  lemma BitOfAnd(b: bv8, c: bv8, j: nat)
    requires j < 8
    ensures Bit(b & c, j) == Bit(b, j) * Bit(c, j)
  {
  }

  lemma BitOfMask(b: bv8, j: nat, i: nat)
    requires j < 8 && i < 8
    ensures Bit(b | (1 << j), i) == if i == j then 1 else Bit(b, i)
  {
  }

  lemma BitOfZero(j: nat)
    requires j < 8
    ensures Bit(0, j) == 0
  {
  }

  /** A fresh bit string has every bit clear. */
  lemma ZerosHaveNoBits(n: nat, key: nat)
    requires key < 8 * n
    ensures GetBit(Zeros(n), key) == 0
  {
    BitOfZero(key % 8);
  }

  lemma SetBitAt(s: Octets, key: nat, k: nat)
    requires key / 8 < |s| && k / 8 < |s|
    ensures GetBit(SetBit(s, key), k) == if k == key then 1 else GetBit(s, k)
  {
    var r := SetBit(s, key);
    if k / 8 == key / 8 {
      if k != key {
        SameByteOtherBit(k, key);
      }
      BitOfMask(s[key / 8], key % 8, k % 8);
    } else {
      assert r[k / 8] == s[k / 8];
    }
  }

  /**
   * Setting a bit leaves it at 1 and every other bit as it was, so `bs[key] = 0`
   * also sets the bit.
   */
  lemma SetBitSpec(s: Octets, key: nat)
    requires key / 8 < |s|
    ensures GetBit(SetBit(s, key), key) == 1
    ensures forall k :: 0 <= k < 8 * |s| && k != key ==> GetBit(SetBit(s, key), k) == GetBit(s, k)
  {
    SetBitAt(s, key, key);
    forall k | 0 <= k < 8 * |s| && k != key
      ensures GetBit(SetBit(s, key), k) == GetBit(s, k)
    {
      SetBitAt(s, key, k);
    }
  }

  /** `BitString.__and__`: bytewise AND over the first `l // 8` bytes; the rest stay 0. */
  function AndBytes(a: Octets, b: Octets, l: nat): (r: Octets)
    requires |a| == |b| == NumBytes(l)
    ensures |r| == |a|
  {
    seq(|a|, i requires 0 <= i < |a| => if i < l / 8 then a[i] & b[i] else 0)
  }

  /** `BitString.__or__`: bytewise OR over the first `l // 8` bytes; the rest stay 0. */
  function OrBytes(a: Octets, b: Octets, l: nat): (r: Octets)
    requires |a| == |b| == NumBytes(l)
    ensures |r| == |a|
  {
    seq(|a|, i requires 0 <= i < |a| => if i < l / 8 then a[i] | b[i] else 0)
  }

  lemma AndBytesAt(a: Octets, b: Octets, l: nat, key: nat)
    requires |a| == |b| == NumBytes(l) && key / 8 < |a|
    ensures GetBit(AndBytes(a, b, l), key) == if key < 8 * (l / 8) then GetBit(a, key) * GetBit(b, key) else 0
  {
    if key < 8 * (l / 8) {
      BitOfAnd(a[key / 8], b[key / 8], key % 8);
    } else {
      BitOfZero(key % 8);
    }
  }

  lemma OrBytesAt(a: Octets, b: Octets, l: nat, key: nat)
    requires |a| == |b| == NumBytes(l) && key / 8 < |a|
    ensures GetBit(OrBytes(a, b, l), key) ==
      if key < 8 * (l / 8) && (GetBit(a, key) == 1 || GetBit(b, key) == 1) then 1 else 0
  {
    if key < 8 * (l / 8) {
      BitOfOr(a[key / 8], b[key / 8], key % 8);
    } else {
      BitOfZero(key % 8);
    }
  }

  /**
   * The bits of `a & b`: below `8 * (l // 8)` each is the AND of the operands' bits;
   * the bits of the trailing partial byte are 0.
   */
  lemma AndBytesBits(a: Octets, b: Octets, l: nat)
    requires |a| == |b| == NumBytes(l)
    ensures forall key :: 0 <= key < 8 * (l / 8) ==>
      GetBit(AndBytes(a, b, l), key) == GetBit(a, key) * GetBit(b, key)
    ensures forall key :: 8 * (l / 8) <= key < 8 * |a| ==> GetBit(AndBytes(a, b, l), key) == 0
  {
    forall key | 0 <= key < 8 * |a| {
      AndBytesAt(a, b, l, key);
    }
  }

  /**
   * The bits of `a | b`: below `8 * (l // 8)` each is the OR of the operands' bits;
   * the bits of the trailing partial byte are 0.
   */
  lemma OrBytesBits(a: Octets, b: Octets, l: nat)
    requires |a| == |b| == NumBytes(l)
    ensures forall key :: 0 <= key < 8 * (l / 8) ==>
      (GetBit(OrBytes(a, b, l), key) == 1 <==> GetBit(a, key) == 1 || GetBit(b, key) == 1)
    ensures forall key :: 8 * (l / 8) <= key < 8 * |a| ==> GetBit(OrBytes(a, b, l), key) == 0
  {
    forall key | 0 <= key < 8 * |a| {
      OrBytesAt(a, b, l, key);
    }
  }

  /**
   * With `l == 9` the OR drops bit 8, which lives in the trailing byte: a Bloom
   * filter of 9 bits whose member probes bit 8 loses that member in a union.
   */
  lemma OrBytesDropsTrailingBit()
    ensures GetBit([0, 1], 8) == 1
    ensures GetBit(OrBytes([0, 1], [0, 0], 9), 8) == 0
  {
    OrBytesAt([0, 1], [0, 0], 9, 8);
    assert GetBit([0, 1], 8) == Bit(1, 0);
  }

  /** Bytewise AND over every byte, trailing partial byte included. */
  function AndBytesFull(a: Octets, b: Octets): (r: Octets)
    requires |a| == |b|
    ensures |r| == |a|
  {
    seq(|a|, i requires 0 <= i < |a| => a[i] & b[i])
  }

  /** Bytewise OR over every byte, trailing partial byte included. */
  function OrBytesFull(a: Octets, b: Octets): (r: Octets)
    requires |a| == |b|
    ensures |r| == |a|
  {
    seq(|a|, i requires 0 <= i < |a| => a[i] | b[i])
  }

  /** Every bit of the full AND is set exactly when it is set in both operands. */
  lemma AndBytesFullBits(a: Octets, b: Octets)
    requires |a| == |b|
    ensures forall key :: 0 <= key < 8 * |a| ==>
      (GetBit(AndBytesFull(a, b), key) == 1 <==> GetBit(a, key) == 1 && GetBit(b, key) == 1)
  {
    forall key | 0 <= key < 8 * |a| {
      BitOfAnd(a[key / 8], b[key / 8], key % 8);
    }
  }

  /** Every bit of the full OR is set exactly when it is set in either operand. */
  lemma OrBytesFullBits(a: Octets, b: Octets)
    requires |a| == |b|
    ensures forall key :: 0 <= key < 8 * |a| ==>
      (GetBit(OrBytesFull(a, b), key) == 1 <==> GetBit(a, key) == 1 || GetBit(b, key) == 1)
  {
    forall key | 0 <= key < 8 * |a| {
      BitOfOr(a[key / 8], b[key / 8], key % 8);
    }
  }

  /** `BitString.weight`: the table entries of the bytes, summed from the front. */
  function TableWeight(s: Octets): nat
  {
    if s == [] then 0
    else
      BitWeightsArePopCounts(s[|s| - 1]);
      TableWeight(s[..|s| - 1]) + BitWeights[s[|s| - 1] as int]
  }

  /** The number of set bits among keys `0 .. n - 1`. */
  function CountOnes(s: Octets, n: nat): nat
    requires n <= 8 * |s|
  {
    if n == 0 then 0 else CountOnes(s, n - 1) + GetBit(s, n - 1)
  }

  lemma {:induction false} CountOnesPrefix(s: Octets, p: Octets, n: nat)
    requires p <= s && n <= 8 * |p|
    ensures CountOnes(s, n) == CountOnes(p, n)
  {
    if n > 0 {
      CountOnesPrefix(s, p, n - 1);
      assert s[(n - 1) / 8] == p[(n - 1) / 8];
    }
  }

  lemma LastByteKeys(m: nat, j: nat)
    requires j < 8
    ensures (8 * m + j) / 8 == m && (8 * m + j) % 8 == j
  {
  }

  /** The number of set bits among bits `0 .. j - 1` of one byte. */
  function LowBits(b: bv8, j: nat): nat
    requires j <= 8
  {
    if j == 0 then 0 else LowBits(b, j - 1) + Bit(b, j - 1)
  }

  lemma LowBitsArePopCount(b: bv8)
    ensures LowBits(b, 8) == PopCount(b)
  {
    BitIsShift(b, 0);
    assert LowBits(b, 1) == LowBits(b, 0) + Bit(b, 0);
    BitIsShift(b, 1);
    assert LowBits(b, 2) == LowBits(b, 1) + Bit(b, 1);
    BitIsShift(b, 2);
    assert LowBits(b, 3) == LowBits(b, 2) + Bit(b, 2);
    BitIsShift(b, 3);
    assert LowBits(b, 4) == LowBits(b, 3) + Bit(b, 3);
    BitIsShift(b, 4);
    assert LowBits(b, 5) == LowBits(b, 4) + Bit(b, 4);
    BitIsShift(b, 5);
    assert LowBits(b, 6) == LowBits(b, 5) + Bit(b, 5);
    BitIsShift(b, 6);
    assert LowBits(b, 7) == LowBits(b, 6) + Bit(b, 6);
    BitIsShift(b, 7);
    assert LowBits(b, 8) == LowBits(b, 7) + Bit(b, 7);
  }

  /** Key `8 * m + i` is bit `i` of byte `m`. */
  lemma GetBitInByte(s: Octets, m: nat, i: nat)
    requires m < |s| && i < 8
    ensures GetBit(s, 8 * m + i) == Bit(s[m], i)
  {
    LastByteKeys(m, i);
  }

  /** The number of set bits among keys `8 * m .. 8 * m + j - 1`. */
  function KeysInByte(s: Octets, m: nat, j: nat): nat
    requires m < |s| && j <= 8
  {
    if j == 0 then 0 else KeysInByte(s, m, j - 1) + GetBit(s, 8 * m + j - 1)
  }

  lemma {:induction false} CountOnesInByte(s: Octets, m: nat, j: nat)
    requires m < |s| && j <= 8
    ensures CountOnes(s, 8 * m + j) == CountOnes(s, 8 * m) + KeysInByte(s, m, j)
  {
    if j > 0 {
      CountOnesInByte(s, m, j - 1);
      LastByteKeys(m, j - 1);
    }
  }

  lemma {:induction false} KeysInByteAreLowBits(s: Octets, m: nat, j: nat)
    requires m < |s| && j <= 8
    ensures KeysInByte(s, m, j) == LowBits(s[m], j)
  {
    if j > 0 {
      KeysInByteAreLowBits(s, m, j - 1);
      GetBitInByte(s, m, j - 1);
    }
  }

  /** The eight bits of the last byte add up to its popcount. */
  lemma CountOnesLastByte(s: Octets)
    requires |s| > 0
    ensures CountOnes(s, 8 * |s|) == CountOnes(s, 8 * (|s| - 1)) + PopCount(s[|s| - 1])
  {
    var m := |s| - 1;
    CountOnesInByte(s, m, 8);
    KeysInByteAreLowBits(s, m, 8);
    LowBitsArePopCount(s[m]);
    assert 8 * m + 8 == 8 * |s|;
  }

  /** The table-driven weight is the number of set bits. */
  lemma {:induction false} TableWeightCountsBits(s: Octets)
    ensures TableWeight(s) == CountOnes(s, 8 * |s|)
    decreases |s|
  {
    if s != [] {
      var p := s[..|s| - 1];
      TableWeightCountsBits(p);
      BitWeightsArePopCounts(s[|s| - 1]);
      CountOnesLastByte(s);
      CountOnesPrefix(s, p, 8 * |p|);
    }
  }

  lemma {:induction false} CountOnesMonotone(r: Octets, a: Octets, n: nat)
    requires n <= 8 * |r| && n <= 8 * |a|
    requires forall key :: 0 <= key < n ==> GetBit(r, key) <= GetBit(a, key)
    ensures CountOnes(r, n) <= CountOnes(a, n)
  {
    if n > 0 {
      CountOnesMonotone(r, a, n - 1);
    }
  }

  /** The weight of `a & b` is at most the weight of either operand. */
  lemma AndBytesWeight(a: Octets, b: Octets, l: nat)
    requires |a| == |b| == NumBytes(l)
    ensures TableWeight(AndBytes(a, b, l)) <= TableWeight(a)
    ensures TableWeight(AndBytes(a, b, l)) <= TableWeight(b)
  {
    var r := AndBytes(a, b, l);
    forall key | 0 <= key < 8 * |a|
      ensures GetBit(r, key) <= GetBit(a, key) && GetBit(r, key) <= GetBit(b, key)
    {
      AndBytesAt(a, b, l, key);
    }
    TableWeightCountsBits(r);
    TableWeightCountsBits(a);
    TableWeightCountsBits(b);
    CountOnesMonotone(r, a, 8 * |a|);
    CountOnesMonotone(r, b, 8 * |a|);
  }
}
