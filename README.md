# nipsi in Dafny

A model of the core of **nipsi**, the reference implementation of the schemes in
"Two-Client and Multi-client Functional Encryption for Set Intersection". Each client
encrypts its set under its own key. An evaluator who holds only the ciphertexts learns
the size of the intersection of all clients' sets, or the intersection itself:

* the two-client schemes of `nipsi/twoclient.py`:
  * `Cardinality`: a shared PRF key; `eval` intersects the PRF values.
  * `Intersection`: the shares `sigma` and `1 - sigma` of the exponent. Each element
    carries an authenticated encryption under a key derived from the recombined group
    element.
  * `Threshold`: Shamir shares of an AES-GCM key, opened only when at least
    `threshold` elements are shared.
* the multi-client schemes of `nipsi/multiclient.py`:
  * `Cardinality`: key shares that sum to 0; `eval` searches the Cartesian product of
    the ciphertext sets for products equal to the identity.
  * `CardinalityEfficient`: Bloom filters under Lagrange-interpolated key shares.
  * the `BloomFilter` class and its nested `BitString` class, which `CardinalityEfficient`
    builds on.

## How the model is built

* **Group elements are exponents.** The elliptic-curve group of prime order `q` is
  represented by exponents in `Z_q`:
  * `g ** e` is `e mod q`.
  * A product of group elements is a sum of exponents modulo `q`.
  * `x ** e` is `x * e mod q`.
  * The identity `g ** 0` is 0.
  * Serializing a group element gives its reduced exponent.
* **Foreign primitives are parameters.** AES-CBC under a key and an IV, SHA-256
  (`_H`, `_H_bytes`), AES-GCM, mmh3 and the group's hash and (de)serialization are
  function-typed parameters. What the schemes rely on about them is a precondition of
  the lemmas that need it: injectivity of AES-CBC under one key, correct AES-GCM
  decryption, and `deserialize(serialize(x)) == x`.
* **Randomness is an input.** The random exponents, keys and nonces are passed in as
  arguments.
* **Python sets.** A Python set iterates in an order the program does not choose. Where
  that order matters (`islice` in `Threshold.eval`), it is an explicit argument
  `order`. Elsewhere the model quantifies over every order.
* **Classes are classes where the source mutates.** These are classes with fields:
  * `BitString`, which owns a `bytearray` updated in place (an `array<bv8>`).
  * `BloomFilter`.
  * The scheme objects whose `setup` records parameters (`CardinalityEfficient`,
    `Intersection`, `Threshold`).

  The rest are functions.
* **Loops are methods with invariants.** Each loop of the operations modelled here is a method with a
  loop, proved against a specification function. The recursion of `intersection_count`
  is two mutually recursive methods.

Files:

* `common.dfy`: `Option`, big-endian byte strings, facts about set images, and modular
  arithmetic (sums, the extended Euclidean inverse).
* `bitstrings.dfy`: bit strings as byte sequences: bits, the popcount table, and the
  bytewise AND and OR.
* `bloomfilter.dfy`: the `BitString` and `BloomFilter` classes.
* `multiclient.dfy`: multi-client `Cardinality`.
* `efficient.dfy`: `CardinalityEfficient`.
* `twoclient.dfy`: the three two-client schemes.

## Model

| member | source | states |
|---|---|---|
| BitStrings.BitWeightsArePopCounts | nipsi/multiclient.py:25 | entry `b` of the 256-entry weight table is the number of 1-bits of byte `b` |
| BitStrings.SetBitSpec | nipsi/multiclient.py:44-53 | setting bit `key` leaves it 1 and every other bit unchanged, whatever the value argument |
| BitStrings.AndBytesBits | nipsi/multiclient.py:55-61 | below `8 * (l // 8)`, each bit of `a & b` is the AND of the operands' bits; the bits of the trailing partial byte are 0 |
| BitStrings.OrBytesBits | nipsi/multiclient.py:63-69 | below `8 * (l // 8)`, a bit of `a \| b` is 1 exactly when either operand's bit is; the bits of the trailing partial byte are 0 |
| BitStrings.OrBytesDropsTrailingBit | nipsi/multiclient.py:67 | with `l == 9`, bit 8 is set in an operand but clear in the OR |
| BitStrings.AndBytesFullBits | nipsi/multiclient.py:55-61 | the AND over every byte has exactly the AND of the operands' bits at every key |
| BitStrings.OrBytesFullBits | nipsi/multiclient.py:63-69 | the OR over every byte has a bit set exactly when either operand has it set |
| BitStrings.TableWeightCountsBits | nipsi/multiclient.py:71-72 | the sum of the table weights of the bytes is the number of set bits |
| BitStrings.AndBytesWeight | nipsi/multiclient.py:55-61 | the weight of `a & b` is at most the weight of either operand |
| BloomFilters.BitString.constructor | nipsi/multiclient.py:27-29 | `(l + 7) // 8` zero bytes |
| BloomFilters.BitString.Get | nipsi/multiclient.py:35-42 | returns bit `key % 8` of byte `key // 8`, which is 0 or 1 |
| BloomFilters.BitString.Set | nipsi/multiclient.py:44-53 | the bit becomes 1 whatever the value argument; every other bit keeps its value |
| BloomFilters.BitString.And | nipsi/multiclient.py:55-61 | a fresh bit string of the same length holding the bytewise AND of the first `l // 8` bytes; operands unchanged |
| BloomFilters.BitString.Or | nipsi/multiclient.py:63-69 | a fresh bit string of the same length holding the bytewise OR of the first `l // 8` bytes; operands unchanged |
| BloomFilters.BitString.Weight | nipsi/multiclient.py:71-72 | the table-driven weight equals the number of set bits |
| BloomFilters.ProbeIndex | nipsi/multiclient.py:98 | a probe `H(prefix + y) % m` always selects an index below `m` |
| BloomFilters.ProbePrefix | nipsi/multiclient.py:98 | the prefix of probe `i` is `i` in big-endian over `k.bit_length()` bytes |
| BloomFilters.ProbePrefixesDistinct | nipsi/multiclient.py:91-99 | the `k` probes have pairwise distinct prefixes, and all use `hash128` exactly when `m` needs more than 32 bits |
| BloomFilters.ProbeIndices | nipsi/multiclient.py:104-105 | the bits an element's probes select, one per probe, each below its probe's `m` |
| BloomFilters.BloomFilter.constructor | nipsi/multiclient.py:84-99 | an all-zero bit string of `m` bits and the `k` probes |
| BloomFilters.BloomFilter.Contains | nipsi/multiclient.py:104-105 | `item in bf` holds exactly when every probe of `item` selects a set bit, that is, every index in `ProbeIndices` of `item` is below `m` and set |
| BloomFilters.BloomFilter.Add | nipsi/multiclient.py:118-120 | after `add` the element is contained (every one of its probes selects a set bit, as `__contains__` checks), every element contained before still is, and no bit other than the element's probes changes |
| BloomFilters.BloomFilter.Empty | nipsi/multiclient.py:113-116 | a fresh filter of the same size with the very same probes and no bit set |
| BloomFilters.BloomFilter.Union | nipsi/multiclient.py:122-125 | a fresh filter with the same probes whose bits are `self.bs \| other.bs` |
| BloomFilters.BloomFilter.Intersection | nipsi/multiclient.py:127-130 | a fresh filter with the same probes whose bits are `self.bs & other.bs`, with weight at most either operand's |
| BloomFilters.BloomFilter.Weight | nipsi/multiclient.py:132-133 | the number of set bits of the filter |
| MultiClient.KeyShares | nipsi/multiclient.py:142-147 | `client_count - 1` random shares then the negated sum, so the shares sum to 0 modulo `q`; with no client the single key 0 |
| MultiClient.EncryptElement | nipsi/multiclient.py:154 | the exponent of `H(gid + pt) ** usk`, a residue below `q` |
| MultiClient.Encrypt | nipsi/multiclient.py:149-156 | every plaintext's ciphertext is in the set, and every ciphertext is a residue |
| MultiClient.LastSetCount | nipsi/multiclient.py:171-178 | the last level removes the ciphertexts that complete the product to the identity, and counts them; there is at most one |
| MultiClient.UniqueCompletion | nipsi/multiclient.py:175-178 | two residues that complete the same product to the identity are equal, so `break` loses nothing |
| MultiClient.SearchStep | nipsi/multiclient.py:180-186 | one pass of the loop over the last set keeps the invariant: the chains through the searched ciphertexts are counted and removed from every set |
| MultiClient.IntersectionCount | nipsi/multiclient.py:163-191 | the count is the number of ciphertexts removed from the last set; when no ciphertext lies on two chains, the count is the number of chains and each set loses exactly the ciphertexts on a chain |
| MultiClient.SearchLastSet | nipsi/multiclient.py:179-191 | the recursive branch of `intersection_count`, with the same promise |
| MultiClient.Eval | nipsi/multiclient.py:158-194 | the cardinality is at most the last set's size, and with disjoint chains it is the number of chains through the last set |
| MultiClient.ChainOfCloses | nipsi/multiclient.py:142-156 | when the key shares sum to 0, the ciphertexts of one plaintext multiply to the identity |
| MultiClient.CommonChain | nipsi/multiclient.py:142-156 | every plaintext that all clients hold gives a chain through the ciphertext sets |
| MultiClient.ChainIsCommon | nipsi/multiclient.py:149-156 | without spurious products, every chain is the chain of a plaintext held by all clients |
| MultiClient.HonestChainCount | nipsi/multiclient.py:142-194 | for honest key shares, the chains are disjoint and as many as the plaintexts all clients hold |
| MultiClient.HonestEval | nipsi/multiclient.py:142-194 | setup, encryption of every client's set and `eval` give the size of the intersection of all sets |
| Efficient.PolyZeroSecret | nipsi/multiclient.py:212-214 | the polynomial with coefficients `[0] + rs` is 0 at 0: the shared secret is 0 |
| Efficient.CardinalityEfficient.Setup | nipsi/multiclient.py:205-220 | records `m` and `k`; client `i` receives the PRF key and `f(i)`, `f(n + i)`, with `n` the recorded `client_count` |
| Efficient.LagrangeEquation | nipsi/multiclient.py:278-286 | in a prime field, `delta(S, i)` times the product of the `j - i` is the product of the `j`, over the `j` in `S` other than `i` |
| Efficient.Delta | nipsi/multiclient.py:278-286 | the loop computes the Lagrange coefficient, skipping `j == i` |
| Efficient.FirstMinimal | nipsi/multiclient.py:288-293 | the first index of a ciphertext with the fewest elements |
| Efficient.SmallestSetIndex | nipsi/multiclient.py:288-293 | the loop finds that first minimal index |
| Efficient.Points | nipsi/multiclient.py:295-297 | `S` is `1, ..., n` followed by `n + gamma` |
| Efficient.CombinationOfShares | nipsi/multiclient.py:299-308 | where every client's filter entry is `H(ell) ** f_i`, `a_list[ell]` is `H(ell)` raised to the Lagrange combination of the `f_i` |
| Efficient.CombineAt | nipsi/multiclient.py:302-306 | the inner loop builds the product of `ct_bf_set_i[ell] ** delta(S, i + 1)` over all clients |
| Efficient.AList | nipsi/multiclient.py:299-308 | the outer loop builds one combination per filter position |
| Efficient.Candidate | nipsi/multiclient.py:323-328 | the weight chosen at a position is the largest weight in `k..1` that matches there, or none |
| Efficient.FindWeight | nipsi/multiclient.py:323-328 | the descending loop returns that largest matching weight, or nothing when none matches |
| Efficient.CountElement | nipsi/multiclient.py:313-335 | the loop over one element's positions counts it exactly as the code as written decides |
| Efficient.CountElementIntended | nipsi/multiclient.py:313-335 | with the comparison also made after the first match, an element is counted when `t` positions match its weight `t` |
| Efficient.CountedDiffersOnWeightOne | nipsi/multiclient.py:323-335 | the two loops differ exactly on elements whose weight is 1 |
| Efficient.SingleHashCountsNothing | nipsi/multiclient.py:323-335 | with `k == 1` the loop as written never counts an element |
| Efficient.WeightOneNeverCounted | nipsi/multiclient.py:323-335 | a concrete element of weight 1 that matches but is not counted |
| Efficient.CountElements | nipsi/multiclient.py:313-335 | the loop over the elements counts those the per-element loop accepts |
| Efficient.EvalCount | nipsi/multiclient.py:272-337 | the count `eval` returns is bounded by every ciphertext's element count |
| Efficient.CardinalityEfficient.Eval | nipsi/multiclient.py:272-337 | picks the first smallest ciphertext, builds `a_list` and counts; the result is at most any ciphertext's element count |
| TwoClient.ZeroPad | nipsi/twoclient.py:34-35 | padding to a multiple of 16 bytes, keeping the plaintext as a prefix, adding 1 to 16 zero bytes |
| TwoClient.ZeroPadCollision | nipsi/twoclient.py:34-35 | the empty plaintext and the plaintext `b'\0'` pad to the same block |
| TwoClient.Pkcs7RoundTrip | nipsi/twoclient.py:34-35 | PKCS#7 unpadding undoes PKCS#7 padding |
| TwoClient.Pkcs7Injective | nipsi/twoclient.py:34-35 | PKCS#7 padding never maps two plaintexts to one block |
| TwoClient.Prf | nipsi/twoclient.py:33-38 | AES-CBC under the key, with `gid` as IV, of the zero-padded plaintext: a block of whole 16-byte units with the plaintext as prefix, and every plaintext with the same padding has the same PRF value |
| TwoClient.CardinalitySetup | nipsi/twoclient.py:27-30 | both clients receive the same key of `secpar // 8` bytes |
| TwoClient.CardinalityEncrypt | nipsi/twoclient.py:40-48 | at most one ciphertext per plaintext |
| TwoClient.CardinalityEval | nipsi/twoclient.py:50-54 | the result is bounded by both ciphertext sets' sizes |
| TwoClient.CardinalityCorrect | nipsi/twoclient.py:27-54 | with AES-CBC injective under the key and no padding collision, `eval` of the two encryptions is the size of the plaintext intersection |
| TwoClient.OpenAll | nipsi/twoclient.py:132-148 | the loop over the keys in both dictionaries collects what each key opens to |
| TwoClient.Phi | nipsi/twoclient.py:74-83 | the exponent of the PRF group element, a residue below `q` |
| TwoClient.EntryOf | nipsi/twoclient.py:115-124 | a plaintext's entry holds its share `k ** sigma` as a residue |
| TwoClient.Intersection.Setup | nipsi/twoclient.py:65-72 | both clients receive the master key, and their shares sum to 1 modulo `q` |
| TwoClient.EncryptStep | nipsi/twoclient.py:114-124 | one loop step keeps every entry tied to a plaintext with that key |
| TwoClient.EncryptStepHonest | nipsi/twoclient.py:114-124 | with distinct keys, one loop step keeps every plaintext's entry under its key |
| TwoClient.Intersection.Encrypt | nipsi/twoclient.py:104-126 | every entry comes from a plaintext under that plaintext's key, and with distinct keys every plaintext's entry is present |
| TwoClient.ShareRecombine | nipsi/twoclient.py:136-138 | `k ** sigma * k ** (1 - sigma) == k` |
| TwoClient.OpenHonest | nipsi/twoclient.py:135-146 | the entries of one plaintext under complementary shares open to that plaintext |
| TwoClient.KeyOpens | nipsi/twoclient.py:133-146 | a key in both honest dictionaries comes from a plaintext of both sets and opens to it |
| TwoClient.PlaintextOpens | nipsi/twoclient.py:133-146 | a plaintext of both sets has its key in both honest dictionaries, and that key opens to it |
| TwoClient.IntersectionCorrect | nipsi/twoclient.py:104-148 | for honest dictionaries with distinct keys, every key opens and `eval` returns exactly the plaintext intersection |
| TwoClient.Intersection.Eval | nipsi/twoclient.py:128-148 | `eval` returns the plaintexts the keys in both dictionaries open to |
| TwoClient.Threshold.Setup | nipsi/twoclient.py:154-165 | the field order is `q - 1`; the `sigma` shares sum to 1 modulo `q`, the second one reduced (so it is `(1 - sigma) % q`, the form the recovery lemma takes); the `rho` shares sum to 1 modulo the field order, the second one reduced |
| TwoClient.ThresholdEntryOf | nipsi/twoclient.py:197-213 | the entry of a plaintext carries the nonces drawn for its two AES-GCM encryptions; the source draws the `ae1` nonce once per `encrypt` call and reuses it, under the same key `_H(cs[0])`, for every entry of that call, which is the case `n1` equal across entries |
| TwoClient.RecoverHonest | nipsi/twoclient.py:244-260 | with the right secret, the entries of one plaintext under complementary shares recover that plaintext |
| TwoClient.Interpolate | nipsi/twoclient.py:242 | the interpolated secret is a residue below `q` |
| TwoClient.Abscissae | nipsi/twoclient.py:240 | `xs` are the deserialized keys, in order |
| TwoClient.Ordinates | nipsi/twoclient.py:241 | `ys` are the products of the two clients' polynomial shares, in order |
| TwoClient.CollectPoints | nipsi/twoclient.py:238-241 | the `islice` loop appends, for each of the given keys in order, the deserialized key to `xs` and the product of the two shares to `ys`, giving exactly `Abscissae` and `Ordinates` of those keys |
| TwoClient.RecoverSecret | nipsi/twoclient.py:228-242 | the loop with nested `delta` computes the Lagrange interpolation at 0 of the points |
| TwoClient.Threshold.Eval | nipsi/twoclient.py:217-262 | the cardinality is the number of keys in both dictionaries; below the threshold nothing is decrypted; otherwise each key's plaintext is recovered with the secret interpolated from the first `threshold` keys |

## Left out

- The elliptic curve and its arithmetic: group elements are exponents in `Z_q`, so the model cannot tell apart two elements with the same discrete logarithm and does not model hardness of discrete logarithms.
- AES-CBC, AES-GCM, SHA-256, mmh3 and the group's hash and (de)serialization are uninterpreted function parameters; their security properties are not modelled.
- `os.urandom` and `group.random`: the random values are arguments.
- `BloomFilter.determine_parameters` and `CardinalityEfficient.determine_parameters`: floating-point parameter choice, not part of any proof.
- `__repr__` of `BitString` and `BloomFilter`: formatting only.
- `BloomFilter.__and__` and `BloomFilter.__or__` are the aliases of `intersection` and `union`, modelled by those.
- `CardinalityEfficient.encrypt` (nipsi/multiclient.py:230-270) is not part of this model. Its masks `group.random(G)` and `gr ** t` are group elements and could be written as exponents like every other element here, but the correctness of `eval` on its output is only probabilistic: the count is exact only when no random mask and no Bloom filter false positive makes `lhs == rhs` at a position, and the model has no probability to state that against. `eval` is modelled on any input ciphertexts.
- `CardinalityEfficient._prf` is the same zero padding and AES-CBC as `_prf` in `twoclient.py`; it is covered by `TwoClient.Prf`.
- The `Threshold.encrypt` loop (nipsi/twoclient.py:177-215): only the shape of one entry is modelled (`TwoClient.ThresholdEntryOf`), as a function of its polynomial share and nonces. The AES-CBC derivation of the polynomial coefficients is not modelled. The `ae1` nonce that one call shares across all its entries (nipsi/twoclient.py:194) is a per-entry argument; every lemma holds for any choice, the shared one included.
- TwoClient.Interpolate: states only that the result is a residue below `q`, not that it is `f(0)` when the points lie on a polynomial `f` of degree below their number. That needs the Lagrange interpolation theorem (uniqueness of the interpolating polynomial over a prime field), which is not part of this model; `Efficient.LagrangeEquation` proves only that each coefficient `delta` is the intended fraction.
- Efficient.EvalCount: states only that the count is bounded by every ciphertext's element count, not that for honest ciphertexts it is the size of the plaintext intersection. That needs the Lagrange interpolation theorem to show `a_list[ell]` and the picked ciphertext's `Delta` combine to `H(ell) ** f(0)`, and a Bloom filter false-positive analysis, which the model (having no probability) does not contain.
- Efficient.CardinalityEfficient.Eval: proves the loops compute the scheme's count and bound it. It does not prove that honest ciphertexts give the intersection size, which needs Lagrange interpolation of the shares and the Bloom filter false-positive analysis.
- TwoClient.Threshold.Eval: does not prove that the interpolated value is `f(0)`. That needs the Lagrange interpolation theorem and Fermat's little theorem for `f(k2) ** (rho1 + rho2) == f(k2)`. The plaintexts are proved recovered only once the right secret is in hand (`TwoClient.RecoverHonest`).
- MultiClient.HonestEval: assumes that ciphertexts of different plaintexts never multiply to the identity (`NoSpurious`), and that within each client distinct plaintexts have distinct ciphertexts (`LevelInjective`). The latter fails when a client's `usk` is 0 modulo `q` or when `H` collides on two of one client's plaintexts; the set comprehension of nipsi/multiclient.py:154 then merges their ciphertexts and `eval` can miscount. Both hold only with overwhelming probability over the hash and the key shares, and the model has no probability.
- The `client_count` that the multi-client `Cardinality.setup` records is read by `CardinalityEfficient.setup`. The model passes it to the `CardinalityEfficient` constructor and takes the key shares from `MultiClient.KeyShares`. The `client_count` argument of `CardinalityEfficient.setup` is ignored, as in the source.
- Failures of the source (a failed AES-GCM decryption raising, `% 0` on an empty Bloom filter) are preconditions or `None` results; exceptions as control flow are not modelled.
- The `assert` statements of `BitString` (`value` a bit, equal lengths) are preconditions.

## Findings

| source | as written | input that shows it | evidently intended | confidence | as-written member | corrected member |
|---|---|---|---|---|---|---|
| nipsi/multiclient.py:59, 67 | `__and__` and `__or__` combine only the first `l // 8` bytes, so the trailing partial byte of a bit string whose length is not a multiple of 8 is always 0 in the result | `l = 9`, operands `[0, 1]` and `[0, 0]`: bit 8 is set in the first operand but clear in the OR, so a Bloom filter union loses members that probe bit 8 | combine all `(l + 7) // 8` bytes | high, not executed | BitStrings.OrBytesDropsTrailingBit | BitStrings.OrBytesFullBits |
| nipsi/multiclient.py:323-335 | the first match sets `identical_count = 1` and breaks out of the weight search without comparing it to `t`, so an element of weight 1 is never counted (and with `k == 1` no element ever is) | `q = 5`, `Delta = 1`, `a_list = [0]`, one position with pair `(1, 1)`: `lhs == rhs` for `t = 1`, yet the element is not counted | count an element once `t` positions match, including `t == 1` | high, not executed | Efficient.WeightOneNeverCounted | Efficient.CountElementIntended |
| nipsi/twoclient.py:34-35, 76-77, 169-170 | zero padding maps plaintexts that differ only in trailing zero bytes to the same block, so their PRF values coincide | `b''` and `b'\0'` both pad to 16 zero bytes | an injective padding such as PKCS#7 | medium, not executed | TwoClient.ZeroPadCollision | TwoClient.Pkcs7Injective |
