// FNV-1a hashing: d4np/sys/hash.c, and the private default hash of d4np/ds/hashmap.c.
module Fnv {
  import opened Common
  import opened Words
  import HashTable
  import HashMap

  const OFFSET_BASIS: Word := 14695981039346656037
  const PRIME: nat := 1099511628211
  // The inverse of the prime modulo 2^64.
  const INVERSE: nat := 14886173955864302971

  type Word = n: nat | n < WORD

  // One step: `h ^= b; h *= PRIME`.
  function Mix(h: Word, b: Byte): Word {
    BitXor(h, b as nat) * PRIME % WORD
  }

  // The hash of `data` continued from `seed`.
  function Continue(seed: Word, data: seq<Byte>): Word {
    if data == [] then seed else Mix(Continue(seed, data[..|data| - 1]), data[|data| - 1])
  }

  method HashContinue(seed: Word, data: Option<seq<Byte>>) returns (h: Word)
    ensures h == Continue(seed, if data.Some? then data.value else [])
  {
    h := seed;
    if data.Some? {
      var p, i := data.value, 0;
      while i < |p|
        invariant i <= |p| && h == Continue(seed, p[..i])
      {
        assert p[..i + 1][..i] == p[..i];
        XorWord(h, p[i]);
        h := BitXor(h, p[i] as nat);
        h := h * PRIME % WORD;
        i := i + 1;
      }
      assert p[..i] == p;
    }
  }

  method Hash(data: Option<seq<Byte>>) returns (h: Word)
    ensures h == Continue(OFFSET_BASIS, if data.Some? then data.value else [])
  {
    h := HashContinue(OFFSET_BASIS, data);
  }

  // The hash map's own copy of the loop computes the public hash.
  method DefaultHash(key: seq<Byte>) returns (h: Word)
    ensures h == Continue(OFFSET_BASIS, key)
  {
    h := 14695981039346656037;
    var i := 0;
    while i < |key|
      invariant i <= |key| && h == Continue(OFFSET_BASIS, key[..i])
    {
      assert key[..i + 1][..i] == key[..i];
      XorWord(h, key[i]);
      h := BitXor(h, key[i] as nat);
      h := h * 1099511628211 % WORD;
      i := i + 1;
    }
    assert key[..i] == key;
  }

  lemma XorWord(h: Word, b: Byte)
    ensures BitXor(h, b as nat) < WORD
  {
    Pow2Word();
    XorBound(h, b as nat, 64);
  }

  // Hashing in two chunks is hashing the concatenation.
  lemma {:induction false} Compositional(seed: Word, a: seq<Byte>, b: seq<Byte>)
    ensures Continue(seed, a + b) == Continue(Continue(seed, a), b)
    decreases |b|
  {
    if b == [] {
      assert a + b == a;
    } else {
      var n := |b| - 1;
      assert (a + b)[..|a + b| - 1] == a + b[..n];
      Compositional(seed, a, b[..n]);
    }
  }

  // One step with the exclusive or `x` and the result `r` given.
  lemma MixIs(h: Word, b: Byte, x: nat, r: Word)
    requires XorIs(h, b as nat, x, 8) && x * 1099511628211 % 0x1_0000_0000_0000_0000 == r
    ensures Mix(h, b) == r
  {
    XorCheck(h, b as nat, x, 8);
  }

  // Hashing one more byte is the exclusive or with it and then the product with the prime.
  lemma AppendByte(seed: Word, data: seq<Byte>, b: Byte)
    ensures Continue(seed, data + [b]) == Mix(Continue(seed, data), b)
  {
    assert (data + [b])[..|data|] == data;
  }

  // The published values of FNV-1a for the empty string and "a"; each further byte is one more step.
  lemma PublishedValues()
    ensures Continue(OFFSET_BASIS, []) == 0xcbf2_9ce4_8422_2325
    ensures Continue(OFFSET_BASIS, [97]) == 0xaf63_dc4c_8601_ec8c
  {
    MixIs(OFFSET_BASIS, 97, 0xcbf2_9ce4_8422_2344, 0xaf63_dc4c_8601_ec8c);
    AppendByte(OFFSET_BASIS, [], 97);
  }

  // ---- every step is invertible -------------------------------------------------------------------

  lemma ModMul(a: nat, b: nat)
    ensures (a % WORD) * b % WORD == a * b % WORD
  {
    var q, r := a / WORD, a % WORD;
    var q', r' := r * b / WORD, r * b % WORD;
    assert a * b == (q * WORD + r) * b == (q * b) * WORD + r * b;
    assert a * b == (q * b + q') * WORD + r';
    DivModUnique(a * b, WORD, q * b + q', r');
  }

  lemma TimesPrimeInverse(x: Word)
    ensures (x * PRIME % WORD) * INVERSE % WORD == x
    ensures (x * INVERSE % WORD) * PRIME % WORD == x
  {
    ModMul(x * PRIME, INVERSE);
    ModMul(x * INVERSE, PRIME);
    assert PRIME * INVERSE == 887285111055 * WORD + 1;
    assert x * PRIME * INVERSE == x * (PRIME * INVERSE) == (x * 887285111055) * WORD + x;
    assert x * INVERSE * PRIME == x * (PRIME * INVERSE);
    DivModUnique(x * (PRIME * INVERSE), WORD, x * 887285111055, x);
  }

  function Unmix(r: Word, b: Byte): Word {
    XorWord(r * INVERSE % WORD, b);
    BitXor(r * INVERSE % WORD, b as nat)
  }

  lemma MixInvertible(h: Word, b: Byte)
    ensures Unmix(Mix(h, b), b) == h
    ensures Mix(Unmix(h, b), b) == h
  {
    XorWord(h, b);
    TimesPrimeInverse(BitXor(h, b as nat));
    XorCancel(h, b as nat);
    TimesPrimeInverse(h);
    XorCancel(h * INVERSE % WORD, b as nat);
  }

  lemma MixInjectiveInByte(h: Word, b: Byte, d: Byte)
    requires Mix(h, b) == Mix(h, d)
    ensures b == d
  {
    XorWord(h, b);
    XorWord(h, d);
    TimesPrimeInverse(BitXor(h, b as nat));
    TimesPrimeInverse(BitXor(h, d as nat));
    XorComm(h, b as nat);
    XorComm(h, d as nat);
    XorCancel(b as nat, h);
    XorCancel(d as nat, h);
  }

  // The seed from which `data` hashes to `r`.
  function Unhash(r: Word, data: seq<Byte>): Word
    decreases |data|
  {
    if data == [] then r else Unhash(Unmix(r, data[|data| - 1]), data[..|data| - 1])
  }

  // For fixed data, continuing a hash is a bijection on 64-bit words.
  lemma {:induction false} ContinueInvertible(w: Word, data: seq<Byte>)
    ensures Unhash(Continue(w, data), data) == w
    ensures Continue(Unhash(w, data), data) == w
    decreases |data|
  {
    if data == [] {
    } else {
      var n := |data| - 1;
      MixInvertible(Continue(w, data[..n]), data[n]);
      MixInvertible(w, data[n]);
      ContinueInvertible(w, data[..n]);
      ContinueInvertible(Unmix(w, data[n]), data[..n]);
    }
  }

  // Strings of equal length that differ in exactly one byte have different hashes.
  lemma OneByteChangesHash(seed: Word, a: seq<Byte>, i: nat, b: Byte)
    requires i < |a| && a[i] != b
    ensures Continue(seed, a) != Continue(seed, a[i := b])
  {
    var h, rest := Continue(seed, a[..i]), a[i + 1..];
    assert a == (a[..i] + [a[i]]) + rest;
    assert a[i := b] == (a[..i] + [b]) + rest;
    Compositional(seed, a[..i] + [a[i]], rest);
    Compositional(seed, a[..i] + [b], rest);
    assert (a[..i] + [a[i]])[..i] == a[..i] == (a[..i] + [b])[..i];
    ContinueInvertible(Mix(h, a[i]), rest);
    ContinueInvertible(Mix(h, b), rest);
    if Mix(h, a[i]) == Mix(h, b) {
      MixInjectiveInByte(h, a[i], b);
    }
  }

  // The configuration of a map that init was given no hash and no equality for.
  ghost function DefaultConfig(keySize: nat, valueSize: nat): HashTable.Config<seq<Byte>>
    requires 0 < keySize < WORD && 0 < valueSize < WORD
  {
    HashTable.Config(k => Continue(OFFSET_BASIS, k), (a: seq<Byte>, b: seq<Byte>) => a == b,
                     RoundUp(keySize, 16), RoundUp(valueSize, 16))
  }

  // The default hash and byte-wise equality meet the hash map's requirements exactly for key and
  // value sizes whose strides do not wrap.
  lemma DefaultConfigLawful(keySize: nat, valueSize: nat)
    requires 0 < keySize < WORD && 0 < valueSize < WORD
    ensures HashTable.Lawful(DefaultConfig(keySize, valueSize)) <==> keySize + 15 < WORD && valueSize + 15 < WORD
  {
    HashMap.StrideUsableIffNoWrap(keySize);
    HashMap.StrideUsableIffNoWrap(valueSize);
  }
}
