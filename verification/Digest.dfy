/** The history digest: src/digest.cpp and `EfficiencyLedger::digest`. */
module Digest {
  import opened Bytes
  import opened Entries
  import opened Codec

  const FNV_PRIME: u64 := 1099511628211
  /** The multiplier is odd, so it has an inverse modulo 2^64. */
  const INVERSE: u64 := 0xCE96_5057_AFF6_957B
  /** The starting state as the header spells it. */
  const OFFSET_BASIS: u64 := 1469598103934665603

  function Xor8(x: bv8, y: bv8): bv8 { x ^ y }

  function XorByte(a: Byte, b: Byte): Byte
  {
    Xor8(Bits(a), Bits(b)) as int
  }

  /** state ^= byte; state *= prime, in 64-bit arithmetic. */
  function XorLow(state: u64, b: Byte): u64
  {
    hide XorByte;
    state / 256 * 256 + XorByte(state % 256, b)
  }

  function Mix(state: u64, b: Byte): u64
  {
    XorLow(state, b) * FNV_PRIME % MODULUS
  }

  function MixBytes(state: u64, s: seq<Byte>): u64
  {
    if s == [] then state else Mix(MixBytes(state, s[..|s| - 1]), s[|s| - 1])
  }

  function DigestPrefix(count: nat): u64
  {
    MixBytes(MixBytes(MixBytes(OFFSET_BASIS, MAGIC), PutU64(FORMAT_VERSION)), PutU64(count))
  }

  /** Entry by entry, as the loop does. */
  function DigestEntries(state: u64, h: seq<Entry>): u64
  {
    if h == [] then state else MixBytes(DigestEntries(state, h[..|h| - 1]), EntryBytes(h[|h| - 1]))
  }

  function HistoryDigest(h: seq<Entry>): u64
  {
    DigestEntries(DigestPrefix(|h|), h)
  }

  /** The canonical stream the digest is over. */
  function Stream(h: seq<Entry>): seq<Byte>
  {
    MAGIC + (PutU64(FORMAT_VERSION) + (PutU64(|h|) + HistoryBytes(h)))
  }

  // ---------- streaming ----------

  lemma {:induction false} MixConcat(state: u64, s: seq<Byte>, t: seq<Byte>)
    ensures MixBytes(state, s + t) == MixBytes(MixBytes(state, s), t)
    decreases |t|
  {
    hide Mix;
    if t == [] {
      assert s + t == s;
    } else {
      assert (s + t)[..|s + t| - 1] == s + t[..|t| - 1];
      MixConcat(state, s, t[..|t| - 1]);
    }
  }

  lemma {:induction false} EntriesAreStream(state: u64, h: seq<Entry>)
    ensures DigestEntries(state, h) == MixBytes(state, HistoryBytes(h))
  {
    hide EntryBytes, Mix;
    if h != [] {
      EntriesAreStream(state, h[..|h| - 1]);
      MixConcat(state, HistoryBytes(h[..|h| - 1]), EntryBytes(h[|h| - 1]));
    }
  }

  /** Hashing entry by entry is hashing the concatenated canonical stream. */
  lemma DigestIsStreamHash(h: seq<Entry>)
    ensures HistoryDigest(h) == MixBytes(OFFSET_BASIS, Stream(h))
  {
    hide MixBytes, HistoryBytes, DigestEntries;
    var a, b, c, d := MAGIC, PutU64(FORMAT_VERSION), PutU64(|h|), HistoryBytes(h);
    EntriesAreStream(DigestPrefix(|h|), h);
    MixConcat(OFFSET_BASIS, a, b + (c + d));
    MixConcat(MixBytes(OFFSET_BASIS, a), b, c + d);
    MixConcat(MixBytes(MixBytes(OFFSET_BASIS, a), b), c, d);
  }

  // ---------- separation ----------

  lemma XorByteCancels(a: Byte, b: Byte, c: Byte)
    requires XorByte(a, b) == XorByte(a, c) || XorByte(b, a) == XorByte(c, a)
    ensures b == c
  {
    hide Bits, Xor8;
    if XorByte(a, b) == XorByte(a, c) {
      SameValueSameBits(Xor8(Bits(a), Bits(b)), Xor8(Bits(a), Bits(c)));
    } else {
      SameValueSameBits(Xor8(Bits(b), Bits(a)), Xor8(Bits(c), Bits(a)));
    }
    BitsCancel(Bits(a), Bits(b), Bits(c));
    BitsValue(b);
    BitsValue(c);
  }

  lemma BitsCancel(x: bv8, y: bv8, z: bv8)
    requires Xor8(x, y) == Xor8(x, z) || Xor8(y, x) == Xor8(z, x)
    ensures y == z
  {
  }

  lemma XorLowInjective(s: u64, t: u64, b: Byte, c: Byte)
    requires XorLow(s, b) == XorLow(t, c)
    ensures b == c ==> s == t
    ensures s == t ==> b == c
  {
    hide XorByte;
    var x, y := XorByte(s % 256, b), XorByte(t % 256, c);
    assert (s / 256 * 256 + x) % 256 == x && (t / 256 * 256 + y) % 256 == y;
    assert s == s / 256 * 256 + s % 256 && t == t / 256 * 256 + t % 256;
    if b == c {
      XorByteCancels(b, s % 256, t % 256);
    }
    if s == t {
      XorByteCancels(s % 256, b, c);
    }
  }

  lemma InverseWorks()
    ensures FNV_PRIME as int * INVERSE as int == 1 + 887285111055 * MODULUS
  {
  }

  /** Multiplication by the prime can be undone. */
  lemma TimesPrimeInjective(x: u64, y: u64)
    requires x * FNV_PRIME % MODULUS == y * FNV_PRIME % MODULUS
    ensures x == y
  {
    Undo(x);
    Undo(y);
  }

  lemma Undo(x: u64)
    ensures (x * FNV_PRIME % MODULUS) * INVERSE % MODULUS == x
  {
    var p := x as int * FNV_PRIME as int;
    var q := p / MODULUS;
    assert p == q * MODULUS + p % MODULUS;
    InverseWorks();
    var r := p % MODULUS;
    calc {
      r * INVERSE as int;
      (p - q * MODULUS) * INVERSE as int;
      p * INVERSE as int - q * MODULUS * INVERSE as int;
      { assert p * INVERSE as int == x as int * (FNV_PRIME as int * INVERSE as int); }
      x as int * (1 + 887285111055 * MODULUS) - q * MODULUS * INVERSE as int;
      x as int + (x as int * 887285111055 - q * INVERSE as int) * MODULUS;
    }
    ModOffset(x, x as int * 887285111055 - q * INVERSE as int);
  }

  lemma ModOffset(x: u64, k: int)
    ensures (x as int + k * MODULUS) % MODULUS == x
  {
  }

  lemma MixInjective(s: u64, t: u64, b: Byte, c: Byte)
    requires Mix(s, b) == Mix(t, c)
    ensures b == c ==> s == t
    ensures s == t ==> b == c
  {
    hide XorLow;
    TimesPrimeInjective(XorLow(s, b), XorLow(t, c));
    XorLowInjective(s, t, b, c);
  }

  lemma {:induction false} MixBytesInjective(s: u64, t: u64, data: seq<Byte>)
    requires MixBytes(s, data) == MixBytes(t, data)
    ensures s == t
  {
    hide Mix;
    if data != [] {
      var n := |data| - 1;
      MixInjective(MixBytes(s, data[..n]), MixBytes(t, data[..n]), data[n], data[n]);
      MixBytesInjective(s, t, data[..n]);
    }
  }

  /** Two equal-length streams that differ in one byte have different hashes. */
  lemma SingleByteSeparates(state: u64, data: seq<Byte>, i: nat, b: Byte)
    requires i < |data| && b != data[i]
    ensures MixBytes(state, data[i := b]) != MixBytes(state, data)
  {
    hide Mix;
    var pre, post := data[..i], data[i + 1..];
    assert data == (pre + [data[i]]) + post && data[i := b] == (pre + [b]) + post;
    MixConcat(state, pre + [data[i]], post);
    MixConcat(state, pre + [b], post);
    assert (pre + [b])[..i] == pre && (pre + [data[i]])[..i] == pre;
    if MixBytes(state, data[i := b]) == MixBytes(state, data) {
      MixBytesInjective(MixBytes(state, pre + [b]), MixBytes(state, pre + [data[i]]), post);
      MixInjective(MixBytes(state, pre), MixBytes(state, pre), b, data[i]);
    }
  }

  /** Histories whose canonical streams differ in exactly one byte have different digests. */
  lemma DigestSeparates(g: seq<Entry>, h: seq<Entry>, i: nat)
    requires |Stream(g)| == |Stream(h)| && i < |Stream(g)| && Stream(g)[i] != Stream(h)[i]
    requires Stream(g) == Stream(h)[i := Stream(g)[i]]
    ensures HistoryDigest(g) != HistoryDigest(h)
  {
    hide Stream, MixBytes, HistoryDigest;
    DigestIsStreamHash(g);
    DigestIsStreamHash(h);
    SingleByteSeparates(OFFSET_BASIS, Stream(h), i, Stream(g)[i]);
  }

  // ---------- the code ----------

  class HashAccumulator {
    var state: u64

    constructor ()
      ensures state == OFFSET_BASIS
    {
      state := OFFSET_BASIS;
    }

    method MixIn(p: seq<Byte>)
      modifies this
      ensures state == MixBytes(old(state), p)
    {
      var i := 0;
      while i < |p|
        invariant 0 <= i <= |p|
        invariant state == MixBytes(old(state), p[..i])
      {
        assert p[..i + 1][..i] == p[..i];
        state := XorLow(state, p[i]);
        state := state * FNV_PRIME % MODULUS;
        i := i + 1;
      }
      assert p[..|p|] == p;
    }
  }
}
