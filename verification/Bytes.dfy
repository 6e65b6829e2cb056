/** Bytes, fixed-width little-endian integers and the bit patterns behind them.

    A byte is an integer below 256. `PutLE` is the shift-and-mask loop of every
    `put_u*` helper (it keeps the low `n` bytes, as the casts there do) and
    `GetLE` is the shift-and-or loop of every reader. */
module Bytes {

  type Byte = x: int | 0 <= x < 0x100
  type u32 = x: int | 0 <= x < 0x1_0000_0000
  type u64 = x: int | 0 <= x < 0x1_0000_0000_0000_0000

  const MAX64: u64 := 0xFFFF_FFFF_FFFF_FFFF
  const MODULUS := 0x1_0000_0000_0000_0000

  function Pow256(n: nat): (p: nat)
    ensures p > 0
  {
    if n == 0 then 1 else 256 * Pow256(n - 1)
  }

  lemma Widths()
    ensures Pow256(1) == 0x100
    ensures Pow256(4) == 0x1_0000_0000
    ensures Pow256(8) == 0x1_0000_0000_0000_0000
  {
    assert Pow256(1) == 256 * Pow256(0);
    assert Pow256(2) == 256 * Pow256(1);
    assert Pow256(3) == 256 * Pow256(2);
    assert Pow256(4) == 256 * Pow256(3);
    assert Pow256(5) == 256 * Pow256(4);
    assert Pow256(6) == 256 * Pow256(5);
    assert Pow256(7) == 256 * Pow256(6);
    assert Pow256(8) == 256 * Pow256(7);
  }

  function PutLE(v: nat, n: nat): (s: seq<Byte>)
    ensures |s| == n
    decreases n
  {
    if n == 0 then [] else [v % 256] + PutLE(v / 256, n - 1)
  }

  function GetLE(s: seq<Byte>): (v: nat)
  {
    if s == [] then 0 else s[0] + 256 * GetLE(s[1..])
  }

  /** Reading back what was written loses exactly the bytes the width cut off. */
  lemma {:induction false} GetPut(v: nat, n: nat)
    ensures v < Pow256(n) ==> GetLE(PutLE(v, n)) == v
    decreases n
  {
    if n > 0 {
      var s := PutLE(v, n);
      assert s[1..] == PutLE(v / 256, n - 1);
      GetPut(v / 256, n - 1);
      assert v < 256 * Pow256(n - 1) ==> v / 256 < Pow256(n - 1);
    }
  }

  lemma {:induction false} PutGet(s: seq<Byte>)
    ensures PutLE(GetLE(s), |s|) == s
    ensures GetLE(s) < Pow256(|s|)
  {
    if s != [] {
      PutGet(s[1..]);
      var v := GetLE(s);
      assert v % 256 == s[0] && v / 256 == GetLE(s[1..]);
      assert s == [s[0]] + s[1..];
    }
  }

  lemma GetInjective(s: seq<Byte>, t: seq<Byte>)
    requires |s| == |t| && GetLE(s) == GetLE(t)
    ensures s == t
  {
    PutGet(s);
    PutGet(t);
  }

  lemma {:induction false} GetAppend(s: seq<Byte>, b: Byte)
    ensures GetLE(s + [b]) == GetLE(s) + b * Pow256(|s|)
  {
    if s == [] {
      assert s + [b] == [b];
    } else {
      assert (s + [b])[1..] == s[1..] + [b];
      GetAppend(s[1..], b);
      calc {
        GetLE(s + [b]);
        s[0] + 256 * (GetLE(s[1..]) + b * Pow256(|s| - 1));
        { assert 256 * (b * Pow256(|s| - 1)) == b * Pow256(|s|); }
        GetLE(s) + b * Pow256(|s|);
      }
    }
  }

  // ---------- integers at an offset, spelled out ----------

  /** The four bytes at `o` are `v`, low byte first. */
  predicate U32At(s: seq<Byte>, o: nat, v: int)
  {
    o + 4 <= |s| && v == s[o] as int + 0x100 * s[o + 1] as int + 0x1_0000 * s[o + 2] as int + 0x100_0000 * s[o + 3] as int
  }

  /** The eight bytes at `o` are `v`, low byte first. */
  predicate U64At(s: seq<Byte>, o: nat, v: int)
  {
    && o + 8 <= |s|
    && v == s[o] as int + 0x100 * s[o + 1] as int + 0x1_0000 * s[o + 2] as int + 0x100_0000 * s[o + 3] as int + 0x1_0000_0000 * s[o + 4] as int
            + 0x100_0000_0000 * s[o + 5] as int + 0x1_0000_0000_0000 * s[o + 6] as int + 0x100_0000_0000_0000 * s[o + 7] as int
  }

  lemma {:induction false} GetTwo(s: seq<Byte>)
    requires |s| >= 2
    ensures GetLE(s) == s[0] + 0x100 * s[1] + 0x1_0000 * GetLE(s[2..])
  {
    assert s[1..][1..] == s[2..];
  }

  lemma GetFour(s: seq<Byte>)
    requires |s| >= 4
    ensures GetLE(s) == s[0] + 0x100 * s[1] + 0x1_0000 * s[2] + 0x100_0000 * s[3] + 0x1_0000_0000 * GetLE(s[4..])
  {
    GetTwo(s);
    GetTwo(s[2..]);
    assert s[2..][2..] == s[4..];
  }

  /** The loops of the readers and writers are the spelled-out sums. */
  lemma LittleEndian(s: seq<Byte>)
    ensures |s| == 4 ==> U32At(s, 0, GetLE(s))
    ensures |s| == 8 ==> U64At(s, 0, GetLE(s))
  {
    if |s| == 4 {
      GetFour(s);
    } else if |s| == 8 {
      GetFour(s);
      GetFour(s[4..]);
    }
  }

  // ---------- bit patterns ----------

  /** The bit pattern of a byte, assembled from its two hexadecimal digits. */
  function Bits(b: Byte): bv8
  {
    (((b / 16) as bv4) as bv8 << 4) | ((b % 16) as bv4) as bv8
  }

  lemma Digit(a: int)
    requires 0 <= a < 16
    ensures (a as bv4) as int == a
  {
  }

  lemma JoinDigits(h: bv4, l: bv4)
    ensures ((h as bv8 << 4) | l as bv8) as int == 16 * (h as int) + l as int
  {
  }

  lemma BitsValue(b: Byte)
    ensures Bits(b) as int == b
  {
    var h, l := b / 16, b % 16;
    Digit(h);
    Digit(l);
    JoinDigits(h as bv4, l as bv4);
  }

  lemma SameValueSameBits(x: bv8, y: bv8)
    requires x as int == y as int
    ensures x == y
  {
  }

  lemma ValueBits(x: bv8)
    ensures Bits(x as int) == x
  {
    BitsValue(x as int);
    SameValueSameBits(Bits(x as int), x);
  }

  /** The four little-endian bytes of a 32-bit word. */
  function WordBytes(w: bv32): (s: seq<Byte>)
    ensures |s| == 4
  {
    [(w & 0xFF) as bv8 as int, ((w >> 8) & 0xFF) as bv8 as int,
     ((w >> 16) & 0xFF) as bv8 as int, ((w >> 24) & 0xFF) as bv8 as int]
  }

  lemma WordBytesInjective(v: bv32, w: bv32)
    requires WordBytes(v) == WordBytes(w)
    ensures v == w
  {
    var s, t := WordBytes(v), WordBytes(w);
    assert s[0] == t[0] && s[1] == t[1] && s[2] == t[2] && s[3] == t[3];
    SameValueSameBits((v & 0xFF) as bv8, (w & 0xFF) as bv8);
    SameValueSameBits(((v >> 8) & 0xFF) as bv8, ((w >> 8) & 0xFF) as bv8);
    SameValueSameBits(((v >> 16) & 0xFF) as bv8, ((w >> 16) & 0xFF) as bv8);
    SameValueSameBits(((v >> 24) & 0xFF) as bv8, ((w >> 24) & 0xFF) as bv8);
  }

  // ---------- reading from the front of a buffer ----------

  /** A reader either runs out of bytes (or meets a forbidden one) or yields a
      value and the bytes that follow it. */
  datatype Parse<+T> = Fail | Done(value: T, rest: seq<Byte>) {
    predicate IsFailure() { Fail? }
    function PropagateFailure<U>(): Parse<U> requires Fail? { Fail }
    function Extract(): (T, seq<Byte>) requires Done? { (value, rest) }
  }

  function PutU8(v: Byte): (s: seq<Byte>) { [v] }
  function PutU32(v: nat): (s: seq<Byte>) { PutLE(v, 4) }
  function PutU64(v: nat): (s: seq<Byte>) { PutLE(v, 8) }

  function ReadU8(s: seq<Byte>): (r: Parse<Byte>)
    ensures r.Done? ==> s == PutU8(r.value) + r.rest
  {
    if |s| < 1 then Fail else Done(s[0], s[1..])
  }

  function ReadU32(s: seq<Byte>): (r: Parse<u32>)
    ensures r.Done? ==> s == PutU32(r.value) + r.rest
  {
    if |s| < 4 then Fail else
      PutGet(s[..4]); Widths();
      Done(GetLE(s[..4]), s[4..])
  }

  function ReadU64(s: seq<Byte>): (r: Parse<u64>)
    ensures r.Done? ==> s == PutU64(r.value) + r.rest
  {
    if |s| < 8 then Fail else
      PutGet(s[..8]); Widths();
      Done(GetLE(s[..8]), s[8..])
  }

  lemma ReadPutU8(v: Byte, rest: seq<Byte>)
    ensures ReadU8(PutU8(v) + rest) == Done(v, rest)
  {
    assert (PutU8(v) + rest)[1..] == rest;
  }

  lemma ReadPutU32(v: u32, rest: seq<Byte>)
    ensures ReadU32(PutU32(v) + rest) == Done(v, rest)
  {
    var s := PutU32(v) + rest;
    assert s[..4] == PutU32(v) && s[4..] == rest;
    GetPut(v, 4);
    Widths();
  }

  lemma ReadPutU64(v: u64, rest: seq<Byte>)
    ensures ReadU64(PutU64(v) + rest) == Done(v, rest)
  {
    var s := PutU64(v) + rest;
    assert s[..8] == PutU64(v) && s[8..] == rest;
    GetPut(v, 8);
    Widths();
  }
}
