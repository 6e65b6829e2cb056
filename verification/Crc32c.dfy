/** CRC-32C (Castagnoli; section 12.1 of RFC 3720) as src/crc32c.cpp computes it,
    a table lookup per byte, against the bit-serial definition. */
module Crc32c {
  import opened Bytes

  const POLYNOMIAL: bv32 := 0x82F63B78

  // The machine operations, named so that the inductive arguments can treat them
  // as symbols.
  function Xor32(a: bv32, b: bv32): bv32 { a ^ b }
  function Not32(a: bv32): bv32 { !a }
  function Down32(a: bv32): bv32 { a >> 8 }
  function Low32(a: bv32): bv8 { (a & 0xFF) as bv8 }
  function Half32(a: bv32): bv32 { a >> 1 }
  predicate Even(a: bv32) { a & 1 == 0 }
  predicate LowByteClear(a: bv32) { a & 0xFF == 0 }
  function Half8(x: bv8): bv8 { x >> 1 }
  predicate Odd8(x: bv8) { x & 1 == 1 }
  function Widen8(x: bv8): bv32 { x as bv32 }
  function Pack32(a: bv8, b: bv8, c: bv8, d: bv8): bv32
  {
    a as bv32 | (b as bv32 << 8) | (c as bv32 << 16) | (d as bv32 << 24)
  }
  function Clock(c: bv32): bv32
  {
    if c & 1 == 1 then POLYNOMIAL ^ (c >> 1) else c >> 1
  }
  function ClockIn(c: bv32, bit: bool): bv32
  {
    if (c & 1 == 1) != bit then POLYNOMIAL ^ (c >> 1) else c >> 1
  }

  /** The 32-bit register and an 8-bit input. */
  datatype Word = Word(bits: bv32)
  datatype Octet = Octet(bits: bv8)

  function Xor(a: Word, b: Word): Word { Word(Xor32(a.bits, b.bits)) }
  function Not(a: Word): Word { Word(Not32(a.bits)) }
  function Down8(a: Word): Word { Word(Down32(a.bits)) }
  function Low8(a: Word): Octet { Octet(Low32(a.bits)) }
  function Widen(x: Octet): Word { Word(Widen8(x.bits)) }
  function Odd(x: Octet): bool { Odd8(x.bits) }
  function Half(x: Octet): Octet { Octet(Half8(x.bits)) }
  function Pattern(b: Byte): Octet { Octet(Bits(b)) }

  // ---------- bit-serial definition ----------

  /** One clock of the reflected shift register: the incoming bit is added to the
      low end, and the polynomial is fed back when the sum is one. */
  function FeedBit(crc: Word, bit: bool): Word
  {
    Word(ClockIn(crc.bits, bit))
  }

  /** The low `n` bits of `x`, least significant first. */
  function FeedBits(crc: Word, x: Octet, n: nat): Word
    decreases n
  {
    if n == 0 then crc else FeedBits(FeedBit(crc, Odd(x)), Half(x), n - 1)
  }

  function FeedByte(crc: Word, b: Byte): Word
  {
    FeedBits(crc, Pattern(b), 8)
  }

  function Feed(crc: Word, data: seq<Byte>): Word
  {
    if data == [] then crc else FeedByte(Feed(crc, data[..|data| - 1]), data[|data| - 1])
  }

  /** The checksum of `data`, chained from `seed`, bit by bit. */
  function Crc(data: seq<Byte>, seed: Word): Word
  {
    Not(Feed(Not(seed), data))
  }

  /** The unseeded checksum as the four bytes a file or frame stores. */
  function Checksum(data: seq<Byte>): (s: seq<Byte>)
    ensures |s| == 4
  {
    WordBytes(Crc(data, Word(0)).bits)
  }

  // ---------- the register as a linear, invertible map ----------

  /** A clock with no input bit. */
  function Shift(c: Word): Word { Word(Clock(c.bits)) }

  function Shifts(c: Word, n: nat): Word
    decreases n
  {
    if n == 0 then c else Shifts(Shift(c), n - 1)
  }

  lemma ShiftInjective(c: Word, d: Word)
    requires Shift(c) == Shift(d)
    ensures c == d
  {
  }

  lemma {:induction false} ShiftsInjective(c: Word, d: Word, n: nat)
    requires Shifts(c, n) == Shifts(d, n)
    ensures c == d
    decreases n
  {
    hide Shift;
    if n > 0 {
      ShiftsInjective(Shift(c), Shift(d), n - 1);
      ShiftInjective(c, d);
    }
  }

  lemma XorLowBit(a: bv32, b: bv32)
    ensures a & 1 == 0 || a & 1 == 1
    ensures b & 1 == 0 || b & 1 == 1
    ensures (a ^ b) & 1 == (a & 1) ^ (b & 1)
    ensures (a ^ b) >> 1 == (a >> 1) ^ (b >> 1)
  {
  }

  lemma XorRegroup(p: bv32, x: bv32, y: bv32)
    ensures (p ^ x) ^ (p ^ y) == x ^ y
    ensures p ^ (x ^ y) == (p ^ x) ^ y == x ^ (p ^ y)
  {
  }

  lemma ClockLinear(a: bv32, b: bv32)
    ensures Clock(a ^ b) == Clock(a) ^ Clock(b)
  {
    XorLowBit(a, b);
    XorRegroup(POLYNOMIAL, a >> 1, b >> 1);
    if a & 1 == 1 && b & 1 == 1 {
      assert (a ^ b) & 1 == 0;
    } else if a & 1 == 1 || b & 1 == 1 {
      assert (a ^ b) & 1 == 1;
    }
  }

  lemma ClockXor(a: bv32, b: bv32)
    ensures Clock(Xor32(a, b)) == Xor32(Clock(a), Clock(b))
  {
    hide Clock;
    ClockLinear(a, b);
  }

  lemma ShiftLinear(a: Word, b: Word)
    ensures Shift(Xor(a, b)) == Xor(Shift(a), Shift(b))
  {
    hide Clock, Xor32;
    ClockXor(a.bits, b.bits);
  }

  lemma {:induction false} ShiftsLinear(a: Word, b: Word, n: nat)
    ensures Shifts(Xor(a, b), n) == Xor(Shifts(a, n), Shifts(b, n))
    decreases n
  {
    hide Shift, Xor;
    if n > 0 {
      ShiftLinear(a, b);
      ShiftsLinear(Shift(a), Shift(b), n - 1);
    }
  }

  lemma {:induction false} ShiftsAdd(c: Word, m: nat, n: nat)
    ensures Shifts(c, m + n) == Shifts(Shifts(c, m), n)
    decreases m
  {
    hide Shift;
    if m > 0 {
      ShiftsAdd(Shift(c), m - 1, n);
    }
  }

  lemma WidenHalf(x: bv8)
    ensures Even(Widen8(x)) == !Odd8(x)
    ensures Half32(Widen8(x)) == Widen8(Half8(x))
  {
  }

  lemma ClockTakesLowBit(c: bv32, w: bv32, bit: bool)
    requires bit == (w & 1 == 1)
    ensures Clock(c ^ w) == ClockIn(c, bit) ^ (w >> 1)
  {
    XorLowBit(c, w);
    XorRegroup(POLYNOMIAL, c >> 1, w >> 1);
    if c & 1 == 1 && w & 1 == 1 {
      assert (c ^ w) & 1 == 0;
    } else if c & 1 == 1 || w & 1 == 1 {
      assert (c ^ w) & 1 == 1;
    }
  }

  lemma LowBit(w: bv32)
    ensures (w & 1 == 1) == !Even(w)
  {
  }

  lemma ClockXorIn(c: bv32, w: bv32, bit: bool)
    requires bit == !Even(w)
    ensures Clock(Xor32(c, w)) == Xor32(ClockIn(c, bit), Half32(w))
  {
    hide Clock, ClockIn, Even;
    LowBit(w);
    ClockTakesLowBit(c, w, bit);
  }

  lemma ShiftFeedsLowBit(crc: Word, x: Octet)
    ensures Shift(Xor(crc, Widen(x))) == Xor(FeedBit(crc, Odd(x)), Widen(Half(x)))
  {
    hide Clock, ClockIn, Xor32, Widen8, Half32, Half8, Even, Odd8;
    WidenHalf(x.bits);
    ClockXorIn(crc.bits, Widen8(x.bits), Odd(x));
  }

  function DropBits(x: Octet, n: nat): Octet
    decreases n
  {
    if n == 0 then x else DropBits(Half(x), n - 1)
  }

  lemma {:induction false} ShiftsFeedBits(crc: Word, x: Octet, n: nat)
    ensures Shifts(Xor(crc, Widen(x)), n) == Xor(FeedBits(crc, x, n), Widen(DropBits(x, n)))
    decreases n
  {
    hide Shift, Xor, FeedBit, Odd, Half, Widen;
    if n > 0 {
      ShiftFeedsLowBit(crc, x);
      ShiftsFeedBits(FeedBit(crc, Odd(x)), Half(x), n - 1);
    }
  }

  lemma HalfEightTimes(x: bv8)
    ensures x >> 1 >> 1 >> 1 >> 1 >> 1 >> 1 >> 1 >> 1 == 0
  {
  }

  lemma DropAllBits(x: Octet)
    ensures DropBits(x, 8) == Octet(0)
  {
    var y := Half(Half(Half(Half(x))));
    assert DropBits(x, 8) == DropBits(Half(Half(x)), 6) == DropBits(y, 4);
    assert DropBits(y, 4) == DropBits(Half(Half(y)), 2) == Half(Half(Half(Half(y))));
    HalfEightTimes(x.bits);
  }

  lemma XorZero(c: Word)
    ensures Xor(c, Word(0)) == c
  {
  }

  /** Feeding the eight bits of a byte is eight clocks of the register after the
      byte has been added to its low end. */
  lemma FeedByteIsShifts(crc: Word, b: Byte)
    ensures FeedByte(crc, b) == Shifts(Xor(crc, Widen(Pattern(b))), 8)
  {
    hide Shifts, FeedBits, Xor, DropBits, Pattern;
    ShiftsFeedBits(crc, Pattern(b), 8);
    DropAllBits(Pattern(b));
    XorZero(FeedByte(crc, b));
  }

  lemma ClockEven(q: bv32)
    requires Even(q)
    ensures Clock(q) == Half32(q)
  {
  }

  lemma EightHalves(q: bv32)
    requires LowByteClear(q)
    ensures var h2 := Half32(Half32(q)); var h4 := Half32(Half32(h2)); var h6 := Half32(Half32(h4));
            && Even(q) && Even(Half32(q)) && Even(h2) && Even(Half32(h2))
            && Even(h4) && Even(Half32(h4)) && Even(h6) && Even(Half32(h6))
            && Half32(Half32(h6)) == Down32(q)
  {
  }

  /** Eight clocks of a word whose low byte is clear only move it down. */
  lemma ShiftsOfHigh(q: Word)
    requires LowByteClear(q.bits)
    ensures Shifts(q, 8) == Down8(q)
  {
    hide Clock, Half32, Even, LowByteClear, Down32;
    var h0 := q.bits;
    EightHalves(h0);
    ClockEven(h0);
    var h1 := Half32(h0);
    ClockEven(h1);
    var h2 := Half32(h1);
    ClockEven(h2);
    var h3 := Half32(h2);
    ClockEven(h3);
    var h4 := Half32(h3);
    ClockEven(h4);
    var h5 := Half32(h4);
    ClockEven(h5);
    var h6 := Half32(h5);
    ClockEven(h6);
    var h7 := Half32(h6);
    ClockEven(h7);
    assert Shifts(q, 8) == Shifts(Word(h2), 6) == Shifts(Word(h4), 4);
    assert Shifts(Word(h4), 4) == Shifts(Word(h6), 2) == Word(Half32(h7));
  }

  // ---------- the table ----------

  /** The entry `build_table` stores for index `x`. */
  function TableEntry(x: Octet): Word
  {
    Shifts(Widen(x), 8)
  }

  function High32(a: bv32): bv32 { a & 0xFFFF_FF00 }

  lemma SplitWord(a: bv32)
    ensures a == Xor32(High32(a), Widen8(Low32(a)))
    ensures LowByteClear(High32(a))
  {
  }

  lemma HighUnchanged(c: bv32, x: bv8)
    ensures Down32(High32(Xor32(c, Widen8(x)))) == Down32(c)
  {
  }

  lemma SplitLowByte(crc: Word, x: Octet) returns (hi: Word)
    ensures Xor(crc, Widen(x)) == Xor(hi, Widen(Low8(Xor(crc, Widen(x)))))
    ensures LowByteClear(hi.bits) && Down8(hi) == Down8(crc)
  {
    hide Xor32, Widen8, Low32, Down32, High32, LowByteClear;
    var a := Xor32(crc.bits, Widen8(x.bits));
    SplitWord(a);
    HighUnchanged(crc.bits, x.bits);
    hi := Word(High32(a));
  }

  lemma XorCommutes(x: Word, y: Word)
    ensures Xor(x, y) == Xor(y, x)
  {
  }

  /** One table step of `crc32c` is one byte of the bit-serial register. */
  lemma TableStep(crc: Word, b: Byte)
    ensures FeedByte(crc, b) == Xor(TableEntry(Low8(Xor(crc, Widen(Pattern(b))))), Down8(crc))
  {
    hide Shifts, FeedByte, Pattern, Xor, Widen, Low8, Down8, LowByteClear;
    var hi := SplitLowByte(crc, Pattern(b));
    var lo := Widen(Low8(Xor(crc, Widen(Pattern(b)))));
    FeedByteIsShifts(crc, b);
    ShiftsLinear(hi, lo, 8);
    ShiftsOfHigh(hi);
    XorCommutes(Down8(hi), Shifts(lo, 8));
  }

  ghost predicate IsTable(t: seq<Word>)
  {
    |t| == 256 && forall x: Octet :: t[x.bits as int] == TableEntry(x)
  }

  lemma PatternOfValue(x: Octet)
    ensures Pattern(x.bits as int) == x
  {
    ValueBits(x.bits);
  }

  /** The file-scope table of src/crc32c.cpp with its lazy initialisation. */
  class Engine {
    const table: array<Word>
    var built: bool

    ghost predicate Valid()
      reads this, table
    {
      table.Length == 256 && (built ==> IsTable(table[..]))
    }

    constructor ()
      ensures Valid() && fresh(table)
    {
      table := new Word[256];
      built := false;
    }

    method BuildTable()
      requires Valid()
      modifies this`built, table
      ensures Valid() && built
    {
      hide Shift, Pattern;
      var i := 0;
      while i < 256
        invariant 0 <= i <= 256
        invariant forall j: Byte :: j < i ==> table[j] == TableEntry(Pattern(j))
      {
        var c := Widen(Pattern(i));
        var k := 0;
        while k < 8
          invariant 0 <= k <= 8
          invariant Shifts(c, 8 - k) == TableEntry(Pattern(i))
        {
          c := Shift(c);
          k := k + 1;
        }
        table[i] := c;
        i := i + 1;
      }
      built := true;
      forall x: Octet ensures table[..][x.bits as int] == TableEntry(x) {
        PatternOfValue(x);
        assert table[x.bits as int] == TableEntry(Pattern(x.bits as int));
      }
    }

    /** The table-driven loop computes the bit-serial checksum for every buffer
        and every seed. */
    method Compute(data: seq<Byte>, seed: Word) returns (crc: Word)
      requires Valid()
      modifies this`built, table
      ensures Valid()
      ensures crc == Crc(data, seed)
    {
      hide FeedByte, Pattern, TableEntry, Xor, Widen, Low8, Down8, Not;
      if !built {
        BuildTable();
      }
      crc := Not(seed);
      var i := 0;
      while i < |data|
        invariant 0 <= i <= |data|
        invariant Valid() && built
        invariant crc == Feed(Not(seed), data[..i])
      {
        TableStep(crc, data[i]);
        var at := Low8(Xor(crc, Widen(Pattern(data[i]))));
        assert table[..][at.bits as int] == TableEntry(at);
        crc := Xor(table[at.bits as int], Down8(crc));
        assert data[..i + 1][..i] == data[..i];
        i := i + 1;
      }
      assert data[..|data|] == data;
      crc := Not(crc);
    }
  }

  // ---------- chaining ----------

  lemma {:induction false} FeedConcat(crc: Word, a: seq<Byte>, b: seq<Byte>)
    ensures Feed(crc, a + b) == Feed(Feed(crc, a), b)
    decreases |b|
  {
    hide FeedByte;
    if b == [] {
      assert a + b == a;
    } else {
      var n := |b| - 1;
      assert (a + b)[..|a + b| - 1] == a + b[..n];
      FeedConcat(crc, a, b[..n]);
    }
  }

  lemma NotNot(x: Word)
    ensures Not(Not(x)) == x
  {
  }

  lemma NotInjective(x: Word, y: Word)
    requires Not(x) == Not(y)
    ensures x == y
  {
    NotNot(x);
    NotNot(y);
  }

  /** A checksum may be continued from the checksum of what came before. */
  lemma Chaining(a: seq<Byte>, b: seq<Byte>, seed: Word)
    ensures Crc(a + b, seed) == Crc(b, Crc(a, seed))
  {
    hide Feed, Not;
    FeedConcat(Not(seed), a, b);
    NotNot(Feed(Not(seed), a));
  }

  // ---------- error detection ----------

  lemma XorCancel(c: Word, x: Word, y: Word)
    requires Xor(c, x) == Xor(c, y) || Xor(x, c) == Xor(y, c)
    ensures x == y
  {
  }

  lemma FeedByteInjective(c: Word, d: Word, b: Byte)
    requires FeedByte(c, b) == FeedByte(d, b)
    ensures c == d
  {
    hide FeedByte, Shifts, Xor, Widen, Pattern;
    FeedByteIsShifts(c, b);
    FeedByteIsShifts(d, b);
    var w := Widen(Pattern(b));
    ShiftsInjective(Xor(c, w), Xor(d, w), 8);
    XorCancel(w, c, d);
  }

  /** The register never forgets: with the same tail, different states stay different. */
  lemma {:induction false} FeedInjective(c: Word, d: Word, data: seq<Byte>)
    requires Feed(c, data) == Feed(d, data)
    ensures c == d
  {
    hide FeedByte;
    if data != [] {
      var n := |data| - 1;
      FeedByteInjective(Feed(c, data[..n]), Feed(d, data[..n]), data[n]);
      FeedInjective(c, d, data[..n]);
    }
  }

  /** Four octets as the word they add to the register. */
  function Pack(a: Octet, b: Octet, c: Octet, d: Octet): Word
  {
    Word(Pack32(a.bits, b.bits, c.bits, d.bits))
  }

  lemma PackInjective(a: Octet, b: Octet, c: Octet, d: Octet, a': Octet, b': Octet, c': Octet, d': Octet)
    requires Pack(a, b, c, d) == Pack(a', b', c', d')
    ensures a == a' && b == b' && c == c' && d == d'
  {
  }

  function Tail32(x1: bv8, x2: bv8, x3: bv8): bv32
  {
    (x1 as bv32 << 8) | (x2 as bv32 << 16) | (x3 as bv32 << 24)
  }

  lemma TailMovesDown(x1: bv8, x2: bv8, x3: bv8)
    ensures LowByteClear(Tail32(x1, x2, x3))
    ensures Down32(Tail32(x1, x2, x3)) == Pack32(x1, x2, x3, 0)
  {
  }

  lemma PackHeadTail(x0: bv8, x1: bv8, x2: bv8, x3: bv8)
    ensures Pack32(x0, x1, x2, x3) == Xor32(Widen8(x0), Tail32(x1, x2, x3))
  {
  }

  lemma XorAssociates(a: bv32, b: bv32, c: bv32)
    ensures Xor32(a, Xor32(b, c)) == Xor32(Xor32(a, b), c)
  {
  }

  lemma PackHead(c: Word, x0: Octet, x1: Octet, x2: Octet, x3: Octet) returns (q: Word)
    ensures LowByteClear(q.bits)
    ensures Xor(c, Pack(x0, x1, x2, x3)) == Xor(Xor(c, Widen(x0)), q)
    ensures Down8(q) == Pack(x1, x2, x3, Octet(0))
  {
    hide Xor32, Widen8, Down32, Pack32, Tail32, LowByteClear;
    TailMovesDown(x1.bits, x2.bits, x3.bits);
    PackHeadTail(x0.bits, x1.bits, x2.bits, x3.bits);
    XorAssociates(c.bits, Widen8(x0.bits), Tail32(x1.bits, x2.bits, x3.bits));
    q := Word(Tail32(x1.bits, x2.bits, x3.bits));
  }

  /** Eight clocks take in the first octet and bring the next one to the low end. */
  lemma PackStep(c: Word, b: Byte, x1: Octet, x2: Octet, x3: Octet)
    ensures Shifts(Xor(c, Pack(Pattern(b), x1, x2, x3)), 8) == Xor(FeedByte(c, b), Pack(x1, x2, x3, Octet(0)))
  {
    hide FeedByte, Shifts, Xor, Widen, Pattern, Pack, Down8, LowByteClear;
    var q := PackHead(c, Pattern(b), x1, x2, x3);
    ShiftsLinear(Xor(c, Widen(Pattern(b))), q, 8);
    ShiftsOfHigh(q);
    FeedByteIsShifts(c, b);
  }

  lemma PackZero(c: Word)
    ensures Xor(c, Pack(Octet(0), Octet(0), Octet(0), Octet(0))) == c
  {
  }

  lemma FeedFour(c: Word, s: seq<Byte>)
    requires |s| == 4
    ensures Feed(c, s) == FeedByte(FeedByte(FeedByte(FeedByte(c, s[0]), s[1]), s[2]), s[3])
  {
    hide FeedByte;
    var t, u := s[..3], s[..2];
    assert t[..2] == u && u[..1] == [s[0]] && s[..1] == [s[0]] && [s[0]][..0] == [];
    assert Feed(c, s[..1]) == FeedByte(c, s[0]);
    assert Feed(c, u) == FeedByte(FeedByte(c, s[0]), s[1]);
    assert Feed(c, t) == FeedByte(Feed(c, u), s[2]);
  }

  /** Four bytes in a row are thirty-two clocks after adding one word. */
  lemma FourBytesAreShifts(c: Word, s: seq<Byte>)
    requires |s| == 4
    ensures Feed(c, s) == Shifts(Xor(c, Pack(Pattern(s[0]), Pattern(s[1]), Pattern(s[2]), Pattern(s[3]))), 32)
  {
    hide FeedByte, Feed, Shifts, Xor, Pattern, Pack;
    var x1, x2, x3, z := Pattern(s[1]), Pattern(s[2]), Pattern(s[3]), Octet(0);
    var w := Xor(c, Pack(Pattern(s[0]), x1, x2, x3));
    var c1 := FeedByte(c, s[0]);
    var c2 := FeedByte(c1, s[1]);
    var c3 := FeedByte(c2, s[2]);
    PackStep(c, s[0], x1, x2, x3);
    PackStep(c1, s[1], x2, x3, z);
    PackStep(c2, s[2], x3, z, z);
    PackStep(c3, s[3], z, z, z);
    PackZero(FeedByte(c3, s[3]));
    FeedFour(c, s);
    ShiftsAdd(w, 8, 24);
    ShiftsAdd(Shifts(w, 8), 8, 16);
    ShiftsAdd(Shifts(Shifts(w, 8), 8), 8, 8);
  }

  lemma PatternInjective(b: Byte, b': Byte)
    requires Pattern(b) == Pattern(b')
    ensures b == b'
  {
    BitsValue(b);
    BitsValue(b');
  }

  lemma FourBytesSeparate(c: Word, s: seq<Byte>, t: seq<Byte>)
    requires |s| == |t| == 4 && Feed(c, s) == Feed(c, t)
    ensures s == t
  {
    hide FeedByte, Feed, Shifts, Xor, Pattern, Pack;
    FourBytesAreShifts(c, s);
    FourBytesAreShifts(c, t);
    var v := Pack(Pattern(s[0]), Pattern(s[1]), Pattern(s[2]), Pattern(s[3]));
    var w := Pack(Pattern(t[0]), Pattern(t[1]), Pattern(t[2]), Pattern(t[3]));
    ShiftsInjective(Xor(c, v), Xor(c, w), 32);
    XorCancel(c, v, w);
    PackInjective(Pattern(s[0]), Pattern(s[1]), Pattern(s[2]), Pattern(s[3]),
                  Pattern(t[0]), Pattern(t[1]), Pattern(t[2]), Pattern(t[3]));
    PatternInjective(s[0], t[0]);
    PatternInjective(s[1], t[1]);
    PatternInjective(s[2], t[2]);
    PatternInjective(s[3], t[3]);
  }

  /** Two equal-length buffers that differ only inside four consecutive bytes have
      different checksums, from every seed. */
  lemma BurstDetected(pre: seq<Byte>, s: seq<Byte>, t: seq<Byte>, post: seq<Byte>, seed: Word)
    requires |s| == |t| == 4 && s != t
    ensures Crc(pre + s + post, seed) != Crc(pre + t + post, seed)
  {
    hide Feed, Not;
    if Crc(pre + s + post, seed) == Crc(pre + t + post, seed) {
      var c0 := Not(seed);
      var c := Feed(c0, pre);
      NotInjective(Feed(c0, pre + s + post), Feed(c0, pre + t + post));
      FeedConcat(c0, pre + s, post);
      FeedConcat(c0, pre + t, post);
      FeedConcat(c0, pre, s);
      FeedConcat(c0, pre, t);
      FeedInjective(Feed(c, s), Feed(c, t), post);
      FourBytesSeparate(c, s, t);
    }
  }

  lemma FeedByteSeparates(c: Word, b: Byte, b': Byte)
    requires FeedByte(c, b) == FeedByte(c, b')
    ensures b == b'
  {
    hide FeedByte, Shifts, Xor, Pattern, Widen;
    FeedByteIsShifts(c, b);
    FeedByteIsShifts(c, b');
    ShiftsInjective(Xor(c, Widen(Pattern(b))), Xor(c, Widen(Pattern(b'))), 8);
    XorCancel(c, Widen(Pattern(b)), Widen(Pattern(b')));
    WidenInjective(Pattern(b), Pattern(b'));
    PatternInjective(b, b');
  }

  lemma WidenInjective(x: Octet, y: Octet)
    requires Widen(x) == Widen(y)
    ensures x == y
  {
  }

  /** Changing one byte of a buffer of any length changes its checksum. */
  lemma SingleByteDetected(data: seq<Byte>, i: nat, b: Byte, seed: Word)
    requires i < |data| && b != data[i]
    ensures Crc(data[i := b], seed) != Crc(data, seed)
  {
    hide FeedByte, Not;
    var pre, post := data[..i], data[i + 1..];
    assert data == (pre + [data[i]]) + post && data[i := b] == (pre + [b]) + post;
    var c0 := Not(seed);
    var c := Feed(c0, pre);
    FeedConcat(c0, pre + [data[i]], post);
    FeedConcat(c0, pre + [b], post);
    assert (pre + [b])[..i] == pre && (pre + [data[i]])[..i] == pre;
    if Crc(data[i := b], seed) == Crc(data, seed) {
      NotInjective(Feed(c0, data[i := b]), Feed(c0, data));
      FeedInjective(FeedByte(c, b), FeedByte(c, data[i]), post);
      FeedByteSeparates(c, b, data[i]);
    }
  }

  /** The stored form of the checksum separates the same buffers. */
  lemma ChecksumSeparates(data: seq<Byte>, i: nat, b: Byte)
    requires i < |data| && b != data[i]
    ensures Checksum(data[i := b]) != Checksum(data)
  {
    hide Crc, WordBytes;
    SingleByteDetected(data, i, b, Word(0));
    if Checksum(data[i := b]) == Checksum(data) {
      WordBytesInjective(Crc(data[i := b], Word(0)).bits, Crc(data, Word(0)).bits);
    }
  }
}
