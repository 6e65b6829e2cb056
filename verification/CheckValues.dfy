/** Published and concrete values that tie the constants of the checksum and of the
    digest down: the polynomial, its reflection and complements, the starting state and
    the multiplier. */
module CheckValues {
  import opened Bytes
  import opened Crc32c
  import Digest

  // ---------- CRC-32C ----------

  /** Eight clocks of the register, written out. */
  function Clocks(c: bv32, x: bv8): bv32
  {
    Four(Four(c, x), Half8(Half8(Half8(Half8(x)))))
  }

  function Four(c: bv32, x: bv8): bv32
  {
    var x1 := Half8(x);
    var x2 := Half8(x1);
    ClockIn(ClockIn(ClockIn(ClockIn(c, Odd8(x)), Odd8(x1)), Odd8(x2)), Odd8(Half8(x2)))
  }

  lemma FeedFourBits(c: bv32, x: bv8, n: nat)
    ensures FeedBits(Word(c), Octet(x), n + 4) == FeedBits(Word(Four(c, x)), Octet(Half8(Half8(Half8(Half8(x))))), n)
  {
    hide ClockIn, Odd8, Half8;
    var c1 := ClockIn(c, Odd8(x));
    var x1 := Half8(x);
    var c2 := ClockIn(c1, Odd8(x1));
    var x2 := Half8(x1);
    assert FeedBits(Word(c), Octet(x), n + 4) == FeedBits(Word(c1), Octet(x1), n + 3);
    assert FeedBits(Word(c1), Octet(x1), n + 3) == FeedBits(Word(c2), Octet(x2), n + 2);
    var c3 := ClockIn(c2, Odd8(x2));
    var x3 := Half8(x2);
    assert FeedBits(Word(c2), Octet(x2), n + 2) == FeedBits(Word(c3), Octet(x3), n + 1);
    assert FeedBits(Word(c3), Octet(x3), n + 1) == FeedBits(Word(ClockIn(c3, Odd8(x3))), Octet(Half8(x3)), n);
  }

  lemma FeedIsClocks(c: bv32, x: bv8)
    ensures FeedBits(Word(c), Octet(x), 8) == Word(Clocks(c, x))
  {
    hide Four, Half8, FeedBits;
    FeedFourBits(c, x, 4);
    var y := Half8(Half8(Half8(Half8(x))));
    FeedFourBits(Four(c, x), y, 0);
    NoBits(Word(Four(Four(c, x), y)), Octet(Half8(Half8(Half8(Half8(y))))));
  }

  lemma NoBits(c: Word, x: Octet)
    ensures FeedBits(c, x, 0) == c
  {
  }

  lemma DigitPattern(b: Byte, x: bv8)
    requires x as int == b
    ensures Pattern(b) == Octet(x)
  {
    BitsValue(b);
    SameValueSameBits(Bits(b), x);
  }

  /** One more byte of the message. */
  lemma Step(done: seq<Byte>, b: Byte, x: bv8, before: bv32, after: bv32)
    requires Feed(Word(0xFFFF_FFFF), done) == Word(before) && x as int == b && Clocks(before, x) == after
    ensures Feed(Word(0xFFFF_FFFF), done + [b]) == Word(after)
  {
    hide Pattern, Clocks, FeedBits;
    var all := done + [b];
    assert all[..|all| - 1] == done;
    DigitPattern(b, x);
    FeedIsClocks(before, x);
  }

  /** The check value of CRC-32C: the checksum of the nine digits 1 to 9. */
  lemma CheckOfNineDigits()
    ensures Crc([0x31, 0x32, 0x33, 0x34, 0x35, 0x36, 0x37, 0x38, 0x39], Word(0)).bits == 0xE306_9283
  {
    hide Feed, Clocks;
    FirstDigits();
    LastDigits();
    NothingFed();
    var m0: seq<Byte> := [];
    Step(m0, 0x31, 0x31, 0xFFFF_FFFF, 0x6F0A_661C);
    var m1 := m0 + [0x31];
    Step(m1, 0x32, 0x32, 0x6F0A_661C, 0x8CAA_3B9F);
    var m2 := m1 + [0x32];
    Step(m2, 0x33, 0x33, 0x8CAA_3B9F, 0xEF84_D04D);
    var m3 := m2 + [0x33];
    Step(m3, 0x34, 0x34, 0xEF84_D04D, 0x09C5_0B11);
    var m4 := m3 + [0x34];
    Step(m4, 0x35, 0x35, 0x09C5_0B11, 0xE72E_DCCA);
    var m5 := m4 + [0x35];
    Step(m5, 0x36, 0x36, 0xE72E_DCCA, 0xBECA_8E79);
    var m6 := m5 + [0x36];
    Step(m6, 0x37, 0x37, 0xBECA_8E79, 0xEDBD_6815);
    var m7 := m6 + [0x37];
    Step(m7, 0x38, 0x38, 0xEDBD_6815, 0x9F78_7F65);
    var m8 := m7 + [0x38];
    Step(m8, 0x39, 0x39, 0x9F78_7F65, 0x1CF9_6D7C);
    var m9 := m8 + [0x39];
    assert m9 == [0x31, 0x32, 0x33, 0x34, 0x35, 0x36, 0x37, 0x38, 0x39];
  }

  lemma NothingFed()
    ensures Feed(Word(0xFFFF_FFFF), []) == Word(0xFFFF_FFFF)
  {
  }

  lemma FirstDigits()
    ensures Clocks(0xFFFF_FFFF, 0x31) == 0x6F0A_661C && Clocks(0x6F0A_661C, 0x32) == 0x8CAA_3B9F
    ensures Clocks(0x8CAA_3B9F, 0x33) == 0xEF84_D04D && Clocks(0xEF84_D04D, 0x34) == 0x09C5_0B11
  {
  }

  lemma LastDigits()
    ensures Clocks(0x09C5_0B11, 0x35) == 0xE72E_DCCA && Clocks(0xE72E_DCCA, 0x36) == 0xBECA_8E79
    ensures Clocks(0xBECA_8E79, 0x37) == 0xEDBD_6815 && Clocks(0xEDBD_6815, 0x38) == 0x9F78_7F65
    ensures Clocks(0x9F78_7F65, 0x39) == 0x1CF9_6D7C
  {
  }

  // ---------- digest ----------

  /** The digest state after the first byte of every stream. */
  lemma DigestOfOneByte()
    ensures Digest.MixBytes(Digest.OFFSET_BASIS, [0x45]) == 4953237023932377458
  {
    var one: seq<Byte> := [0x45];
    assert one[..0] == [];
    assert 1469598103934665603 % 256 == 0x83;
    XorOfBytes();
  }

  lemma XorOfBytes()
    ensures Digest.XorByte(0x83, 0x45) == 0xC6
  {
    DigitPattern(0x83, 0x83);
    DigitPattern(0x45, 0x45);
  }
}
