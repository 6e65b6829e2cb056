/** Where every field stands on the wire and in the file, by byte offset. Round trips
    and canonicity would hold for any order of fields; these lemmas fix the one that
    src/ledger.cpp and src/protocol.cpp write. Integers at an offset are spelled out
    byte by byte. */
module Layout {
  import opened Bytes
  import opened Entries
  import opened Crc32c
  import opened Codec
  import opened Ledger
  import opened Runs
  import opened Image
  import opened Frames
  import Digest

  // ---------- one field at the front of what is left ----------

  lemma FieldU8(b: seq<Byte>, k: nat, v: Byte, t: seq<Byte>)
    requires k <= |b| && b[k..] == PutU8(v) + t
    ensures k + 1 <= |b| && b[k] == v && b[k + 1..] == t
  {
    var rest := b[k..];
    assert b[k] == rest[0];
    assert b[k + 1..] == rest[1..];
  }

  lemma FieldU32(b: seq<Byte>, k: nat, v: u32, t: seq<Byte>)
    requires k <= |b| && b[k..] == PutU32(v) + t
    ensures U32At(b, k, v) && b[k + 4..] == t
  {
    var rest := b[k..];
    assert rest[..4] == PutU32(v) && rest[4..] == t;
    GetPut(v, 4);
    Widths();
    LittleEndian(rest[..4]);
    assert forall i :: 0 <= i < 4 ==> b[k + i] == rest[..4][i];
    assert b[k + 4..] == rest[4..];
  }

  lemma FieldU64(b: seq<Byte>, k: nat, v: u64, t: seq<Byte>)
    requires k <= |b| && b[k..] == PutU64(v) + t
    ensures U64At(b, k, v) && b[k + 8..] == t
  {
    var rest := b[k..];
    assert rest[..8] == PutU64(v) && rest[8..] == t;
    GetPut(v, 8);
    Widths();
    LittleEndian(rest[..8]);
    assert forall i :: 0 <= i < 8 ==> b[k + i] == rest[..8][i];
    assert b[k + 8..] == rest[8..];
  }

  /** A run of words. */
  ghost predicate WordsAt(b: seq<Byte>, k: nat, vs: seq<u64>)
  {
    forall i :: 0 <= i < |vs| ==> U64At(b, k + 8 * i, vs[i])
  }

  lemma {:induction false} FieldWords(b: seq<Byte>, k: nat, vs: seq<u64>, t: seq<Byte>)
    requires k <= |b| && b[k..] == PutWordsThen(vs, t)
    ensures WordsAt(b, k, vs) && k + 8 * |vs| <= |b| && b[k + 8 * |vs|..] == t
    decreases |vs|
  {
    hide PutU64, U64At;
    if vs != [] {
      FieldU64(b, k, vs[0], PutWordsThen(vs[1..], t));
      FitsU64(b, k, vs[0]);
      FieldWords(b, k + 8, vs[1..], t);
      forall i | 0 <= i < |vs| ensures U64At(b, k + 8 * i, vs[i]) {
        if i > 0 {
          assert vs[1..][i - 1] == vs[i];
          assert U64At(b, k + 8 + 8 * (i - 1), vs[1..][i - 1]);
        }
      }
    }
  }

  lemma FitsU64(b: seq<Byte>, k: nat, v: int)
    requires U64At(b, k, v)
    ensures k + 8 <= |b|
  {
  }

  lemma {:induction false} ParticipantWordsAt(ps: seq<Participant>, i: nat)
    requires i < |ps|
    ensures ParticipantWords(ps)[2 * i] == ps[i].account && ParticipantWords(ps)[2 * i + 1] == ps[i].weight
  {
    if i > 0 {
      ParticipantWordsAt(ps[1..], i - 1);
      assert ps[1..][i - 1] == ps[i];
      assert ParticipantWords(ps)[2..] == ParticipantWords(ps[1..]);
    }
  }

  // ---------- the entry ----------

  /** Where the parts that follow an optional one start. */
  function StrandedAt(e: Entry): nat { if e.avoidedWork.Some? then 276 else 148 }

  function OwnershipAt(e: Entry): nat { StrandedAt(e) + if e.strandedCapacity.Some? then 129 else 1 }

  function FencesAt(e: Entry): nat
  {
    OwnershipAt(e) + if e.shared.Some? then 16 + 16 * |e.shared.value.participants| else 11
  }

  function NoteAt(e: Entry): nat { FencesAt(e) + if e.target.Some? then 226 else 218 }

  ghost predicate HeadLaidOut(e: Entry, b: seq<Byte>)
  {
    && |b| > 148 && U32At(b, 0, |b| - 4) && U64At(b, 4, e.id) && b[12] == e.event && b[13] == e.classification
    && b[14] == e.subcategory.useful && b[15] == e.subcategory.overhead && b[16] == e.subcategory.waste
    && b[17] == e.subcategory.avoided && b[18] == e.subcategory.stranded && WordsAt(b, 19, e.usage)
  }

  ghost predicate OptionalDimsAt(b: seq<Byte>, k: nat, o: Option<Dims>)
  {
    k < |b| && b[k] == (if o.Some? then 1 else 0) && (o.Some? ==> WordsAt(b, k + 1, o.value))
  }

  ghost predicate OwnershipLaidOut(e: Entry, b: seq<Byte>, k: nat)
  {
    && k + 11 <= |b| && b[k] == e.provenance && b[k + 1] == e.freshness && U64At(b, k + 2, e.account)
    && SharedLaidOut(b, k + 10, e.shared)
  }

  ghost predicate FencesLaidOut(f: Fences, b: seq<Byte>, k: nat)
  {
    && U64At(b, k, f.epoch) && U64At(b, k + 8, f.workerBoot) && U64At(b, k + 16, f.ledgerGeneration)
    && U64At(b, k + 24, f.accountGeneration) && U64At(b, k + 32, f.workloadGeneration) && U64At(b, k + 40, f.resourceGeneration)
    && U64At(b, k + 48, f.reservationGeneration) && U64At(b, k + 56, f.allocationGeneration)
    && U64At(b, k + 64, f.transferGeneration) && U64At(b, k + 72, f.recoveryGeneration) && U64At(b, k + 80, f.cacheGeneration)
    && U64At(b, k + 88, f.evidenceGeneration) && U64At(b, k + 96, f.accountingGeneration) && U64At(b, k + 104, f.publication)
  }

  ghost predicate OwnersLaidOut(o: Owners, b: seq<Byte>, k: nat)
  {
    && U64At(b, k, o.resource) && U64At(b, k + 8, o.transfer) && U64At(b, k + 16, o.reservation) && U64At(b, k + 24, o.allocation)
    && U64At(b, k + 32, o.recovery) && U64At(b, k + 40, o.cacheObject) && U64At(b, k + 48, o.device) && U64At(b, k + 56, o.request)
    && U64At(b, k + 64, o.workload) && U64At(b, k + 72, o.job) && U64At(b, k + 80, o.service)
  }

  /** Attempt, outcome, revision target and note, after the owners. */
  ghost predicate EndLaidOut(e: Entry, b: seq<Byte>, k: nat)
  {
    && U64At(b, k, e.attempt.id) && U64At(b, k + 8, e.attempt.generation) && k + 18 <= |b| && b[k + 16] == e.outcome
    && b[k + 17] == (if e.target.Some? then 1 else 0) && (e.target.Some? ==> U64At(b, k + 18, e.target.value))
    && var n := k + if e.target.Some? then 26 else 18;
       U32At(b, n, |e.note|) && b[n + 4..] == e.note
  }

  lemma HeadLayout(e: Entry, b: seq<Byte>, t: seq<Byte>)
    requires |b| >= 4 && b[4..] == PutHeadThen(HeadOf(e), PutWordsThen(e.usage, t))
    ensures U64At(b, 4, e.id) && |b| > 18 && b[12] == e.event && b[13] == e.classification
    ensures b[14] == e.subcategory.useful && b[15] == e.subcategory.overhead && b[16] == e.subcategory.waste
    ensures b[17] == e.subcategory.avoided && b[18] == e.subcategory.stranded && WordsAt(b, 19, e.usage)
    ensures |b| >= 147 && b[147..] == t
  {
    hide PutU8, PutU64, PutWordsThen, U64At, WordsAt;
    var c := e.subcategory;
    var t8 := PutWordsThen(e.usage, t);
    var t7 := PutU8(c.stranded) + t8;
    var t6 := PutU8(c.avoided) + t7;
    var t5 := PutU8(c.waste) + t6;
    var t4 := PutU8(c.overhead) + t5;
    var t3 := PutU8(c.useful) + t4;
    var t2 := PutU8(e.classification) + t3;
    var t1 := PutU8(e.event) + t2;
    FieldU64(b, 4, e.id, t1);
    FitsU64(b, 4, e.id);
    FieldU8(b, 12, e.event, t2);
    FieldU8(b, 13, e.classification, t3);
    FieldU8(b, 14, c.useful, t4);
    FieldU8(b, 15, c.overhead, t5);
    FieldU8(b, 16, c.waste, t6);
    FieldU8(b, 17, c.avoided, t7);
    FieldU8(b, 18, c.stranded, t8);
    FieldWords(b, 19, e.usage, t);
  }

  lemma OptionalDimsLayout(b: seq<Byte>, k: nat, o: Option<Dims>, t: seq<Byte>)
    requires k <= |b| && b[k..] == PutOptDimsThen(o, t)
    ensures OptionalDimsAt(b, k, o)
    ensures var n := k + if o.Some? then 129 else 1; n <= |b| && b[n..] == t
  {
    hide PutU8, PutWordsThen, WordsAt;
    FieldU8(b, k, if o.Some? then 1 else 0, if o.Some? then PutWordsThen(o.value, t) else t);
    if o.Some? {
      FieldWords(b, k + 1, o.value, t);
    }
  }

  lemma ParticipantsLayout(b: seq<Byte>, k: nat, ps: seq<Participant>, t: seq<Byte>)
    requires |ps| <= MAX_PARTICIPANTS && k <= |b| && b[k..] == PutListThen(ps, t)
    ensures U32At(b, k, |ps|)
    ensures forall i :: 0 <= i < |ps| ==> U64At(b, k + 4 + 16 * i, ps[i].account) && U64At(b, k + 12 + 16 * i, ps[i].weight)
    ensures k + 4 + 16 * |ps| <= |b| && b[k + 4 + 16 * |ps|..] == t
  {
    hide PutU32, PutWordsThen, ParticipantWords, U64At;
    var w := ParticipantWords(ps);
    FieldU32(b, k, |ps|, PutWordsThen(w, t));
    FieldWords(b, k + 4, w, t);
    forall i | 0 <= i < |ps| ensures U64At(b, k + 4 + 16 * i, ps[i].account) && U64At(b, k + 12 + 16 * i, ps[i].weight) {
      ParticipantWordsAt(ps, i);
      assert U64At(b, k + 4 + 8 * (2 * i), w[2 * i]) && U64At(b, k + 4 + 8 * (2 * i + 1), w[2 * i + 1]);
    }
  }

  lemma OwnershipLayout(e: Entry, b: seq<Byte>, k: nat, t: seq<Byte>)
    requires ShortList(e.shared) && k <= |b| && b[k..] == PutOwnershipThen(OwnershipOf(e), t)
    ensures OwnershipLaidOut(e, b, k)
    ensures var n := k + if e.shared.Some? then 16 + 16 * |e.shared.value.participants| else 11; n <= |b| && b[n..] == t
  {
    hide PutU8, PutU64, PutSharedThen, U64At, SharedLaidOut;
    var t3 := PutSharedThen(e.shared, t);
    var t2 := PutU64(e.account) + t3;
    FieldU8(b, k, e.provenance, PutU8(e.freshness) + t2);
    FieldU8(b, k + 1, e.freshness, t2);
    FieldU64(b, k + 2, e.account, t3);
    FitsU64(b, k + 2, e.account);
    SharedLayout(b, k + 10, e.shared, t);
  }

  ghost predicate SharedLaidOut(b: seq<Byte>, k: nat, o: Option<SharedRef>)
  {
    && k < |b| && b[k] == (if o.Some? then 1 else 0)
    && (o.Some? ==>
          var ps := o.value.participants;
          && k + 1 < |b| && b[k + 1] == o.value.policy && U32At(b, k + 2, |ps|)
          && forall i :: 0 <= i < |ps| ==> U64At(b, k + 6 + 16 * i, ps[i].account) && U64At(b, k + 14 + 16 * i, ps[i].weight))
  }

  lemma SharedLayout(b: seq<Byte>, k: nat, o: Option<SharedRef>, t: seq<Byte>)
    requires ShortList(o) && k <= |b| && b[k..] == PutSharedThen(o, t)
    ensures SharedLaidOut(b, k, o)
    ensures var n := k + if o.Some? then 6 + 16 * |o.value.participants| else 1; n <= |b| && b[n..] == t
  {
    hide PutU8, PutListThen, U64At, U32At;
    if o.None? {
      FieldU8(b, k, 0, t);
    } else {
      var list := PutListThen(o.value.participants, t);
      FieldU8(b, k, 1, PutU8(o.value.policy) + list);
      FieldU8(b, k + 1, o.value.policy, list);
      ParticipantsLayout(b, k + 2, o.value.participants, t);
    }
  }

  lemma FenceWordsLayout(f: Fences, b: seq<Byte>, k: nat)
    requires WordsAt(b, k, FenceWords(f))
    ensures FencesLaidOut(f, b, k)
  {
    hide U64At;
    var w := FenceWords(f);
    assert U64At(b, k + 8 * 0, w[0]) && U64At(b, k + 8 * 1, w[1]) && U64At(b, k + 8 * 2, w[2]) && U64At(b, k + 8 * 3, w[3]);
    assert U64At(b, k + 8 * 4, w[4]) && U64At(b, k + 8 * 5, w[5]) && U64At(b, k + 8 * 6, w[6]) && U64At(b, k + 8 * 7, w[7]);
    assert U64At(b, k + 8 * 8, w[8]) && U64At(b, k + 8 * 9, w[9]) && U64At(b, k + 8 * 10, w[10]) && U64At(b, k + 8 * 11, w[11]);
    assert U64At(b, k + 8 * 12, w[12]) && U64At(b, k + 8 * 13, w[13]);
  }

  lemma OwnerWordsLayout(o: Owners, b: seq<Byte>, k: nat)
    requires WordsAt(b, k, OwnerWords(o))
    ensures OwnersLaidOut(o, b, k)
  {
    hide U64At;
    var w := OwnerWords(o);
    assert U64At(b, k + 8 * 0, w[0]) && U64At(b, k + 8 * 1, w[1]) && U64At(b, k + 8 * 2, w[2]) && U64At(b, k + 8 * 3, w[3]);
    assert U64At(b, k + 8 * 4, w[4]) && U64At(b, k + 8 * 5, w[5]) && U64At(b, k + 8 * 6, w[6]) && U64At(b, k + 8 * 7, w[7]);
    assert U64At(b, k + 8 * 8, w[8]) && U64At(b, k + 8 * 9, w[9]) && U64At(b, k + 8 * 10, w[10]);
  }

  lemma EndLayout(e: Entry, b: seq<Byte>, k: nat)
    requires |e.note| <= MAX_NOTE && k <= |b|
    requires b[k..] == PutU64(e.attempt.id) + (PutU64(e.attempt.generation) + (PutU8(e.outcome) + PutTargetThen(e.target, PutNote(e.note))))
    ensures EndLaidOut(e, b, k)
  {
    hide PutU8, PutU64, PutU32, U64At;
    var t4 := PutTargetThen(e.target, PutNote(e.note));
    var t3 := PutU8(e.outcome) + t4;
    FieldU64(b, k, e.attempt.id, PutU64(e.attempt.generation) + t3);
    FitsU64(b, k, e.attempt.id);
    FieldU64(b, k + 8, e.attempt.generation, t3);
    FitsU64(b, k + 8, e.attempt.generation);
    FieldU8(b, k + 16, e.outcome, t4);
    if e.target.Some? {
      FieldU8(b, k + 17, 1, PutU64(e.target.value) + PutNote(e.note));
      FieldU64(b, k + 18, e.target.value, PutNote(e.note));
      FitsU64(b, k + 18, e.target.value);
      FieldU32(b, k + 26, |e.note|, e.note);
    } else {
      FieldU8(b, k + 17, 0, PutNote(e.note));
      FieldU32(b, k + 18, |e.note|, e.note);
    }
  }

  lemma ClosingLayout(e: Entry, b: seq<Byte>, k: nat)
    requires |e.note| <= MAX_NOTE && k <= |b| && b[k..] == PutClosing(ClosingOf(e))
    ensures FencesLaidOut(e.fences, b, k) && OwnersLaidOut(e.owners, b, k + 112) && EndLaidOut(e, b, k + 200)
  {
    hide PutU8, PutU64, PutWordsThen, PutTargetThen, PutNote, WordsAt, FencesLaidOut, OwnersLaidOut, EndLaidOut;
    var t1 := PutU64(e.attempt.id) + (PutU64(e.attempt.generation) + (PutU8(e.outcome) + PutTargetThen(e.target, PutNote(e.note))));
    FieldWords(b, k, FenceWords(e.fences), PutWordsThen(OwnerWords(e.owners), t1));
    FieldWords(b, k + 112, OwnerWords(e.owners), t1);
    FenceWordsLayout(e.fences, b, k);
    OwnerWordsLayout(e.owners, b, k + 112);
    EndLayout(e, b, k + 200);
  }

  /** Every field of an encoded entry, at its offset. */
  lemma EntryLayout(e: Entry)
    requires Encodable(e)
    ensures var b := EntryBytes(e);
            && HeadLaidOut(e, b)
            && OptionalDimsAt(b, 147, e.avoidedWork)
            && OptionalDimsAt(b, StrandedAt(e), e.strandedCapacity)
            && OwnershipLaidOut(e, b, OwnershipAt(e))
            && FencesLaidOut(e.fences, b, FencesAt(e))
            && OwnersLaidOut(e.owners, b, FencesAt(e) + 112)
            && EndLaidOut(e, b, FencesAt(e) + 200)
  {
    hide PutU32, PutHeadThen, PutWordsThen, PutOptDimsThen, PutOwnershipThen, PutClosing, WordsAt,
         OptionalDimsAt, OwnershipLaidOut, FencesLaidOut, OwnersLaidOut, EndLaidOut, U64At, U32At;
    var b := EntryBytes(e);
    var t4 := PutClosing(ClosingOf(e));
    var t3 := PutOwnershipThen(OwnershipOf(e), t4);
    var t2 := PutOptDimsThen(e.strandedCapacity, t3);
    var t1 := PutOptDimsThen(e.avoidedWork, t2);
    BodyFits(e);
    LengthBytes(|Body(e)|);
    assert b[0..] == b;
    FieldU32(b, 0, |Body(e)|, Body(e));
    HeadLayout(e, b, t1);
    OptionalDimsLayout(b, 147, e.avoidedWork, t2);
    OptionalDimsLayout(b, StrandedAt(e), e.strandedCapacity, t3);
    OwnershipLayout(e, b, OwnershipAt(e), t4);
    ClosingLayout(e, b, FencesAt(e));
  }

  /** With no optional field the offsets are fixed: account at 151, fences from 160,
      owners from 272, attempt at 360, outcome at 376, note from 382. */
  lemma PlainEntryLayout(e: Entry)
    requires Encodable(e) && e.avoidedWork.None? && e.strandedCapacity.None? && e.shared.None? && e.target.None?
    ensures var b := EntryBytes(e);
            && |b| >= 382 && U32At(b, 0, |b| - 4) && U64At(b, 4, e.id) && b[12] == e.event && b[13] == e.classification
            && b[147] == 0 && b[148] == 0 && b[149] == e.provenance && b[150] == e.freshness && U64At(b, 151, e.account)
            && b[159] == 0 && U64At(b, 160, e.fences.epoch) && U64At(b, 168, e.fences.workerBoot)
            && U64At(b, 176, e.fences.ledgerGeneration) && U64At(b, 184, e.fences.accountGeneration)
            && U64At(b, 264, e.fences.publication) && U64At(b, 280, e.owners.transfer) && U64At(b, 288, e.owners.reservation)
            && U64At(b, 296, e.owners.allocation) && U64At(b, 304, e.owners.recovery)
            && U64At(b, 360, e.attempt.id) && U64At(b, 368, e.attempt.generation) && b[376] == e.outcome && b[377] == 0
            && U32At(b, 378, |e.note|) && b[382..] == e.note
  {
    hide EntryBytes, WordsAt, U64At, Encodable;
    EntryLayout(e);
  }

  // ---------- image, frame and digest stream ----------

  lemma LengthBytes(n: nat)
    ensures |PutU32(n)| == 4
  {
  }

  /** The four bytes of a checksum, low byte first. */
  predicate ChecksumAt(s: seq<Byte>, o: nat, c: bv32)
  {
    && o + 4 <= |s|
    && s[o] == (c & 0xFF) as bv8 as int && s[o + 1] == ((c >> 8) & 0xFF) as bv8 as int
    && s[o + 2] == ((c >> 16) & 0xFF) as bv8 as int && s[o + 3] == ((c >> 24) & 0xFF) as bv8 as int
  }

  lemma FieldChecksum(b: seq<Byte>, k: nat, data: seq<Byte>, t: seq<Byte>)
    requires k <= |b| && b[k..] == Checksum(data) + t
    ensures ChecksumAt(b, k, Crc(data, Word(0)).bits) && b[k + 4..] == t
  {
    hide Crc;
    var rest := b[k..];
    assert rest[..4] == Checksum(data) && rest[4..] == t;
    assert forall i :: 0 <= i < 4 ==> b[k + i] == rest[..4][i];
    assert b[k + 4..] == rest[4..];
  }

  /** The saved image: magic, version, authority values, count, entries, checksum. */
  lemma ImageLayout(h: Header, entries: seq<Entry>)
    requires |entries| <= MAX64
    ensures var b := ImageOf(h, entries);
            var end := 48 + |HistoryBytes(entries)|;
            && |b| == end + 4 && b[..4] == [0x45, 0x4C, 0x4C, 0x44] && U32At(b, 4, 1)
            && U64At(b, 8, h.ledgerId) && U64At(b, 16, h.epoch) && U64At(b, 24, h.ledgerGeneration)
            && U64At(b, 32, h.accountGeneration) && U64At(b, 40, |entries|)
            && b[48..end] == HistoryBytes(entries) && ChecksumAt(b, end, Crc(b[..end], Word(0)).bits)
  {
    hide PutU32, PutU64, HistoryBytes, Checksum, U64At, U32At, ChecksumAt, PutHeaderThen;
    var payload, hist := Payload(h, entries), HistoryBytes(entries);
    var b := ImageOf(h, entries);
    var end := |payload|;
    HeaderFields(h, |entries|, hist, b, Checksum(payload));
    assert b[..end] == payload;
    assert b[end..] == Checksum(payload) + [];
    FieldChecksum(b, end, payload, []);
    assert b[48..end] == b[48..][..|hist|];
  }

  lemma HeaderFields(h: Header, count: u64, hist: seq<Byte>, b: seq<Byte>, foot: seq<Byte>)
    requires b == PutHeaderThen(h, count, hist) + foot
    ensures |b| == 48 + |hist| + |foot| && b[..4] == [0x45, 0x4C, 0x4C, 0x44] && U32At(b, 4, 1)
    ensures U64At(b, 8, h.ledgerId) && U64At(b, 16, h.epoch) && U64At(b, 24, h.ledgerGeneration)
    ensures U64At(b, 32, h.accountGeneration) && U64At(b, 40, count) && b[48..] == hist + foot
  {
    hide PutU32, PutU64, U64At, U32At;
    var t5 := PutU64(count) + (hist + foot);
    var t4 := PutU64(h.accountGeneration) + t5;
    var t3 := PutU64(h.ledgerGeneration) + t4;
    var t2 := PutU64(h.epoch) + t3;
    var t1 := PutU64(h.ledgerId) + t2;
    var t0 := PutU32(FORMAT_VERSION) + t1;
    HeaderTail(h, count, hist, foot);
    assert b == MAGIC + t0;
    assert b[..4] == MAGIC && b[4..] == t0;
    FieldU32(b, 4, FORMAT_VERSION, t1);
    FieldU64(b, 8, h.ledgerId, t2);
    FieldU64(b, 16, h.epoch, t3);
    FieldU64(b, 24, h.ledgerGeneration, t4);
    FieldU64(b, 32, h.accountGeneration, t5);
    FieldU64(b, 40, count, hist + foot);
  }

  lemma HeaderTail(h: Header, count: nat, hist: seq<Byte>, foot: seq<Byte>)
    ensures PutHeaderThen(h, count, hist) + foot == PutHeaderThen(h, count, hist + foot)
  {
    hide PutHeaderThen;
    HeaderLength(h, count, hist);
    HeaderLength(h, count, hist + foot);
    Regroup(PutHeaderThen(h, count, []), hist, foot);
  }

  /** What a ledger saves of its authority. */
  lemma SavedAuthority(s: State)
    requires |s.book.history| <= MAX64
    ensures var b := SaveImage(s);
            && U64At(b, 8, s.auth.ledgerId) && U64At(b, 16, s.auth.epoch) && U64At(b, 24, s.auth.ledgerGeneration)
            && U64At(b, 32, s.auth.accountGeneration) && U64At(b, 40, |s.book.history|)
  {
    hide ImageOf, U64At, U32At, ChecksumAt, HistoryBytes, Crc;
    ImageLayout(HeaderOf(s.auth), s.book.history);
  }

  /** What a ledger takes over from an image that parses: exactly those values; it is
      open again, and its live workers stay. */
  lemma LoadedAuthority(s: State, bytes: seq<Byte>, orders: seq<seq<u64>>)
    requires ParseImage(bytes).Some? && OrdersForImage(bytes, orders)
    ensures var auth := LoadImage(s, bytes, orders).0.auth;
            && U64At(bytes, 8, auth.ledgerId) && U64At(bytes, 16, auth.epoch) && U64At(bytes, 24, auth.ledgerGeneration)
            && U64At(bytes, 32, auth.accountGeneration)
            && !auth.shuttingDown && !auth.replaying && !auth.epochAdvanced && auth.liveWorkers == s.auth.liveWorkers
  {
    hide ImageOf, ParseImage, U64At, U32At, ChecksumAt, HistoryBytes, Crc, AppendMany, AllEncodable;
    AcceptedImageIsCanonical(bytes);
    var (h, entries) := ParseImage(bytes).value;
    ImageLayout(h, entries);
  }

  /** The wire frame: payload length, checksum, version, kind, request id, body. */
  lemma FrameLayout(f: Frame)
    requires 16 + |f.body| <= 0x10_0000
    ensures var b := FrameBytes(f);
            && |b| == 24 + |f.body| && U32At(b, 0, 16 + |f.body|) && ChecksumAt(b, 4, Crc(b[8..], Word(0)).bits)
            && U32At(b, 8, 1) && U32At(b, 12, f.kind) && U64At(b, 16, f.requestId) && b[24..] == f.body
  {
    hide PutU32, PutU64, Checksum, U64At, U32At, ChecksumAt;
    var b, payload := FrameBytes(f), PayloadOf(f);
    FramePayloadLength(f);
    assert b[0..] == b;
    FieldU32(b, 0, |payload|, Checksum(payload) + payload);
    FieldChecksum(b, 4, payload, payload);
    FieldU32(b, 8, PROTOCOL_VERSION, PutU32(f.kind) + (PutU64(f.requestId) + f.body));
    FieldU32(b, 12, f.kind, PutU64(f.requestId) + f.body);
    FieldU64(b, 16, f.requestId, f.body);
  }

  lemma FramePayloadLength(f: Frame)
    ensures |PayloadOf(f)| == 16 + |f.body| && |FrameBytes(f)| == 24 + |f.body|
  {
    hide Checksum;
  }

  /** The stream under the digest: magic, version and count as 64-bit values, entries. */
  lemma StreamLayout(h: seq<Entry>)
    requires |h| <= MAX64
    ensures var b := Digest.Stream(h);
            b[..4] == [0x45, 0x4C, 0x4C, 0x44] && U64At(b, 4, 1) && U64At(b, 12, |h|) && b[20..] == HistoryBytes(h)
  {
    hide PutU64, HistoryBytes, U64At;
    var b, t := Digest.Stream(h), PutU64(|h|) + HistoryBytes(h);
    assert b[..4] == MAGIC && b[4..] == PutU64(FORMAT_VERSION) + t;
    FieldU64(b, 4, FORMAT_VERSION, t);
    FieldU64(b, 12, |h|, HistoryBytes(h));
  }

  /** A history is its entries one after the other. */
  lemma {:induction false} HistoryLayout(h: seq<Entry>, i: nat)
    requires i < |h|
    ensures var k := |HistoryBytes(h[..i])|;
            && k + |EntryBytes(h[i])| <= |HistoryBytes(h)|
            && HistoryBytes(h)[k..k + |EntryBytes(h[i])|] == EntryBytes(h[i])
    decreases |h|
  {
    hide EntryBytes;
    var p := h[..|h| - 1];
    if i < |p| {
      HistoryLayout(p, i);
      assert p[..i] == h[..i];
    }
  }

  // ---------- bounds of the decoders ----------

  /** The decoder's bounds, in numbers: notes up to 1048576 bytes, 4096 participants. */
  lemma EncodableBounds(e: Entry)
    ensures Encodable(e) <==>
            |e.note| <= 1048576 && (e.shared.Some? ==> |e.shared.value.participants| <= 4096)
  {
  }

  /** A body length above 2^26 is refused as soon as it is read, one that runs past the
      buffer too; a body that does not parse is consumed. */
  lemma DecodeFailures(buf: seq<Byte>, offset: nat)
    requires offset <= |buf| && Decode(buf, offset).Bad?
    ensures Decode(buf, offset).offset ==
            if offset + 4 > |buf| then offset
            else
              var len := GetLE(buf[offset..offset + 4]);
              if len > 67108864 || offset + 4 + len > |buf| then offset + 4 else offset + 4 + len
  {
  }

  /** An image parses exactly when its notes hold at most 1048576 bytes each and its
      entries are at most 268435456. */
  lemma ImageBounds(h: Header, entries: seq<Entry>)
    requires ListsShort(entries) && NotesBelow(entries, 0x8000_0000) && |entries| <= MAX64
    ensures ParseImage(ImageOf(h, entries)).Some? <==>
            |entries| <= 268435456 && forall i :: 0 <= i < |entries| ==> |entries[i].note| <= 1048576
  {
    hide ImageOf, ParseImage, ListsShort;
    ImageParsesIff(h, entries);
  }

  /** A frame arrives exactly when its payload is at most 1048576 bytes. */
  lemma FrameBound(f: Frame)
    ensures DecodeFrame(FrameBytes(f)) == Accepted(f) <==> 16 + |f.body| <= 1048576
  {
    hide DecodeFrame, FrameBytes;
    FrameRoundTrip(f);
  }
}
