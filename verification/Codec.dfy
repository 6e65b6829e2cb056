/** The canonical entry codec of src/ledger.cpp: a length prefix and a fixed field
    order, little endian throughout.

    Writers are given in continuation form (`PutXThen(v, tail)` is the bytes of `v`
    followed by `tail`), readers return what they read and what is left; each reader
    promises that what it consumed is the writer's output for what it returned. */
module Codec {
  import opened Bytes
  import opened Entries

  const MAGIC: seq<Byte> := [0x45, 0x4C, 0x4C, 0x44]
  const FORMAT_VERSION: u32 := 1
  const MAX_BODY := 0x400_0000
  const MAX_NOTE := 0x10_0000

  // ---------- runs of 64-bit words ----------

  function PutWordsThen(vs: seq<u64>, tail: seq<Byte>): (s: seq<Byte>)
    ensures |s| == 8 * |vs| + |tail|
  {
    if vs == [] then tail else PutU64(vs[0]) + PutWordsThen(vs[1..], tail)
  }

  function ReadWords(s: seq<Byte>, n: nat): (r: Parse<seq<u64>>)
    ensures r.Done? ==> |r.value| == n && s == PutWordsThen(r.value, r.rest)
    decreases n
  {
    if n == 0 then Done([], s) else
      var (v, s1) :- ReadU64(s);
      var (vs, s2) :- ReadWords(s1, n - 1);
      assert ([v] + vs)[1..] == vs;
      Done([v] + vs, s2)
  }

  lemma {:induction false} ReadPutWords(vs: seq<u64>, tail: seq<Byte>)
    ensures ReadWords(PutWordsThen(vs, tail), |vs|) == Done(vs, tail)
  {
    if vs != [] {
      ReadPutU64(vs[0], PutWordsThen(vs[1..], tail));
      ReadPutWords(vs[1..], tail);
      assert [vs[0]] + vs[1..] == vs;
    }
  }

  // ---------- records of words ----------

  function DimsOf(vs: seq<u64>): Dims
    requires |vs| == 16
  {
    vs
  }

  function FenceWords(f: Fences): seq<u64>
  {
    [f.epoch, f.workerBoot, f.ledgerGeneration, f.accountGeneration, f.workloadGeneration, f.resourceGeneration,
     f.reservationGeneration, f.allocationGeneration, f.transferGeneration, f.recoveryGeneration,
     f.cacheGeneration, f.evidenceGeneration, f.accountingGeneration, f.publication]
  }

  function FencesOf(w: seq<u64>): (f: Fences)
    requires |w| == 14
    ensures FenceWords(f) == w
  {
    Fences(w[0], w[1], w[2], w[3], w[4], w[5], w[6], w[7], w[8], w[9], w[10], w[11], w[12], w[13])
  }

  function OwnerWords(o: Owners): seq<u64>
  {
    [o.resource, o.transfer, o.reservation, o.allocation, o.recovery, o.cacheObject,
     o.device, o.request, o.workload, o.job, o.service]
  }

  function OwnersOf(w: seq<u64>): (o: Owners)
    requires |w| == 11
    ensures OwnerWords(o) == w
  {
    Owners(w[0], w[1], w[2], w[3], w[4], w[5], w[6], w[7], w[8], w[9], w[10])
  }

  function ParticipantWords(ps: seq<Participant>): (w: seq<u64>)
    ensures |w| == 2 * |ps|
  {
    if ps == [] then [] else [ps[0].account, ps[0].weight] + ParticipantWords(ps[1..])
  }

  function ParticipantsOf(w: seq<u64>, n: nat): (ps: seq<Participant>)
    requires |w| == 2 * n
    ensures |ps| == n && ParticipantWords(ps) == w
    decreases n
  {
    if n == 0 then [] else
      var rest := ParticipantsOf(w[2..], n - 1);
      assert ([Participant(w[0], w[1])] + rest)[1..] == rest && w == [w[0], w[1]] + w[2..];
      [Participant(w[0], w[1])] + rest
  }

  lemma {:induction false} ParticipantsBack(ps: seq<Participant>)
    ensures ParticipantsOf(ParticipantWords(ps), |ps|) == ps
  {
    if ps != [] {
      ParticipantsBack(ps[1..]);
      assert ParticipantWords(ps)[2..] == ParticipantWords(ps[1..]);
      assert ps == [ps[0]] + ps[1..];
    }
  }

  // ---------- optional fields ----------

  function PutFlagThen(present: bool, tail: seq<Byte>): seq<Byte>
  {
    PutU8(if present then 1 else 0) + tail
  }

  /** Any flag byte other than zero and one is rejected. */
  function ReadFlag(s: seq<Byte>): (r: Parse<bool>)
    ensures r.Done? ==> s == PutFlagThen(r.value, r.rest)
  {
    var (b, rest) :- ReadU8(s);
    if b == 1 then Done(true, rest) else if b == 0 then Done(false, rest) else Fail
  }

  lemma ReadPutFlag(present: bool, tail: seq<Byte>)
    ensures ReadFlag(PutFlagThen(present, tail)) == Done(present, tail)
  {
    ReadPutU8(if present then 1 else 0, tail);
  }

  function PutOptDimsThen(o: Option<Dims>, tail: seq<Byte>): seq<Byte>
  {
    PutFlagThen(o.Some?, if o.Some? then PutWordsThen(o.value, tail) else tail)
  }

  function ReadOptDims(s: seq<Byte>): (r: Parse<Option<Dims>>)
    ensures r.Done? ==> s == PutOptDimsThen(r.value, r.rest)
  {
    var (present, s1) :- ReadFlag(s);
    if !present then Done(None, s1) else
      var (w, s2) :- ReadWords(s1, DIMS);
      Done(Some(DimsOf(w)), s2)
  }

  lemma ReadPutOptDims(o: Option<Dims>, tail: seq<Byte>)
    ensures ReadOptDims(PutOptDimsThen(o, tail)) == Done(o, tail)
  {
    ReadPutFlag(o.Some?, if o.Some? then PutWordsThen(o.value, tail) else tail);
    if o.Some? {
      ReadPutWords(o.value, tail);
    }
  }

  function PutListThen(ps: seq<Participant>, tail: seq<Byte>): seq<Byte>
  {
    PutU32(|ps|) + PutWordsThen(ParticipantWords(ps), tail)
  }

  function ReadList(s: seq<Byte>): (r: Parse<seq<Participant>>)
    ensures r.Done? ==> s == PutListThen(r.value, r.rest) && |r.value| <= MAX_PARTICIPANTS
  {
    hide ReadU32, PutU32, ReadWords, PutWordsThen, ParticipantsOf, ParticipantWords;
    var (n, s1) :- ReadU32(s);
    if n > MAX_PARTICIPANTS then Fail else
      var (w, s2) :- ReadWords(s1, 2 * n);
      Done(ParticipantsOf(w, n), s2)
  }

  lemma ReadPutList(ps: seq<Participant>, tail: seq<Byte>)
    requires |ps| <= MAX_PARTICIPANTS
    ensures ReadList(PutListThen(ps, tail)) == Done(ps, tail)
  {
    ReadPutU32(|ps|, PutWordsThen(ParticipantWords(ps), tail));
    ReadPutWords(ParticipantWords(ps), tail);
    ParticipantsBack(ps);
  }

  function PutSharedThen(o: Option<SharedRef>, tail: seq<Byte>): seq<Byte>
  {
    if o.None? then PutFlagThen(false, tail) else
      PutFlagThen(true, PutU8(o.value.policy) + PutListThen(o.value.participants, tail))
  }

  function ReadShared(s: seq<Byte>): (r: Parse<Option<SharedRef>>)
    ensures r.Done? ==> s == PutSharedThen(r.value, r.rest) && ShortList(r.value)
  {
    hide ReadFlag, ReadU8, ReadList, PutFlagThen, PutU8, PutListThen;
    var (present, s1) :- ReadFlag(s);
    if !present then Done(None, s1) else
      var (policy, s2) :- ReadU8(s1);
      var (ps, s3) :- ReadList(s2);
      Done(Some(SharedRef(policy, ps)), s3)
  }

  predicate ShortList(o: Option<SharedRef>)
  {
    o.Some? ==> |o.value.participants| <= MAX_PARTICIPANTS
  }

  lemma ReadPutShared(o: Option<SharedRef>, tail: seq<Byte>)
    requires ShortList(o)
    ensures ReadShared(PutSharedThen(o, tail)) == Done(o, tail)
  {
    hide ReadFlag, ReadU8, ReadList, PutFlagThen, PutU8, PutListThen;
    if o.None? {
      ReadPutFlag(false, tail);
    } else {
      var t := PutListThen(o.value.participants, tail);
      ReadPutFlag(true, PutU8(o.value.policy) + t);
      ReadPutU8(o.value.policy, t);
      ReadPutList(o.value.participants, tail);
    }
  }

  function PutTargetThen(o: Option<u64>, tail: seq<Byte>): seq<Byte>
  {
    PutFlagThen(o.Some?, if o.Some? then PutU64(o.value) + tail else tail)
  }

  function ReadTarget(s: seq<Byte>): (r: Parse<Option<u64>>)
    ensures r.Done? ==> s == PutTargetThen(r.value, r.rest)
  {
    var (present, s1) :- ReadFlag(s);
    if !present then Done(None, s1) else
      var (v, s2) :- ReadU64(s1);
      Done(Some(v), s2)
  }

  lemma ReadPutTarget(o: Option<u64>, tail: seq<Byte>)
    ensures ReadTarget(PutTargetThen(o, tail)) == Done(o, tail)
  {
    ReadPutFlag(o.Some?, if o.Some? then PutU64(o.value) + tail else tail);
    if o.Some? {
      ReadPutU64(o.value, tail);
    }
  }

  /** The note closes the body: its length must be exactly what is left. */
  function PutNote(note: seq<Byte>): seq<Byte>
  {
    PutU32(|note|) + note
  }

  function ReadNote(s: seq<Byte>): (r: Parse<seq<Byte>>)
    ensures r.Done? ==> s == PutNote(r.value) && |r.value| <= MAX_NOTE && r.rest == []
  {
    var (n, rest) :- ReadU32(s);
    if n > MAX_NOTE || |rest| != n then Fail else Done(rest, [])
  }

  lemma ReadPutNote(note: seq<Byte>)
    requires |note| <= MAX_NOTE
    ensures ReadNote(PutNote(note)) == Done(note, [])
  {
    ReadPutU32(|note|, note);
  }

  // ---------- the three parts of a body ----------

  datatype Head = Head(id: u64, event: Byte, classification: Byte, subcategory: Subcategory)

  function PutHeadThen(h: Head, tail: seq<Byte>): seq<Byte>
  {
    PutU64(h.id) + (PutU8(h.event) + (PutU8(h.classification) + (PutU8(h.subcategory.useful) +
    (PutU8(h.subcategory.overhead) + (PutU8(h.subcategory.waste) + (PutU8(h.subcategory.avoided) +
    (PutU8(h.subcategory.stranded) + tail)))))))
  }

  function ReadHead(s: seq<Byte>): (r: Parse<Head>)
    ensures r.Done? ==> s == PutHeadThen(r.value, r.rest)
  {
    var (id, s1) :- ReadU64(s);
    var (event, s2) :- ReadU8(s1);
    var (cls, s3) :- ReadU8(s2);
    var (u, s4) :- ReadU8(s3);
    var (o, s5) :- ReadU8(s4);
    var (w, s6) :- ReadU8(s5);
    var (a, s7) :- ReadU8(s6);
    var (t, s8) :- ReadU8(s7);
    Done(Head(id, event, cls, Subcategory(u, o, w, a, t)), s8)
  }

  lemma ReadPutHead(h: Head, tail: seq<Byte>)
    ensures ReadHead(PutHeadThen(h, tail)) == Done(h, tail)
  {
    hide ReadU8, ReadU64, PutU8, PutU64;
    var c := h.subcategory;
    var t7 := PutU8(c.stranded) + tail;
    var t6 := PutU8(c.avoided) + t7;
    var t5 := PutU8(c.waste) + t6;
    var t4 := PutU8(c.overhead) + t5;
    var t3 := PutU8(c.useful) + t4;
    var t2 := PutU8(h.classification) + t3;
    var t1 := PutU8(h.event) + t2;
    ReadPutU64(h.id, t1);
    ReadPutU8(h.event, t2);
    ReadPutU8(h.classification, t3);
    ReadPutU8(c.useful, t4);
    ReadPutU8(c.overhead, t5);
    ReadPutU8(c.waste, t6);
    ReadPutU8(c.avoided, t7);
    ReadPutU8(c.stranded, tail);
  }

  datatype Quantities = Quantities(usage: Dims, avoidedWork: Option<Dims>, strandedCapacity: Option<Dims>)

  function PutQuantitiesThen(q: Quantities, tail: seq<Byte>): seq<Byte>
  {
    PutWordsThen(q.usage, PutOptDimsThen(q.avoidedWork, PutOptDimsThen(q.strandedCapacity, tail)))
  }

  function ReadQuantities(s: seq<Byte>): (r: Parse<Quantities>)
    ensures r.Done? ==> s == PutQuantitiesThen(r.value, r.rest)
  {
    hide ReadWords, ReadOptDims, PutWordsThen, PutOptDimsThen;
    var (u, s1) :- ReadWords(s, DIMS);
    var (a, s2) :- ReadOptDims(s1);
    var (t, s3) :- ReadOptDims(s2);
    Done(Quantities(DimsOf(u), a, t), s3)
  }

  lemma ReadPutQuantities(q: Quantities, tail: seq<Byte>)
    ensures ReadQuantities(PutQuantitiesThen(q, tail)) == Done(q, tail)
  {
    hide ReadWords, ReadOptDims, PutWordsThen, PutOptDimsThen;
    var t2 := PutOptDimsThen(q.strandedCapacity, tail);
    var t1 := PutOptDimsThen(q.avoidedWork, t2);
    ReadPutWords(q.usage, t1);
    ReadPutOptDims(q.avoidedWork, t2);
    ReadPutOptDims(q.strandedCapacity, tail);
  }

  datatype Ownership = Ownership(provenance: Byte, freshness: Byte, account: u64, shared: Option<SharedRef>)

  function PutOwnershipThen(o: Ownership, tail: seq<Byte>): seq<Byte>
  {
    PutU8(o.provenance) + (PutU8(o.freshness) + (PutU64(o.account) + PutSharedThen(o.shared, tail)))
  }

  function ReadOwnership(s: seq<Byte>): (r: Parse<Ownership>)
    ensures r.Done? ==> s == PutOwnershipThen(r.value, r.rest) && ShortList(r.value.shared)
  {
    hide ReadU8, ReadU64, ReadShared, PutU8, PutU64, PutSharedThen, ShortList;
    var (p, s1) :- ReadU8(s);
    var (f, s2) :- ReadU8(s1);
    var (acc, s3) :- ReadU64(s2);
    var (sh, s4) :- ReadShared(s3);
    Done(Ownership(p, f, acc, sh), s4)
  }

  lemma ReadPutOwnership(o: Ownership, tail: seq<Byte>)
    requires ShortList(o.shared)
    ensures ReadOwnership(PutOwnershipThen(o, tail)) == Done(o, tail)
  {
    hide ReadU8, ReadU64, ReadShared, PutU8, PutU64, PutSharedThen, ShortList;
    var t3 := PutSharedThen(o.shared, tail);
    var t2 := PutU64(o.account) + t3;
    var t1 := PutU8(o.freshness) + t2;
    ReadPutU8(o.provenance, t1);
    ReadPutU8(o.freshness, t2);
    ReadPutU64(o.account, t3);
    ReadPutShared(o.shared, tail);
  }

  /** Authority, attempt, revision target and note. */
  datatype Closing = Closing(fences: Fences, owners: Owners, attempt: Attempt, outcome: Byte, target: Option<u64>, note: seq<Byte>)

  function PutClosing(c: Closing): seq<Byte>
  {
    PutWordsThen(FenceWords(c.fences), PutWordsThen(OwnerWords(c.owners),
    PutU64(c.attempt.id) + (PutU64(c.attempt.generation) + (PutU8(c.outcome) + PutTargetThen(c.target, PutNote(c.note))))))
  }

  function ReadClosing(s: seq<Byte>): (r: Parse<Closing>)
    ensures r.Done? ==> s == PutClosing(r.value) && |r.value.note| <= MAX_NOTE && r.rest == []
  {
    hide ReadU8, ReadU64, ReadWords, ReadTarget, ReadNote, PutU8, PutU64, PutWordsThen, PutTargetThen, PutNote;
    var (fw, s1) :- ReadWords(s, 14);
    var (ow, s2) :- ReadWords(s1, 11);
    var (id, s3) :- ReadU64(s2);
    var (gen, s4) :- ReadU64(s3);
    var (out, s5) :- ReadU8(s4);
    var (target, s6) :- ReadTarget(s5);
    var (note, s7) :- ReadNote(s6);
    Done(Closing(FencesOf(fw), OwnersOf(ow), Attempt(id, gen), out, target, note), s7)
  }

  lemma ReadPutClosing(c: Closing)
    requires |c.note| <= MAX_NOTE
    ensures ReadClosing(PutClosing(c)) == Done(c, [])
  {
    hide ReadU8, ReadU64, ReadWords, ReadTarget, ReadNote, PutU8, PutU64, PutWordsThen, PutTargetThen, PutNote;
    var t5 := PutNote(c.note);
    var t4 := PutTargetThen(c.target, t5);
    var t3 := PutU8(c.outcome) + t4;
    var t2 := PutU64(c.attempt.generation) + t3;
    var t1 := PutU64(c.attempt.id) + t2;
    var t0 := PutWordsThen(OwnerWords(c.owners), t1);
    ReadPutWords(FenceWords(c.fences), t0);
    ReadPutWords(OwnerWords(c.owners), t1);
    ReadPutU64(c.attempt.id, t2);
    ReadPutU64(c.attempt.generation, t3);
    ReadPutU8(c.outcome, t4);
    ReadPutTarget(c.target, t5);
    ReadPutNote(c.note);
  }

  // ---------- the body ----------

  function HeadOf(e: Entry): Head { Head(e.id, e.event, e.classification, e.subcategory) }

  function QuantitiesOf(e: Entry): Quantities { Quantities(e.usage, e.avoidedWork, e.strandedCapacity) }

  function OwnershipOf(e: Entry): Ownership { Ownership(e.provenance, e.freshness, e.account, e.shared) }

  function ClosingOf(e: Entry): Closing { Closing(e.fences, e.owners, e.attempt, e.outcome, e.target, e.note) }

  function Assemble(h: Head, q: Quantities, o: Ownership, c: Closing): (e: Entry)
    ensures HeadOf(e) == h && QuantitiesOf(e) == q && OwnershipOf(e) == o && ClosingOf(e) == c
  {
    Entry(h.id, h.event, h.classification, h.subcategory, q.usage, q.avoidedWork, q.strandedCapacity,
          o.provenance, o.freshness, o.account, o.shared, c.fences, c.owners, c.attempt, c.outcome, c.target, c.note)
  }

  function Body(e: Entry): seq<Byte>
  {
    PutHeadThen(HeadOf(e), PutQuantitiesThen(QuantitiesOf(e), PutOwnershipThen(OwnershipOf(e), PutClosing(ClosingOf(e)))))
  }

  /** The entries the decoder's bounds let through. */
  predicate Encodable(e: Entry)
  {
    ShortList(e.shared) && |e.note| <= MAX_NOTE
  }

  function ReadBody(s: seq<Byte>): (r: Option<Entry>)
    ensures r.Some? ==> s == Body(r.value) && Encodable(r.value)
  {
    hide ReadHead, ReadQuantities, ReadOwnership, ReadClosing, PutHeadThen, PutQuantitiesThen, PutOwnershipThen, PutClosing;
    var h := ReadHead(s);
    if h.Fail? then None else
      var q := ReadQuantities(h.rest);
      if q.Fail? then None else
        var o := ReadOwnership(q.rest);
        if o.Fail? then None else
          var c := ReadClosing(o.rest);
          if c.Fail? then None else Some(Assemble(h.value, q.value, o.value, c.value))
  }

  lemma ReadPutBody(e: Entry)
    requires Encodable(e)
    ensures ReadBody(Body(e)) == Some(e)
  {
    hide ReadHead, ReadQuantities, ReadOwnership, ReadClosing, PutHeadThen, PutQuantitiesThen, PutOwnershipThen, PutClosing;
    var t2 := PutClosing(ClosingOf(e));
    var t1 := PutOwnershipThen(OwnershipOf(e), t2);
    ReadPutHead(HeadOf(e), PutQuantitiesThen(QuantitiesOf(e), t1));
    ReadPutQuantities(QuantitiesOf(e), t1);
    ReadPutOwnership(OwnershipOf(e), t2);
    ReadPutClosing(ClosingOf(e));
  }

  lemma BodyFits(e: Entry)
    requires Encodable(e)
    ensures |Body(e)| <= MAX_BODY
  {
    var tail := PutClosing(ClosingOf(e));
    assert |tail| <= 14 * 8 + 11 * 8 + 8 + 8 + 1 + 9 + 4 + MAX_NOTE;
    var mid := PutOwnershipThen(OwnershipOf(e), tail);
    assert |mid| <= 10 + 6 + 16 * MAX_PARTICIPANTS + |tail|;
    assert |PutQuantitiesThen(QuantitiesOf(e), mid)| <= 3 * 128 + 2 + |mid|;
  }

  // ---------- the framed entry ----------

  /** `encode_entry`: the body behind its length, cut to 32 bits as the code does. */
  function EntryBytes(e: Entry): seq<Byte>
  {
    PutU32(|Body(e)|) + Body(e)
  }

  datatype Decoded = Bad(offset: nat) | Good(entry: Entry, offset: nat)

  /** `decode_entry` into a default entry, with the offset it leaves behind. */
  function Decode(buf: seq<Byte>, offset: nat): (r: Decoded)
    requires offset <= |buf|
  {
    if offset + 4 > |buf| then Bad(offset) else
      var len := GetLE(buf[offset..offset + 4]);
      if len > MAX_BODY || offset + 4 + len > |buf| then Bad(offset + 4) else
        match ReadBody(buf[offset + 4..offset + 4 + len])
        case None => Bad(offset + 4 + len)
        case Some(e) => Good(e, offset + 4 + len)
  }

  /** Only canonical bytes are accepted: what was consumed is the encoding of what
      was returned. */
  lemma DecodeIsCanonical(buf: seq<Byte>, offset: nat)
    requires offset <= |buf| && Decode(buf, offset).Good?
    ensures var Good(e, end) := Decode(buf, offset);
            && Encodable(e) && offset + 4 <= end <= |buf|
            && buf[offset..end] == EntryBytes(e)
  {
    hide ReadBody, Body, Encodable;
    var prefix := buf[offset..offset + 4];
    var len := GetLE(prefix);
    PutGet(prefix);
    var Good(e, end) := Decode(buf, offset);
    assert buf[offset + 4..end] == Body(e);
    assert buf[offset..end] == prefix + buf[offset + 4..end];
  }

  /** Decoding an encoded entry, wherever it stands in a buffer, returns it and
      consumes exactly its bytes. */
  lemma DecodeEncoded(pre: seq<Byte>, e: Entry, post: seq<Byte>)
    requires Encodable(e)
    ensures Decode(pre + (EntryBytes(e) + post), |pre|) == Good(e, |pre| + |EntryBytes(e)|)
  {
    hide ReadBody, Body, Encodable;
    var buf := pre + (EntryBytes(e) + post);
    var n := |pre|;
    BodyFits(e);
    var body := Body(e);
    GetPut(|body|, 4);
    Widths();
    assert buf[n..n + 4] == PutU32(|body|);
    assert buf[n + 4..n + 4 + |body|] == body;
    ReadPutBody(e);
  }

  // ---------- notes past the decoder's bound ----------

  lemma LongNoteFails(c: Closing)
    requires MAX_NOTE < |c.note| < 0x1_0000_0000
    ensures ReadClosing(PutClosing(c)).Fail?
  {
    hide ReadU8, ReadU64, ReadWords, ReadTarget, PutU8, PutU64, PutWordsThen, PutTargetThen;
    var t5 := PutNote(c.note);
    var t4 := PutTargetThen(c.target, t5);
    var t3 := PutU8(c.outcome) + t4;
    var t2 := PutU64(c.attempt.generation) + t3;
    var t1 := PutU64(c.attempt.id) + t2;
    ReadPutWords(FenceWords(c.fences), PutWordsThen(OwnerWords(c.owners), t1));
    ReadPutWords(OwnerWords(c.owners), t1);
    ReadPutU64(c.attempt.id, t2);
    ReadPutU64(c.attempt.generation, t3);
    ReadPutU8(c.outcome, t4);
    ReadPutTarget(c.target, t5);
    ReadPutU32(|c.note|, c.note);
  }

  /** `append` does not bound notes but the decoder does: an entry with a longer note
      is encoded and can never be decoded again. */
  lemma LongNoteIsLost(pre: seq<Byte>, e: Entry, post: seq<Byte>)
    requires ShortList(e.shared) && MAX_NOTE < |e.note| < 0x8000_0000
    ensures Decode(pre + (EntryBytes(e) + post), |pre|).Bad?
  {
    hide ReadHead, ReadQuantities, ReadOwnership, ReadClosing, PutHeadThen, PutQuantitiesThen, PutOwnershipThen, PutClosing, ShortList;
    var t2 := PutClosing(ClosingOf(e));
    var t1 := PutOwnershipThen(OwnershipOf(e), t2);
    ReadPutHead(HeadOf(e), PutQuantitiesThen(QuantitiesOf(e), t1));
    ReadPutQuantities(QuantitiesOf(e), t1);
    ReadPutOwnership(OwnershipOf(e), t2);
    LongNoteFails(ClosingOf(e));
    var buf, n := pre + (EntryBytes(e) + post), |pre|;
    BodyBelow(e);
    GetPut(|Body(e)|, 4);
    Widths();
    assert buf[n..n + 4] == PutU32(|Body(e)|);
    assert buf[n + 4..n + 4 + |Body(e)|] == Body(e);
  }

  lemma BodyBelow(e: Entry)
    requires ShortList(e.shared) && |e.note| < 0x8000_0000
    ensures |Body(e)| < 0x1_0000_0000
  {
    var tail := PutClosing(ClosingOf(e));
    assert |tail| <= 14 * 8 + 11 * 8 + 8 + 8 + 1 + 9 + 4 + |e.note|;
    var mid := PutOwnershipThen(OwnershipOf(e), tail);
    assert |mid| <= 10 + 6 + 16 * MAX_PARTICIPANTS + |tail|;
    assert |PutQuantitiesThen(QuantitiesOf(e), mid)| <= 3 * 128 + 2 + |mid|;
  }

  // ---------- histories ----------

  function HistoryBytes(h: seq<Entry>): seq<Byte>
  {
    if h == [] then [] else HistoryBytes(h[..|h| - 1]) + EntryBytes(h[|h| - 1])
  }

  ghost predicate AllEncodable(h: seq<Entry>)
  {
    forall i :: 0 <= i < |h| ==> Encodable(h[i])
  }

  datatype DecodedMany = BadMany | GoodMany(entries: seq<Entry>, offset: nat)

  /** The decode loop of `load_from_string`. */
  function DecodeMany(buf: seq<Byte>, offset: nat, n: nat): (r: DecodedMany)
    requires offset <= |buf|
    ensures r.GoodMany? ==> |r.entries| == n && offset <= r.offset <= |buf|
  {
    if n == 0 then GoodMany([], offset) else
      var r := DecodeMany(buf, offset, n - 1);
      if r.BadMany? then BadMany else
        match Decode(buf, r.offset)
        case Bad(_) => BadMany
        case Good(e, end) => GoodMany(r.entries + [e], end)
  }

  lemma {:induction false} DecodeManyIsCanonical(buf: seq<Byte>, offset: nat, n: nat)
    requires offset <= |buf| && DecodeMany(buf, offset, n).GoodMany?
    ensures var GoodMany(h, end) := DecodeMany(buf, offset, n);
            AllEncodable(h) && buf[offset..end] == HistoryBytes(h)
  {
    hide Decode, Encodable, EntryBytes;
    if n > 0 {
      DecodeManyIsCanonical(buf, offset, n - 1);
      var r := DecodeMany(buf, offset, n - 1);
      DecodeIsCanonical(buf, r.offset);
      var GoodMany(h, end) := DecodeMany(buf, offset, n);
      assert h[..|h| - 1] == r.entries;
      assert buf[offset..end] == buf[offset..r.offset] + buf[r.offset..end];
    }
  }

  lemma Regroup(a: seq<Byte>, b: seq<Byte>, c: seq<Byte>)
    ensures (a + b) + c == a + (b + c)
  {
  }

  /** Concatenated encodings parse back, and hence parse uniquely. */
  lemma {:induction false} DecodeHistory(pre: seq<Byte>, h: seq<Entry>, post: seq<Byte>)
    requires AllEncodable(h)
    ensures DecodeMany(pre + (HistoryBytes(h) + post), |pre|, |h|) == GoodMany(h, |pre| + |HistoryBytes(h)|)
    decreases |h|
  {
    hide Decode, Encodable, EntryBytes, HistoryBytes, DecodeMany;
    if h == [] {
      NoHistory(pre, post);
    } else {
      var p, e := h[..|h| - 1], h[|h| - 1];
      assert h == p + [e];
      HistorySnoc(p, e);
      Regroup(HistoryBytes(p), EntryBytes(e), post);
      DecodeHistory(pre, p, EntryBytes(e) + post);
      Behind(pre, HistoryBytes(p), EntryBytes(e) + post);
      var buf := pre + (HistoryBytes(h) + post);
      DecodeOneMore(buf, |pre|, p, |pre| + |HistoryBytes(p)|, e, post);
    }
  }

  lemma NoHistory(pre: seq<Byte>, post: seq<Byte>)
    ensures HistoryBytes([]) == [] && DecodeMany(pre + ([] + post), |pre|, 0) == GoodMany([], |pre|)
  {
  }

  lemma HistorySnoc(p: seq<Entry>, e: Entry)
    ensures HistoryBytes(p + [e]) == HistoryBytes(p) + EntryBytes(e)
  {
    hide EntryBytes;
    assert (p + [e])[..|p|] == p;
  }

  lemma DecodeNext(buf: seq<Byte>, offset: nat, n: nat, h: seq<Entry>, at: nat, e: Entry, end: nat)
    requires offset <= |buf| && DecodeMany(buf, offset, n) == GoodMany(h, at) && at <= |buf| && Decode(buf, at) == Good(e, end)
    ensures DecodeMany(buf, offset, n + 1) == GoodMany(h + [e], end)
  {
    hide Decode;
  }

  lemma DecodeAt(buf: seq<Byte>, at: nat, e: Entry, post: seq<Byte>)
    requires Encodable(e) && at <= |buf| && buf[at..] == EntryBytes(e) + post
    ensures Decode(buf, at) == Good(e, at + |EntryBytes(e)|)
  {
    hide Decode, Encodable, EntryBytes;
    assert buf == buf[..at] + buf[at..];
    DecodeEncoded(buf[..at], e, post);
  }

  lemma Behind(a: seq<Byte>, b: seq<Byte>, c: seq<Byte>)
    ensures (a + (b + c))[|a| + |b|..] == c
  {
  }

  lemma DecodeOneMore(buf: seq<Byte>, start: nat, p: seq<Entry>, at: nat, e: Entry, post: seq<Byte>)
    requires Encodable(e) && start <= |buf| && at <= |buf| && buf[at..] == EntryBytes(e) + post
    requires DecodeMany(buf, start, |p|) == GoodMany(p, at)
    ensures DecodeMany(buf, start, |p| + 1) == GoodMany(p + [e], at + |EntryBytes(e)|)
  {
    hide Decode, DecodeMany, Encodable, EntryBytes;
    DecodeAt(buf, at, e, post);
    DecodeNext(buf, start, |p|, p, at, e, at + |EntryBytes(e)|);
  }

  lemma UniqueParse(g: seq<Entry>, h: seq<Entry>, s: seq<Byte>, t: seq<Byte>)
    requires AllEncodable(g) && AllEncodable(h) && |g| == |h|
    requires HistoryBytes(g) + s == HistoryBytes(h) + t
    ensures g == h && s == t
  {
    hide HistoryBytes, DecodeMany, Encodable;
    DecodeHistory([], g, s);
    DecodeHistory([], h, t);
    assert (HistoryBytes(g) + s)[|HistoryBytes(g)|..] == s;
    assert (HistoryBytes(h) + t)[|HistoryBytes(h)|..] == t;
  }
}
