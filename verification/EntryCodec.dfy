/** `encode_entry` and `decode_entry` as the code runs them: a growing output buffer
    with a length patched in afterwards, and a `Reader` that walks the input. */
module EntryCodec {
  import opened Bytes
  import opened Entries
  import opened Codec

  // ---------- reading ----------

  class Reader {
    const b: seq<Byte>
    var pos: nat

    ghost predicate Valid()
      reads this
    {
      pos <= |b|
    }

    ghost function Rest(): seq<Byte>
      requires Valid()
      reads this
    {
      b[pos..]
    }

    constructor (buf: seq<Byte>)
      ensures Valid() && Rest() == buf
    {
      b := buf;
      pos := 0;
      new;
      assert b[0..] == b;
    }

    method U8() returns (r: Option<Byte>)
      requires Valid()
      modifies this`pos
      ensures Valid()
      ensures r.None? ==> ReadU8(old(Rest())).Fail? && pos == old(pos)
      ensures r.Some? ==> ReadU8(old(Rest())) == Done(r.value, Rest())
    {
      if pos + 1 > |b| {
        return None;
      }
      r := Some(b[pos]);
      pos := pos + 1;
      assert old(Rest())[1..] == Rest();
    }

    /** The shift-and-or loop shared by the multi-byte readers. */
    method Little(n: nat) returns (v: nat)
      requires Valid() && pos + n <= |b|
      modifies this`pos
      ensures Valid() && pos == old(pos) + n
      ensures v == GetLE(old(b[pos..pos + n])) < Pow256(n)
    {
      v := 0;
      var i := 0;
      ghost var start := pos;
      while i < n
        invariant 0 <= i <= n && pos == start
        invariant v == GetLE(b[start..start + i])
      {
        GetAppend(b[start..start + i], b[start + i]);
        assert b[start..start + i + 1] == b[start..start + i] + [b[start + i]];
        v := v + b[pos + i] * Pow256(i);
        i := i + 1;
      }
      PutGet(b[start..start + n]);
      pos := pos + n;
    }

    method U32() returns (r: Option<u32>)
      requires Valid()
      modifies this`pos
      ensures Valid()
      ensures r.None? ==> ReadU32(old(Rest())).Fail?
      ensures r.Some? ==> ReadU32(old(Rest())) == Done(r.value, Rest())
    {
      if pos + 4 > |b| {
        return None;
      }
      Widths();
      ghost var before := Rest();
      assert before[..4] == b[pos..pos + 4];
      var v := Little(4);
      assert before[4..] == Rest();
      r := Some(v);
    }

    method U64() returns (r: Option<u64>)
      requires Valid()
      modifies this`pos
      ensures Valid()
      ensures r.None? ==> ReadU64(old(Rest())).Fail?
      ensures r.Some? ==> ReadU64(old(Rest())) == Done(r.value, Rest())
    {
      if pos + 8 > |b| {
        return None;
      }
      Widths();
      ghost var before := Rest();
      assert before[..8] == b[pos..pos + 8];
      var v := Little(8);
      assert before[8..] == Rest();
      r := Some(v);
    }

    /** `n` words in a row, as the dimension, fence and owner loops read them. */
    method Words(n: nat) returns (r: Option<seq<u64>>)
      requires Valid()
      modifies this`pos
      ensures Valid()
      ensures r.None? ==> ReadWords(old(Rest()), n).Fail?
      ensures r.Some? ==> ReadWords(old(Rest()), n) == Done(r.value, Rest())
    {
      hide ReadU64;
      var out: seq<u64> := [];
      ghost var all := Rest();
      var i := 0;
      while i < n
        invariant 0 <= i <= n && |out| == i && Valid()
        invariant ReadWords(all, i) == Done(out, Rest())
      {
        ghost var here := Rest();
        var v := U64();
        WordsStep(all, i);
        if v.None? {
          WordsFailOn(all, i, n);
          return None;
        }
        out := out + [v.value];
        i := i + 1;
      }
      r := Some(out);
    }

    method Flag() returns (r: Option<bool>)
      requires Valid()
      modifies this`pos
      ensures Valid()
      ensures r.None? ==> ReadFlag(old(Rest())).Fail?
      ensures r.Some? ==> ReadFlag(old(Rest())) == Done(r.value, Rest())
    {
      var x := U8();
      if x.None? || x.value > 1 {
        return None;
      }
      r := Some(x.value == 1);
    }

    method OptDims() returns (r: Option<Option<Dims>>)
      requires Valid()
      modifies this`pos
      ensures Valid()
      ensures r.None? ==> ReadOptDims(old(Rest())).Fail?
      ensures r.Some? ==> ReadOptDims(old(Rest())) == Done(r.value, Rest())
    {
      hide ReadFlag, ReadWords;
      var present := Flag();
      if present.None? { return None; }
      if !present.value { return Some(None); }
      var w := Words(DIMS);
      if w.None? { return None; }
      r := Some(Some(DimsOf(w.value)));
    }

    /** Policy, bounded participant count, then account and weight pairs. */
    method Shared() returns (r: Option<Option<SharedRef>>)
      requires Valid()
      modifies this`pos
      ensures Valid()
      ensures r.None? ==> ReadShared(old(Rest())).Fail?
      ensures r.Some? ==> ReadShared(old(Rest())) == Done(r.value, Rest())
    {
      hide ReadFlag, ReadU8, ReadU32, ReadWords, ParticipantsOf;
      var present := Flag();
      if present.None? { return None; }
      if !present.value { return Some(None); }
      var policy := U8();
      if policy.None? { return None; }
      var n := U32();
      if n.None? || n.value > MAX_PARTICIPANTS { return None; }
      var w := Words(2 * n.value);
      if w.None? { return None; }
      r := Some(Some(SharedRef(policy.value, ParticipantsOf(w.value, n.value))));
    }

    method Target() returns (r: Option<Option<u64>>)
      requires Valid()
      modifies this`pos
      ensures Valid()
      ensures r.None? ==> ReadTarget(old(Rest())).Fail?
      ensures r.Some? ==> ReadTarget(old(Rest())) == Done(r.value, Rest())
    {
      hide ReadFlag, ReadU64;
      var present := Flag();
      if present.None? { return None; }
      if !present.value { return Some(None); }
      var v := U64();
      if v.None? { return None; }
      r := Some(Some(v.value));
    }

    method Note() returns (r: Option<seq<Byte>>)
      requires Valid()
      modifies this`pos
      ensures Valid()
      ensures r.None? ==> ReadNote(old(Rest())).Fail?
      ensures r.Some? ==> ReadNote(old(Rest())) == Done(r.value, [])
    {
      hide ReadU32;
      var n := U32();
      if n.None? || n.value > MAX_NOTE || |b| - pos != n.value { return None; }
      r := Some(b[pos..]);
      pos := |b|;
    }
  }

  lemma {:induction false} WordsStep(s: seq<Byte>, n: nat)
    requires ReadWords(s, n).Done?
    ensures var r := ReadU64(ReadWords(s, n).rest);
            ReadWords(s, n + 1) == if r.Fail? then Fail else Done(ReadWords(s, n).value + [r.value], r.rest)
    decreases n
  {
    hide ReadU64;
    if n > 0 {
      var h := ReadU64(s);
      WordsStep(h.rest, n - 1);
      var w := ReadWords(h.rest, n - 1);
      var r := ReadU64(w.rest);
      if r.Done? {
        assert [h.value] + (w.value + [r.value]) == ([h.value] + w.value) + [r.value];
      }
    } else {
      var r := ReadU64(s);
      if r.Done? {
        assert ReadWords(r.rest, 0) == Done([], r.rest);
        assert [r.value] + [] == [] + [r.value];
      }
    }
  }

  lemma {:induction false} WordsFailOn(s: seq<Byte>, i: nat, n: nat)
    requires i < n && ReadWords(s, i + 1).Fail?
    ensures ReadWords(s, n).Fail?
    decreases n
  {
    hide ReadU64;
    if i + 1 < n {
      var h := ReadU64(s);
      if h.Done? && i > 0 {
        WordsFailOn(h.rest, i - 1, n - 1);
      }
    }
  }

  method ReadHeadPart(r: Reader) returns (h: Option<Head>)
    requires r.Valid()
    modifies r`pos
    ensures r.Valid()
    ensures h.None? ==> ReadHead(old(r.Rest())).Fail?
    ensures h.Some? ==> ReadHead(old(r.Rest())) == Done(h.value, r.Rest())
  {
    hide ReadU8, ReadU64;
    var id := r.U64();
    if id.None? { return None; }
    var event := r.U8();
    if event.None? { return None; }
    var cls := r.U8();
    if cls.None? { return None; }
    var u := r.U8();
    if u.None? { return None; }
    var o := r.U8();
    if o.None? { return None; }
    var w := r.U8();
    if w.None? { return None; }
    var a := r.U8();
    if a.None? { return None; }
    var t := r.U8();
    if t.None? { return None; }
    h := Some(Head(id.value, event.value, cls.value, Subcategory(u.value, o.value, w.value, a.value, t.value)));
  }

  method ReadQuantitiesPart(r: Reader) returns (q: Option<Quantities>)
    requires r.Valid()
    modifies r`pos
    ensures r.Valid()
    ensures q.None? ==> ReadQuantities(old(r.Rest())).Fail?
    ensures q.Some? ==> ReadQuantities(old(r.Rest())) == Done(q.value, r.Rest())
  {
    hide ReadWords, ReadOptDims;
    var u := r.Words(DIMS);
    if u.None? { return None; }
    var a := r.OptDims();
    if a.None? { return None; }
    var t := r.OptDims();
    if t.None? { return None; }
    q := Some(Quantities(DimsOf(u.value), a.value, t.value));
  }

  method ReadOwnershipPart(r: Reader) returns (o: Option<Ownership>)
    requires r.Valid()
    modifies r`pos
    ensures r.Valid()
    ensures o.None? ==> ReadOwnership(old(r.Rest())).Fail?
    ensures o.Some? ==> ReadOwnership(old(r.Rest())) == Done(o.value, r.Rest())
  {
    hide ReadU8, ReadU64, ReadShared;
    var p := r.U8();
    if p.None? { return None; }
    var f := r.U8();
    if f.None? { return None; }
    var acc := r.U64();
    if acc.None? { return None; }
    var sh := r.Shared();
    if sh.None? { return None; }
    o := Some(Ownership(p.value, f.value, acc.value, sh.value));
  }

  method ReadClosingPart(r: Reader) returns (c: Option<Closing>)
    requires r.Valid()
    modifies r`pos
    ensures r.Valid()
    ensures c.None? ==> ReadClosing(old(r.Rest())).Fail?
    ensures c.Some? ==> ReadClosing(old(r.Rest())) == Done(c.value, [])
  {
    hide ReadU8, ReadU64, ReadWords, ReadTarget, ReadNote;
    var fw := r.Words(14);
    if fw.None? { return None; }
    var ow := r.Words(11);
    if ow.None? { return None; }
    var id := r.U64();
    if id.None? { return None; }
    var gen := r.U64();
    if gen.None? { return None; }
    var out := r.U8();
    if out.None? { return None; }
    var target := r.Target();
    if target.None? { return None; }
    var note := r.Note();
    if note.None? { return None; }
    c := Some(Closing(FencesOf(fw.value), OwnersOf(ow.value), Attempt(id.value, gen.value), out.value, target.value, note.value));
  }

  /** What decoding into an existing entry leaves: absent optional fields and an
      empty note do not overwrite what was there. */
  function Overlay(into: Entry, e: Entry): Entry
  {
    e.(avoidedWork := if e.avoidedWork.Some? then e.avoidedWork else into.avoidedWork,
       strandedCapacity := if e.strandedCapacity.Some? then e.strandedCapacity else into.strandedCapacity,
       shared := if e.shared.Some? then e.shared else into.shared,
       target := if e.target.Some? then e.target else into.target,
       note := if e.note != [] then e.note else into.note)
  }

  /** Decoding is clean for every input exactly when the receiving entry has no
      optional field set and no note, as a default entry does. */
  lemma CleanTarget(into: Entry)
    ensures (forall e: Entry :: Overlay(into, e) == e)
            <==> into.avoidedWork.None? && into.strandedCapacity.None? && into.shared.None? && into.target.None? && into.note == []
  {
    if forall e: Entry :: Overlay(into, e) == e {
      assert Overlay(into, BLANK) == BLANK;
    }
  }

  method DecodeBody(sub: seq<Byte>) returns (e: Option<Entry>)
    ensures e == ReadBody(sub)
  {
    hide ReadHead, ReadQuantities, ReadOwnership, ReadClosing, Body, Encodable;
    var r := new Reader(sub);
    var h := ReadHeadPart(r);
    if h.None? { return None; }
    var q := ReadQuantitiesPart(r);
    if q.None? { return None; }
    var o := ReadOwnershipPart(r);
    if o.None? { return None; }
    var c := ReadClosingPart(r);
    if c.None? { return None; }
    e := Some(Assemble(h.value, q.value, o.value, c.value));
  }

  /** `decode_entry`: reads one entry at `offset` into `into`. */
  method DecodeEntry(buf: seq<Byte>, offset: nat, into: Entry) returns (ok: bool, e: Entry, end: nat)
    requires offset <= |buf|
    ensures ok == Decode(buf, offset).Good? && end == Decode(buf, offset).offset
    ensures ok ==> e == Overlay(into, Decode(buf, offset).entry)
  {
    hide ReadBody, GetLE;
    ok, e, end := false, into, offset;
    if offset + 4 > |buf| {
      return;
    }
    var len := GetLE(buf[offset..offset + 4]);
    end := offset + 4;
    if len > MAX_BODY || end + len > |buf| {
      return;
    }
    var body := DecodeBody(buf[end..end + len]);
    end := end + len;
    if body.Some? {
      ok, e := true, Overlay(into, body.value);
    }
  }

  // ---------- writing ----------

  /** Appending in front of what is still to come: the buffer plus the rest of the
      plan stays the same. */
  lemma Advance(out: seq<Byte>, piece: seq<Byte>, tail: seq<Byte>)
    ensures out + (piece + tail) == (out + piece) + tail
  {
  }

  method AppendWords(out0: seq<Byte>, vs: seq<u64>, ghost tail: seq<Byte>) returns (out: seq<Byte>)
    ensures out + tail == out0 + PutWordsThen(vs, tail)
  {
    hide PutU64;
    out := out0;
    var i := 0;
    while i < |vs|
      invariant 0 <= i <= |vs|
      invariant out + PutWordsThen(vs[i..], tail) == out0 + PutWordsThen(vs, tail)
    {
      Advance(out, PutU64(vs[i]), PutWordsThen(vs[i..][1..], tail));
      assert vs[i..][1..] == vs[i + 1..];
      out := out + PutU64(vs[i]);
      i := i + 1;
    }
  }

  method AppendFlag(out0: seq<Byte>, present: bool, ghost tail: seq<Byte>) returns (out: seq<Byte>)
    ensures out + tail == out0 + PutFlagThen(present, tail)
  {
    Advance(out0, PutU8(if present then 1 else 0), tail);
    out := out0 + PutU8(if present then 1 else 0);
  }

  method AppendOptDims(out0: seq<Byte>, o: Option<Dims>, ghost tail: seq<Byte>) returns (out: seq<Byte>)
    ensures out + tail == out0 + PutOptDimsThen(o, tail)
  {
    hide PutFlagThen, PutWordsThen;
    out := AppendFlag(out0, o.Some?, if o.Some? then PutWordsThen(o.value, tail) else tail);
    if o.Some? {
      out := AppendWords(out, o.value, tail);
    }
  }

  method AppendShared(out0: seq<Byte>, o: Option<SharedRef>, ghost tail: seq<Byte>) returns (out: seq<Byte>)
    ensures out + tail == out0 + PutSharedThen(o, tail)
  {
    hide PutFlagThen, PutWordsThen, PutU32, PutU8, ParticipantWords;
    if o.None? {
      out := AppendFlag(out0, false, tail);
      return;
    }
    var ps := o.value.participants;
    ghost var words := PutWordsThen(ParticipantWords(ps), tail);
    out := AppendFlag(out0, true, PutU8(o.value.policy) + (PutU32(|ps|) + words));
    Advance(out, PutU8(o.value.policy), PutU32(|ps|) + words);
    out := out + PutU8(o.value.policy);
    Advance(out, PutU32(|ps|), words);
    out := out + PutU32(|ps|);
    out := AppendWords(out, ParticipantWords(ps), tail);
  }

  method AppendTarget(out0: seq<Byte>, o: Option<u64>, ghost tail: seq<Byte>) returns (out: seq<Byte>)
    ensures out + tail == out0 + PutTargetThen(o, tail)
  {
    hide PutFlagThen, PutU64;
    out := AppendFlag(out0, o.Some?, if o.Some? then PutU64(o.value) + tail else tail);
    if o.Some? {
      Advance(out, PutU64(o.value), tail);
      out := out + PutU64(o.value);
    }
  }

  method AppendHead(out0: seq<Byte>, h: Head, ghost tail: seq<Byte>) returns (out: seq<Byte>)
    ensures out + tail == out0 + PutHeadThen(h, tail)
  {
    hide PutU8, PutU64;
    var c := h.subcategory;
    ghost var t7 := PutU8(c.stranded) + tail;
    ghost var t6 := PutU8(c.avoided) + t7;
    ghost var t5 := PutU8(c.waste) + t6;
    ghost var t4 := PutU8(c.overhead) + t5;
    ghost var t3 := PutU8(c.useful) + t4;
    ghost var t2 := PutU8(h.classification) + t3;
    ghost var t1 := PutU8(h.event) + t2;
    out := out0;
    Advance(out, PutU64(h.id), t1);
    out := out + PutU64(h.id);
    Advance(out, PutU8(h.event), t2);
    out := out + PutU8(h.event);
    Advance(out, PutU8(h.classification), t3);
    out := out + PutU8(h.classification);
    Advance(out, PutU8(c.useful), t4);
    out := out + PutU8(c.useful);
    Advance(out, PutU8(c.overhead), t5);
    out := out + PutU8(c.overhead);
    Advance(out, PutU8(c.waste), t6);
    out := out + PutU8(c.waste);
    Advance(out, PutU8(c.avoided), t7);
    out := out + PutU8(c.avoided);
    Advance(out, PutU8(c.stranded), tail);
    out := out + PutU8(c.stranded);
  }

  method AppendQuantities(out0: seq<Byte>, q: Quantities, ghost tail: seq<Byte>) returns (out: seq<Byte>)
    ensures out + tail == out0 + PutQuantitiesThen(q, tail)
  {
    hide PutWordsThen, PutOptDimsThen;
    ghost var t2 := PutOptDimsThen(q.strandedCapacity, tail);
    ghost var t1 := PutOptDimsThen(q.avoidedWork, t2);
    out := AppendWords(out0, q.usage, t1);
    out := AppendOptDims(out, q.avoidedWork, t2);
    out := AppendOptDims(out, q.strandedCapacity, tail);
  }

  method AppendOwnership(out0: seq<Byte>, o: Ownership, ghost tail: seq<Byte>) returns (out: seq<Byte>)
    ensures out + tail == out0 + PutOwnershipThen(o, tail)
  {
    hide PutU8, PutU64, PutSharedThen;
    ghost var t3 := PutSharedThen(o.shared, tail);
    ghost var t2 := PutU64(o.account) + t3;
    ghost var t1 := PutU8(o.freshness) + t2;
    Advance(out0, PutU8(o.provenance), t1);
    out := out0 + PutU8(o.provenance);
    Advance(out, PutU8(o.freshness), t2);
    out := out + PutU8(o.freshness);
    Advance(out, PutU64(o.account), t3);
    out := out + PutU64(o.account);
    out := AppendShared(out, o.shared, tail);
  }

  method AppendClosing(out0: seq<Byte>, c: Closing) returns (out: seq<Byte>)
    ensures out == out0 + PutClosing(c)
  {
    hide PutU8, PutU64, PutU32, PutWordsThen, PutTargetThen;
    ghost var t5 := PutNote(c.note);
    ghost var t4 := PutTargetThen(c.target, t5);
    ghost var t3 := PutU8(c.outcome) + t4;
    ghost var t2 := PutU64(c.attempt.generation) + t3;
    ghost var t1 := PutU64(c.attempt.id) + t2;
    out := AppendWords(out0, FenceWords(c.fences), PutWordsThen(OwnerWords(c.owners), t1));
    out := AppendWords(out, OwnerWords(c.owners), t1);
    Advance(out, PutU64(c.attempt.id), t2);
    out := out + PutU64(c.attempt.id);
    Advance(out, PutU64(c.attempt.generation), t3);
    out := out + PutU64(c.attempt.generation);
    Advance(out, PutU8(c.outcome), t4);
    out := out + PutU8(c.outcome);
    out := AppendTarget(out, c.target, t5);
    Advance(out, PutU32(|c.note|), c.note);
    out := out + PutU32(|c.note|);
    out := out + c.note;
  }

  /** `encode_entry`: a placeholder length, the fields in order, then the real length
      written over the placeholder. */
  method EncodeEntry(e: Entry, out0: seq<Byte>) returns (out: seq<Byte>)
    ensures out == out0 + EntryBytes(e)
  {
    hide PutHeadThen, PutQuantitiesThen, PutOwnershipThen, PutClosing, GetLE;
    out := out0 + PutU32(0);
    var bodyStart := |out|;
    ghost var t2 := PutClosing(ClosingOf(e));
    ghost var t1 := PutOwnershipThen(OwnershipOf(e), t2);
    ghost var t0 := PutQuantitiesThen(QuantitiesOf(e), t1);
    out := AppendHead(out, HeadOf(e), t0);
    out := AppendQuantities(out, QuantitiesOf(e), t1);
    out := AppendOwnership(out, OwnershipOf(e), t2);
    out := AppendClosing(out, ClosingOf(e));
    assert out == (out0 + PutU32(0)) + Body(e);
    assert out[..bodyStart - 4] == out0 && out[bodyStart..] == Body(e);
    var len := PutU32(|out| - bodyStart);
    out := out[..bodyStart - 4] + len + out[bodyStart..];
    assert out == out0 + (len + Body(e));
  }
}
