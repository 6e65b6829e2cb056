/** The checksummed file image: `save_to_string` and `load_from_string`. */
module Image {
  import opened Bytes
  import opened Crc32c
  import opened Entries
  import opened Codec
  import opened Ledger
  import opened Identity
  import opened Totals
  import opened Runs
  import opened Replay

  const HEADER_LENGTH := 48
  const FOOTER_LENGTH := 4
  const MAX_ENTRIES := 0x1000_0000

  // ---------- header ----------

  function PutHeaderThen(h: Header, count: nat, tail: seq<Byte>): (s: seq<Byte>)
    ensures |s| == HEADER_LENGTH + |tail|
  {
    MAGIC + (PutU32(FORMAT_VERSION) + (PutU64(h.ledgerId) + (PutU64(h.epoch) + (PutU64(h.ledgerGeneration) +
    (PutU64(h.accountGeneration) + (PutU64(count) + tail))))))
  }

  /** Magic, version, authority values and entry count. */
  function ReadHeader(s: seq<Byte>): (r: Parse<(Header, u64)>)
    ensures r.Done? ==> s == PutHeaderThen(r.value.0, r.value.1, r.rest)
  {
    hide ReadU32, ReadU64, PutU32, PutU64;
    if |s| < 4 || s[..4] != MAGIC then Fail else
      assert s == MAGIC + s[4..];
      var (version, s1) :- ReadU32(s[4..]);
      if version != FORMAT_VERSION then Fail else
        var (id, s2) :- ReadU64(s1);
        var (epoch, s3) :- ReadU64(s2);
        var (lg, s4) :- ReadU64(s3);
        var (ag, s5) :- ReadU64(s4);
        var (count, s6) :- ReadU64(s5);
        Done((Header(id, epoch, lg, ag), count), s6)
  }

  lemma ReadPutHeader(h: Header, count: u64, tail: seq<Byte>)
    ensures ReadHeader(PutHeaderThen(h, count, tail)) == Done((h, count), tail)
  {
    hide ReadU32, ReadU64, PutU32, PutU64;
    var t5 := PutU64(count) + tail;
    var t4 := PutU64(h.accountGeneration) + t5;
    var t3 := PutU64(h.ledgerGeneration) + t4;
    var t2 := PutU64(h.epoch) + t3;
    var t1 := PutU64(h.ledgerId) + t2;
    var t0 := PutU32(FORMAT_VERSION) + t1;
    var s := MAGIC + t0;
    assert s[..4] == MAGIC && s[4..] == t0;
    ReadPutU32(FORMAT_VERSION, t1);
    ReadPutU64(h.ledgerId, t2);
    ReadPutU64(h.epoch, t3);
    ReadPutU64(h.ledgerGeneration, t4);
    ReadPutU64(h.accountGeneration, t5);
    ReadPutU64(count, tail);
  }

  // ---------- image ----------

  function Payload(h: Header, entries: seq<Entry>): seq<Byte>
  {
    PutHeaderThen(h, |entries|, HistoryBytes(entries))
  }

  /** `save_to_string`. */
  function ImageOf(h: Header, entries: seq<Entry>): seq<Byte>
  {
    Payload(h, entries) + Checksum(Payload(h, entries))
  }

  /** `load_from_string` up to the point where it touches the ledger. The entry loop
      walks the whole buffer, footer included; only its end position is checked. */
  function ParseImage(bytes: seq<Byte>): Option<(Header, seq<Entry>)>
  {
    if |bytes| < HEADER_LENGTH + FOOTER_LENGTH then None else
      var end := |bytes| - FOOTER_LENGTH;
      if bytes[end..] != Checksum(bytes[..end]) then None else
        var h := ReadHeader(bytes[..end]);
        if h.Fail? || h.value.1 > MAX_ENTRIES then None else
          var r := DecodeMany(bytes, HEADER_LENGTH, h.value.1);
          if r.BadMany? || r.offset != end then None else Some((h.value.0, r.entries))
  }

  /** Whatever is accepted is canonical: it is the image of what it parses to. */
  lemma AcceptedImageIsCanonical(bytes: seq<Byte>)
    requires ParseImage(bytes).Some?
    ensures var (h, entries) := ParseImage(bytes).value;
            bytes == ImageOf(h, entries) && AllEncodable(entries) && |entries| <= MAX_ENTRIES
  {
    hide Checksum, DecodeMany, HistoryBytes, PutHeaderThen, ReadHeader;
    var end := |bytes| - FOOTER_LENGTH;
    var payload := bytes[..end];
    var h := ReadHeader(payload);
    DecodeManyIsCanonical(bytes, HEADER_LENGTH, h.value.1);
    assert payload[HEADER_LENGTH..] == h.rest by { HeaderLength(h.value.0, h.value.1, h.rest); }
    assert payload[HEADER_LENGTH..] == bytes[HEADER_LENGTH..end];
    assert bytes == payload + bytes[end..];
  }

  lemma HeaderLength(h: Header, count: nat, tail: seq<Byte>)
    ensures PutHeaderThen(h, count, tail)[HEADER_LENGTH..] == tail
    ensures PutHeaderThen(h, count, tail) == PutHeaderThen(h, count, []) + tail
  {
    hide PutU32, PutU64;
    var e6 := PutU64(count) + [];
    var e5 := PutU64(h.accountGeneration) + e6;
    var e4 := PutU64(h.ledgerGeneration) + e5;
    var e3 := PutU64(h.epoch) + e4;
    var e2 := PutU64(h.ledgerId) + e3;
    var e1 := PutU32(FORMAT_VERSION) + e2;
    assert [] + tail == tail;
    Regroup(PutU64(count), [], tail);
    Regroup(PutU64(h.accountGeneration), e6, tail);
    Regroup(PutU64(h.ledgerGeneration), e5, tail);
    Regroup(PutU64(h.epoch), e4, tail);
    Regroup(PutU64(h.ledgerId), e3, tail);
    Regroup(PutU32(FORMAT_VERSION), e2, tail);
    Regroup(MAGIC, e1, tail);
    var header := MAGIC + e1;
    assert |header| == HEADER_LENGTH by { assert header == PutHeaderThen(h, count, []); }
    assert (header + tail)[HEADER_LENGTH..] == tail;
  }

  /** An image parses back to what was saved. */
  lemma ParseSaved(h: Header, entries: seq<Entry>)
    requires AllEncodable(entries) && |entries| <= MAX_ENTRIES
    ensures ParseImage(ImageOf(h, entries)) == Some((h, entries))
  {
    hide Checksum, DecodeMany, HistoryBytes, PutHeaderThen, ReadHeader;
    var payload := Payload(h, entries);
    var bytes := ImageOf(h, entries);
    var end := |payload|;
    assert bytes[..end] == payload && bytes[end..] == Checksum(payload);
    ReadPutHeader(h, |entries|, HistoryBytes(entries));
    var pre := PutHeaderThen(h, |entries|, []);
    HeaderLength(h, |entries|, HistoryBytes(entries));
    assert bytes == pre + (HistoryBytes(entries) + Checksum(payload));
    DecodeHistory(pre, entries, Checksum(payload));
  }

  // ---------- loading into a ledger ----------

  /** The orders are for the replay of whatever the image holds. */
  ghost predicate OrdersForImage(bytes: seq<Byte>, orders: seq<seq<u64>>)
  {
    ParseImage(bytes).Some? ==> OrdersFor(ParseImage(bytes).value.1, orders)
  }

  ghost function LoadImage(s: State, bytes: seq<Byte>, orders: seq<seq<u64>>): (State, Code)
    requires OrdersForImage(bytes, orders)
  {
    match ParseImage(bytes)
    case None => (s, PersistenceCorrupt)
    case Some((h, entries)) =>
      var (s', code) := LoadHistory(s.(auth := Adopt(s.auth, h)), entries, orders);
      (s', if code == Ok then Ok else PersistenceCorrupt)
  }

  function SaveImage(s: State): seq<Byte>
  {
    ImageOf(HeaderOf(s.auth), s.book.history)
  }

  /** Load then save is the identity on bytes: for every byte string a load accepts,
      saving afterwards yields exactly those bytes. */
  lemma LoadThenSave(s: State, bytes: seq<Byte>, orders: seq<seq<u64>>)
    requires OrdersForImage(bytes, orders) && LoadImage(s, bytes, orders).1 == Ok
    ensures SaveImage(LoadImage(s, bytes, orders).0) == bytes
  {
    hide AppendLocked, ImageOf, ParseImage;
    AcceptedImageIsCanonical(bytes);
    var (h, entries) := ParseImage(bytes).value;
    var auth := Adopt(s.auth, h).(replaying := true);
    ManyHistory(auth, EMPTY_BOOK, entries, orders, |entries|);
    assert EMPTY_BOOK.history + entries[..|entries|] == entries;
  }

  /** Save then load: into any ledger, whatever its state, the image of a sound and
      grounded ledger loads if and only if it is loadable. It then restores ledger id,
      epoch, generations and everything derived from the history. (Notes below 2^31
      bytes and counts below 2^64, so that no length field is cut.) */
  lemma SaveThenLoad(s: State, into: State, orders: seq<seq<u64>>)
    requires Sound(s.book) && Grounded(s.book) && OrdersForImage(SaveImage(s), orders)
    requires NotesBelow(s.book.history, 0x8000_0000) && |s.book.history| <= MAX64
    ensures var (s', code) := LoadImage(into, SaveImage(s), orders);
            && (code == Ok <==> Loadable(s))
            && (code == Ok ==> Restored(s, into, s'))
  {
    hide Agrees, Disciplined, Grounded, Rebuilt, Replayable, AllEncodable, ImageOf, ParseImage, AppendMany, FencesCurrent, OrderFor, NotesBelow, WellFormed;
    CommittedListsAreShort(s.book.history);
    ImageParsesIff(HeaderOf(s.auth), s.book.history);
    NothingToReplay();
    if ParseImage(SaveImage(s)).Some? {
      var target := into.(auth := Adopt(into.auth, HeaderOf(s.auth)));
      ReplayRebuilds(s.book, target, orders);
      SameHeaderSameFences(s.auth, target.auth, s.book.history);
    }
  }

  /** The same for the ledger at the end of any run of any operations. */
  lemma EveryRunSavesAndLoads(id: u64, ops: Run, into: State, orders: seq<seq<u64>>)
    requires var s := After(Initial(id), ops);
             OrdersForImage(SaveImage(s), orders) && NotesBelow(s.book.history, 0x8000_0000) && |s.book.history| <= MAX64
    ensures var s := After(Initial(id), ops);
            var (s', code) := LoadImage(into, SaveImage(s), orders);
            && (code == Ok <==> Loadable(s))
            && (code == Ok ==> Restored(s, into, s'))
  {
    hide After, Sound, Grounded, Loadable, Restored, LoadImage, SaveImage, OrdersForImage, NotesBelow;
    EveryRunIsSound(id, ops);
    EveryRunIsGrounded(id, ops);
    SaveThenLoad(After(Initial(id), ops), into, orders);
  }

  /** What a caller can check before saving: fences against the ledger's own values,
      every revision paid for by the recomputation, notes and count within bounds. */
  ghost predicate Loadable(s: State)
  {
    && FencesMatch(s.auth, s.book.history) && Replayable(s.book.history)
    && NotesBelow(s.book.history, MAX_NOTE + 1) && |s.book.history| <= MAX_ENTRIES
  }

  ghost predicate Restored(s: State, into: State, after: State)
  {
    && HeaderOf(after.auth) == HeaderOf(s.auth)
    && after.auth.liveWorkers == into.auth.liveWorkers && !after.auth.shuttingDown && !after.auth.replaying
    && Rebuilt(s.book, after.book)
  }

  ghost predicate NotesBelow(h: seq<Entry>, bound: nat)
  {
    forall i :: 0 <= i < |h| ==> |h[i].note| < bound
  }

  ghost predicate ListsShort(h: seq<Entry>)
  {
    forall i :: 0 <= i < |h| ==> ShortList(h[i].shared)
  }

  lemma CommittedListsAreShort(h: seq<Entry>)
    requires WellFormed(h)
    ensures ListsShort(h)
  {
    forall i | 0 <= i < |h| ensures ShortList(h[i].shared) {
      assert WellPlaced(h[..i], h[i]);
    }
  }

  /** Exactly which histories survive being saved. */
  lemma ImageParsesIff(h: Header, entries: seq<Entry>)
    requires ListsShort(entries) && NotesBelow(entries, 0x8000_0000) && |entries| <= MAX64
    ensures ParseImage(ImageOf(h, entries)).Some? <==> NotesBelow(entries, MAX_NOTE + 1) && |entries| <= MAX_ENTRIES
    ensures ParseImage(ImageOf(h, entries)).Some? ==> ParseImage(ImageOf(h, entries)) == Some((h, entries))
  {
    hide ImageOf, ParseImage;
    if !NotesBelow(entries, MAX_NOTE + 1) {
      var i := FirstLongNote(entries);
      assert entries == entries[..i] + [entries[i]] + entries[i + 1..];
      LongNoteMakesImageUnloadable(h, entries[..i], entries[i], entries[i + 1..]);
    } else if |entries| > MAX_ENTRIES {
      TooManyEntries(h, entries);
    } else {
      ParseSaved(h, entries);
    }
  }

  lemma FirstLongNote(entries: seq<Entry>) returns (i: nat)
    requires ListsShort(entries) && !NotesBelow(entries, MAX_NOTE + 1)
    ensures i < |entries| && |entries[i].note| > MAX_NOTE && AllEncodable(entries[..i])
  {
    i := 0;
    while |entries[i].note| <= MAX_NOTE
      invariant i < |entries| && AllEncodable(entries[..i])
      invariant exists j :: i <= j < |entries| && |entries[j].note| > MAX_NOTE
      decreases |entries| - i
    {
      assert entries[..i + 1] == entries[..i] + [entries[i]];
      i := i + 1;
    }
  }

  lemma TooManyEntries(h: Header, entries: seq<Entry>)
    requires MAX_ENTRIES < |entries| <= MAX64
    ensures ParseImage(ImageOf(h, entries)).None?
  {
    hide Checksum, DecodeMany, HistoryBytes, PutHeaderThen, ReadHeader;
    var payload := Payload(h, entries);
    assert ImageOf(h, entries)[..|payload|] == payload;
    ReadPutHeader(h, |entries|, HistoryBytes(entries));
  }

  lemma SameHeaderSameFences(auth: Authority, auth': Authority, h: seq<Entry>)
    requires HeaderOf(auth) == HeaderOf(auth')
    ensures FencesMatch(auth, h) <==> FencesMatch(auth', h)
  {
    forall i | 0 <= i < |h| ensures FencesCurrent(auth, h[i]) <==> FencesCurrent(auth', h[i]) { }
  }

  // ---------- corruption ----------

  /** Any change of any single byte of an image, header, entries or footer, is
      rejected, and the ledger is left untouched. */
  lemma SingleByteCorruptionRejected(h: Header, entries: seq<Entry>, i: nat, b: Byte, s: State)
    requires i < |ImageOf(h, entries)| && b != ImageOf(h, entries)[i]
    ensures ParseImage(ImageOf(h, entries)[i := b]).None?
    ensures LoadImage(s, ImageOf(h, entries)[i := b], []) == (s, PersistenceCorrupt)
  {
    hide Checksum, DecodeMany, HistoryBytes, PutHeaderThen, ReadHeader;
    var payload := Payload(h, entries);
    var bytes := ImageOf(h, entries);
    var bad := bytes[i := b];
    var end := |payload|;
    assert |bytes| == end + 4;
    if i < end {
      assert bad[..end] == payload[i := b];
      assert bad[end..] == Checksum(payload);
      ChecksumSeparates(payload, i, b);
    } else {
      assert bad[..end] == payload;
      assert bad[end..][i - end] == b;
      assert bytes[end..][i - end] == bytes[i];
      assert bytes[end..] == Checksum(payload);
    }
  }

  /** So is any change confined to four consecutive bytes of the payload. */
  lemma BurstCorruptionRejected(pre: seq<Byte>, x: seq<Byte>, y: seq<Byte>, post: seq<Byte>)
    requires |x| == |y| == 4 && x != y
    ensures ParseImage(pre + y + post + Checksum(pre + x + post)).None?
  {
    hide Crc, DecodeMany, ReadHeader, WordBytes;
    var payload := pre + y + post;
    var bytes := payload + Checksum(pre + x + post);
    assert bytes[..|payload|] == payload && bytes[|payload|..] == Checksum(pre + x + post);
    BurstDetected(pre, x, y, post, Word(0));
    if Checksum(payload) == Checksum(pre + x + post) {
      WordBytesInjective(Crc(payload, Word(0)).bits, Crc(pre + x + post, Word(0)).bits);
    }
  }

  // ---------- what the note bound costs ----------

  /** One over-long note makes the whole saved image unloadable. */
  lemma LongNoteMakesImageUnloadable(h: Header, before: seq<Entry>, e: Entry, after: seq<Entry>)
    requires AllEncodable(before) && ShortList(e.shared) && MAX_NOTE < |e.note| < 0x8000_0000
    requires |before| + 1 + |after| <= MAX64
    ensures ParseImage(ImageOf(h, before + [e] + after)).None?
  {
    hide Checksum, Decode, EntryBytes, PutHeaderThen, ReadHeader, Encodable, HistoryBytes, DecodeMany;
    var entries := before + [e] + after;
    var payload := Payload(h, entries);
    var bytes := ImageOf(h, entries);
    var end := |payload|;
    assert bytes[..end] == payload;
    ReadPutHeader(h, |entries|, HistoryBytes(entries));
    var pre := PutHeaderThen(h, |entries|, []);
    HeaderLength(h, |entries|, HistoryBytes(entries));
    var tail := HistorySplit(before, e, after);
    assert bytes == pre + (HistoryBytes(before) + (EntryBytes(e) + (tail + Checksum(payload))));
    StopsAt(bytes, pre, before, e, tail + Checksum(payload), |entries|);
  }

  lemma {:induction false} HistorySplit(before: seq<Entry>, e: Entry, after: seq<Entry>) returns (tail: seq<Byte>)
    ensures HistoryBytes(before + [e] + after) == HistoryBytes(before) + (EntryBytes(e) + tail)
    decreases |after|
  {
    hide EntryBytes;
    var all := before + [e] + after;
    if after == [] {
      assert all[..|all| - 1] == before && all[|all| - 1] == e;
      tail := [];
      assert EntryBytes(e) + tail == EntryBytes(e);
    } else {
      var n := |after| - 1;
      var t := HistorySplit(before, e, after[..n]);
      assert all[..|all| - 1] == before + [e] + after[..n] && all[|all| - 1] == after[n];
      tail := t + EntryBytes(after[n]);
      Regroup(HistoryBytes(before), EntryBytes(e) + t, EntryBytes(after[n]));
      Regroup(EntryBytes(e), t, EntryBytes(after[n]));
    }
  }

  lemma {:induction false} StopsAt(bytes: seq<Byte>, pre: seq<Byte>, before: seq<Entry>, e: Entry, rest: seq<Byte>, n: nat)
    requires AllEncodable(before) && ShortList(e.shared) && MAX_NOTE < |e.note| < 0x8000_0000
    requires bytes == pre + (HistoryBytes(before) + (EntryBytes(e) + rest)) && n > |before|
    ensures DecodeMany(bytes, |pre|, n).BadMany?
    decreases n
  {
    hide Decode, EntryBytes, Encodable, HistoryBytes;
    if n == |before| + 1 {
      DecodeHistory(pre, before, EntryBytes(e) + rest);
      Regroup(pre, HistoryBytes(before), EntryBytes(e) + rest);
      LongNoteIsLost(pre + HistoryBytes(before), e, rest);
    } else {
      StopsAt(bytes, pre, before, e, rest, n - 1);
    }
  }
}
