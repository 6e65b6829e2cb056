/** The status of every append, and what it records, on the records' own fields and with
    the numbers of events, classes and outcomes spelled out. */
module Statuses {
  import opened Bytes
  import opened Apportion
  import opened Entries
  import opened Attribution
  import opened Aggregates
  import opened Moves
  import opened Ledger
  import opened Identity
  import opened Totals
  import opened Runs
  import opened Charges

  // ---------- what an entry can be refused for ----------

  predicate Malformed(e: Entry)
  {
    || e.id == 0 || e.event > 35 || e.classification > 5 || e.provenance > 7 || e.freshness > 5 || e.outcome > 4
    || (e.outcome != 0 && e.attempt.id == 0) || (e.account == 0 && e.shared.None?)
    || (e.shared.Some? && BadList(e.shared.value.participants))
  }

  predicate BadList(ps: seq<Participant>)
  {
    || |ps| > 4096 || (exists i :: 0 <= i < |ps| && (ps[i].account == 0 || ps[i].weight == 0))
    || Sum(Weights(ps)) > 0xFFFF_FFFF_FFFF_FFFF
  }

  predicate Consumes(e: Entry)
  {
    exists d :: 0 <= d < 16 && e.usage[d] != 0
  }

  /** Avoided work (3) and stranded capacity (4) consume nothing and carry their own
      quantity; the other classes carry neither. */
  predicate Contradictory(e: Entry)
  {
    || (e.classification == 3 && (Consumes(e) || e.avoidedWork.None?))
    || (e.classification == 4 && (Consumes(e) || e.strandedCapacity.None?))
    || (e.classification in {0, 1, 2, 5} && (e.avoidedWork.Some? || e.strandedCapacity.Some?))
  }

  /** USEFUL without publication, cache hit (16), reuse (18) or checkpoint restore (21). */
  predicate Unpublished(e: Entry)
  {
    && e.classification == 0 && e.avoidedWork.None? && e.strandedCapacity.None?
    && e.fences.publication == 0 && e.event !in {16, 18, 21}
  }

  predicate Late(st: AttemptState, e: Entry)
  {
    || (st.generation != 0 && e.attempt.generation != 0 && st.generation != e.attempt.generation)
    || (st.outcome != 0 && (e.outcome != 0 || e.event in {2, 3, 4, 30, 31, 32, 33}))
    || (e.fences.publication != 0 && st.lastPublication != 0 && e.fences.publication <= st.lastPublication)
  }

  predicate Stale(s: State, e: Entry)
  {
    || (e.fences.epoch != 0 && e.fences.epoch != s.auth.epoch)
    || (e.fences.ledgerGeneration != 0 && e.fences.ledgerGeneration != s.auth.ledgerGeneration)
    || (e.fences.accountGeneration != 0 && e.fences.accountGeneration != s.auth.accountGeneration)
    || (!s.auth.replaying && e.fences.workerBoot != 0 && e.fences.workerBoot !in s.auth.liveWorkers)
    || (e.attempt.id != 0 && e.attempt.id in s.book.attempts && Late(s.book.attempts[e.attempt.id], e))
  }

  /** Transfer completed (10), reservation released (15), allocation released (26),
      recovery completed (23) or failed (24), once already. */
  predicate Repeats(b: Book, e: Entry)
  {
    || (e.event == 10 && e.owners.transfer != 0 && e.owners.transfer in b.transfers)
    || (e.event == 15 && e.owners.reservation != 0 && e.owners.reservation in b.reservations)
    || (e.event == 26 && e.owners.allocation != 0 && e.owners.allocation in b.allocations)
    || ((e.event == 23 || e.event == 24) && e.owners.recovery != 0 && e.owners.recovery in b.recoveries)
  }

  /** Account `a` has room for its shares in dimension `d`. */
  predicate RoomFor(m: AccountMap, e: Entry, a: u64, d: nat)
    requires d < 16
  {
    var x := AccountIn(m, a);
    var amount := Sum(PhysicalTo(Split(e), a, d));
    && x.physical[d] as int + amount <= 0xFFFF_FFFF_FFFF_FFFF
    && x.avoided[d] as int + Sum(AvoidedTo(Split(e), a, d)) <= 0xFFFF_FFFF_FFFF_FFFF
    && x.stranded[d] as int + Sum(StrandedTo(Split(e), a, d)) <= 0xFFFF_FFFF_FFFF_FFFF
    && (e.classification == 0 ==> x.useful[d] as int + amount <= 0xFFFF_FFFF_FFFF_FFFF)
    && (e.classification == 1 ==> x.overhead[d] as int + amount <= 0xFFFF_FFFF_FFFF_FFFF)
    && (e.classification == 2 ==> x.waste[d] as int + amount <= 0xFFFF_FFFF_FFFF_FFFF)
    && (e.classification == 5 ==> x.unknown[d] as int + amount <= 0xFFFF_FFFF_FFFF_FFFF)
  }

  ghost predicate Overflows(m: AccountMap, e: Entry)
  {
    exists a: u64, d: nat :: d < 16 && !RoomFor(m, e, a, d)
  }

  // ---------- each refusal is the model's ----------

  lemma MalformedIsInvalid(e: Entry)
    ensures Malformed(e) <==> !e.Valid()
  {
    hide Weights;
    if e.shared.Some? {
      ListIsBad(e.shared.value);
    }
  }

  lemma ListIsBad(s: SharedRef)
    ensures BadList(s.participants) <==> !ValidShared(s)
  {
    if s.participants == [] {
      assert Weights(s.participants) == [];
    }
  }

  lemma InconsistentIff(e: Entry)
    requires e.classification <= 5
    ensures Consistency(e) == (if Contradictory(e) then InvalidInput else if Unpublished(e) then NotAuthoritative else Ok)
  {
    assert IsZero(e.usage) <==> !Consumes(e);
  }

  lemma StaleIff(s: State, e: Entry)
    ensures Stale(s, e) <==> !Authorized(s, e)
  {
  }

  lemma RepeatsIff(b: Book, e: Entry)
    ensures Repeats(b, e) <==> !GatesOpen(b, e)
  {
  }

  lemma OverflowsIff(m: AccountMap, e: Entry)
    ensures Overflows(m, e) <==> !Fits(m, PendingMap(e))
  {
    hide Split, AccountIn, FitsAt, Delta, PendingMap;
    forall a: u64, d: nat | d < 16
      ensures RoomFor(m, e, a, d) <==> forall f :: Cell(m, a, f, d) as int + Delta(e, a, f, d) <= MAX64
    {
      RoomIff(m, e, a, d);
    }
    forall a, f, d: nat | a in PendingMap(e) && d < 16
      ensures FitsAt(m, PendingMap(e), a, f, d) <==> Cell(m, a, f, d) as int + Delta(e, a, f, d) <= MAX64
    {
      FitsIff(m, e, a, f, d);
    }
    if Fits(m, PendingMap(e)) {
      forall a: u64, d: nat | d < 16 ensures RoomFor(m, e, a, d) {
        forall f ensures Cell(m, a, f, d) as int + Delta(e, a, f, d) <= MAX64 {
          if a in PendingMap(e) {
            assert FitsAt(m, PendingMap(e), a, f, d);
          } else {
            NothingForOthers(e, a, f, d);
          }
        }
      }
    }
    if !Overflows(m, e) {
      forall a, f, d: nat | a in PendingMap(e) && d < 16 ensures FitsAt(m, PendingMap(e), a, f, d) {
        assert RoomFor(m, e, a, d);
      }
    }
  }

  lemma FitsIff(m: AccountMap, e: Entry, a: u64, f: Field, d: nat)
    requires a in PendingMap(e) && d < 16
    ensures FitsAt(m, PendingMap(e), a, f, d) <==> Cell(m, a, f, d) as int + Delta(e, a, f, d) <= MAX64
  {
    hide Delta, PendingMap;
    PendingCell(e, a, f, d);
  }

  lemma NothingForOthers(e: Entry, a: u64, f: Field, d: nat)
    requires a !in PendingMap(e) && d < 16
    ensures Delta(e, a, f, d) == 0
  {
    hide Delta, PendingMap;
    PendingCell(e, a, f, d);
  }

  lemma RoomIff(m: AccountMap, e: Entry, a: u64, d: nat)
    requires d < 16
    ensures RoomFor(m, e, a, d) <==> forall f :: Cell(m, a, f, d) as int + Delta(e, a, f, d) <= MAX64
  {
    hide Split, AccountIn, Cell;
    RowsAreFields(m, a, d);
    ChargedIsSum(Split(e), a, d);
    var room := forall f :: Cell(m, a, f, d) as int + Delta(e, a, f, d) <= MAX64;
    if room {
      assert Cell(m, a, Quantity(Physical), d) as int + Delta(e, a, Quantity(Physical), d) <= MAX64;
      assert Cell(m, a, Quantity(Avoided), d) as int + Delta(e, a, Quantity(Avoided), d) <= MAX64;
      assert Cell(m, a, Quantity(Stranded), d) as int + Delta(e, a, Quantity(Stranded), d) <= MAX64;
      assert Cell(m, a, Bucket(Useful), d) as int + Delta(e, a, Bucket(Useful), d) <= MAX64;
      assert Cell(m, a, Bucket(Overhead), d) as int + Delta(e, a, Bucket(Overhead), d) <= MAX64;
      assert Cell(m, a, Bucket(Waste), d) as int + Delta(e, a, Bucket(Waste), d) <= MAX64;
      assert Cell(m, a, Bucket(Unknown), d) as int + Delta(e, a, Bucket(Unknown), d) <= MAX64;
    }
    if RoomFor(m, e, a, d) {
      forall f ensures Cell(m, a, f, d) as int + Delta(e, a, f, d) <= MAX64 {
        match f
        case Quantity(Physical) =>
        case Quantity(Avoided) =>
        case Quantity(Stranded) =>
        case Bucket(Useful) =>
        case Bucket(Overhead) =>
        case Bucket(Waste) =>
        case Bucket(Unknown) =>
      }
    }
  }

  // ---------- statuses ----------

  /** The status of every append of an ordinary entry: the first refusal that applies. */
  lemma OrdinaryStatus(s: State, e: Entry, order: seq<u64>)
    requires OrderFor(e, order) && e.event != 35
    ensures AppendLocked(s, e, order).1 ==
            if s.auth.shuttingDown then ShuttingDown
            else if Malformed(e) then InvalidInput
            else if e.id in s.book.index then DuplicateEntry
            else if Contradictory(e) then InvalidInput
            else if Unpublished(e) then NotAuthoritative
            else if Stale(s, e) then StaleAuthority
            else if Repeats(s.book, e) then DuplicateEntry
            else if Overflows(s.book.accounts, e) then OverflowError
            else Ok
  {
    hide Entry.Valid, Malformed, Contradictory, Unpublished, Stale, Repeats, Overflows, Consistency, Authorized,
         GatesOpen, CommitAll, Fits, AppendRevision;
    MalformedIsInvalid(e);
    StaleIff(s, e);
    RepeatsIff(s.book, e);
    OverflowsIff(s.book.accounts, e);
    assert PendingMap(e).Keys == ChargedAccounts(e);
    CommitSucceeds(s.book.accounts, PendingMap(e), order);
    if e.Valid() {
      ClassInRange(e);
      InconsistentIff(e);
    }
  }

  lemma ClassInRange(e: Entry)
    requires e.Valid()
    ensures e.classification <= 5
  {
  }

  /** In particular, an otherwise sound entry is refused as not authoritative exactly
      when it claims USEFUL with no publication and no reuse event. */
  lemma NotAuthoritativeIff(s: State, e: Entry, order: seq<u64>)
    requires OrderFor(e, order) && !s.auth.shuttingDown && e.Valid() && e.id !in s.book.index && e.event != 35
    ensures AppendLocked(s, e, order).1 == NotAuthoritative <==>
            && e.classification == 0 && e.avoidedWork.None? && e.strandedCapacity.None?
            && e.fences.publication == 0 && e.event !in {16, 18, 21}
  {
    hide AppendLocked, Entry.Valid, Malformed, Stale, Repeats, Overflows;
    OrdinaryStatus(s, e, order);
    MalformedIsInvalid(e);
  }

  /** And a completion signal on an attempt with an outcome is refused as stale. */
  lemma LateSignalIsStale(s: State, e: Entry, order: seq<u64>)
    requires OrderFor(e, order) && !s.auth.shuttingDown && e.Valid() && e.id !in s.book.index
    requires e.event in {2, 3, 4, 30, 31, 32, 33} && !Contradictory(e) && !Unpublished(e)
    requires e.attempt.id != 0 && e.attempt.id in s.book.attempts && s.book.attempts[e.attempt.id].outcome != 0
    ensures AppendLocked(s, e, order).1 == StaleAuthority
  {
    hide AppendLocked, Entry.Valid, Malformed, Contradictory, Unpublished, Repeats, Overflows;
    OrdinaryStatus(s, e, order);
    MalformedIsInvalid(e);
  }

  // ---------- revisions ----------

  /** The row a class number stands for. */
  function ClassRow(x: Aggregate, class_: Byte, d: nat): u64
    requires d < 16
  {
    if class_ == 0 then x.useful[d] else if class_ == 1 then x.overhead[d]
    else if class_ == 2 then x.waste[d] else x.unknown[d]
  }

  /** The row of the target's class does not hold what the revision takes from it: all
      the shares of the account, or one of them when the class stays. */
  predicate ShortOf(x: Aggregate, t: Entry, class_: Byte, a: u64, d: nat)
    requires d < 16
  {
    if t.classification != class_ then Sum(PhysicalTo(Split(t), a, d)) > ClassRow(x, t.classification, d)
    else exists i :: 0 <= i < |Split(t)| && Split(t)[i].account == a && Split(t)[i].physical[d] > ClassRow(x, t.classification, d)
  }

  ghost predicate Unbacked(m: AccountMap, t: Entry, class_: Byte)
  {
    exists a, d: nat :: a in m && d < 16 && ShortOf(m[a], t, class_, a, d)
  }

  lemma {:induction false} LargestAbove(s: seq<ShareOf>, a: u64, d: nat, v: nat)
    requires d < 16
    ensures Largest(s, a, d) > v <==> exists i :: 0 <= i < |s| && s[i].account == a && s[i].physical[d] > v
  {
    if s != [] {
      var n := |s| - 1;
      var p := s[..n];
      LargestAbove(p, a, d, v);
      if Largest(p, a, d) > v {
        var i :| 0 <= i < |p| && p[i].account == a && p[i].physical[d] > v;
        assert s[i] == p[i];
      }
      if exists i :: 0 <= i < |s| && s[i].account == a && s[i].physical[d] > v {
        var i :| 0 <= i < |s| && s[i].account == a && s[i].physical[d] > v;
        assert i < n ==> p[i] == s[i];
      }
    }
  }

  lemma ShortIff(m: AccountMap, t: Entry, class_: Byte, a: u64, d: nat)
    requires a in m && d < 16 && IsConsumption(t.classification) && IsConsumption(class_)
    ensures ShortOf(m[a], t, class_, a, d) <==> !BackedAt(m, ClassOf(t.classification), ClassOf(class_), Split(t), a, d)
  {
    hide Split;
    ChargedIsSum(Split(t), a, d);
    LargestAbove(Split(t), a, d, ClassRow(m[a], t.classification, d));
    assert m[a].At(Bucket(ClassOf(t.classification)), d) == ClassRow(m[a], t.classification, d);
    assert t.classification == class_ <==> ClassOf(t.classification) == ClassOf(class_);
  }

  lemma UnbackedIff(m: AccountMap, t: Entry, class_: Byte)
    requires IsConsumption(t.classification) && IsConsumption(class_)
    ensures Unbacked(m, t, class_) <==> !Backed(m, ClassOf(t.classification), ClassOf(class_), Split(t))
  {
    hide ShortOf, Split, BackedAt;
    forall a, d: nat | a in m && d < 16
      ensures ShortOf(m[a], t, class_, a, d) <==> !BackedAt(m, ClassOf(t.classification), ClassOf(class_), Split(t), a, d)
    {
      ShortIff(m, t, class_, a, d);
    }
  }

  /** The status of every append of a revision: the first refusal that applies. */
  lemma RevisionStatus(s: State, r: Entry, order: seq<u64>)
    requires r.event == 35 && AllWithin(s.book.accounts)
    requires forall id :: id in s.book.index ==> s.book.index[id] < |s.book.history|
    ensures OrderFor(r, order)
    ensures AppendLocked(s, r, order).1 ==
            if s.auth.shuttingDown then ShuttingDown
            else if Malformed(r) then InvalidInput
            else if r.id in s.book.index then DuplicateEntry
            else if Consumes(r) then InvalidInput
            else if Stale(s, r) then StaleAuthority
            else if r.target.None? || r.target.value !in s.book.index then InvalidInput
            else
              var t := s.book.history[s.book.index[r.target.value]];
              if (t.classification in {0, 1, 2, 5}) != (r.classification in {0, 1, 2, 5}) then InvalidInput
              else if r.classification in {0, 1, 2, 5} && Unbacked(s.book.accounts, t, r.classification) then ReconciliationFailure
              else Ok
  {
    hide Entry.Valid, Malformed, Stale, Authorized, Unbacked, Backed, AllWithin, MoveShares, AppendOrdinary, Split;
    MalformedIsInvalid(r);
    StaleIff(s, r);
    assert IsZero(r.usage) <==> !Consumes(r);
    if r.target.Some? && r.target.value in s.book.index {
      var t := s.book.history[s.book.index[r.target.value]];
      if IsConsumption(t.classification) && IsConsumption(r.classification) {
        UnbackedIff(s.book.accounts, t, r.classification);
        BackedMovesComplete(s.book.accounts, ClassOf(t.classification), ClassOf(r.classification), Split(t));
      }
    }
  }

  // ---------- what is recorded ----------

  function Greater(x: u64, y: u64): u64 { if x > y then x else y }

  /** History and index grow by the entry, the four gates by what it completes, and its
      attempt takes outcome and generation from an entry with an outcome and the newest
      publication from any. */
  lemma OrdinaryEffect(s: State, e: Entry, order: seq<u64>)
    requires OrderFor(e, order) && e.event != 35 && AppendLocked(s, e, order).1 == Ok
    ensures var b, b' := s.book, AppendLocked(s, e, order).0;
            && b'.history == b.history + [e] && b'.index == b.index[e.id := |b.history|]
            && b'.transfers == b.transfers + (if e.event == 10 && e.owners.transfer != 0 then {e.owners.transfer} else {})
            && b'.reservations == b.reservations + (if e.event == 15 && e.owners.reservation != 0 then {e.owners.reservation} else {})
            && b'.allocations == b.allocations + (if e.event == 26 && e.owners.allocation != 0 then {e.owners.allocation} else {})
            && b'.recoveries == b.recoveries + (if (e.event == 23 || e.event == 24) && e.owners.recovery != 0 then {e.owners.recovery} else {})
            && AttemptRecorded(b.attempts, e, b'.attempts)
  {
    hide AppendLocked, Admits, Added;
    AppendAccepts(s, e, order);
  }

  ghost predicate AttemptRecorded(before: map<u64, AttemptState>, e: Entry, after: map<u64, AttemptState>)
  {
    if e.attempt.id == 0 then after == before else
      var st := if e.attempt.id in before then before[e.attempt.id] else AttemptState(0, 0, 0, false);
      after == before[e.attempt.id := AttemptState(
        if e.outcome != 0 then e.outcome else st.outcome, if e.outcome != 0 then e.attempt.generation else st.generation,
        Greater(st.lastPublication, e.fences.publication), e.outcome != 0 || st.authoritative)]
  }

  /** A committed revision changes history, index and accounts only. */
  lemma RevisionEffect(s: State, r: Entry)
    requires r.event == 35 && AppendLocked(s, r, []).1 == Ok
    ensures var b, b' := s.book, AppendLocked(s, r, []).0;
            && b'.history == b.history + [r] && b'.index == b.index[r.id := |b.history|]
            && b' == b.(history := b'.history, index := b'.index, accounts := b'.accounts)
  {
    hide AppendLocked, Admits, AdmitsRevision, ApplyMoves;
    AppendAccepts(s, r, []);
  }

  /** A list of appends commits a prefix; the status is that of the first entry refused,
      and whatever that one left behind stays. */
  lemma {:induction false} ListStopsAtFirst(auth: Authority, b: Book, es: seq<Entry>, os: seq<seq<u64>>, n: nat) returns (k: nat)
    requires OrdersFor(es, os) && n <= |es|
    ensures k <= n && AppendMany(auth, b, es, os, k).1 == Ok && AppendMany(auth, b, es, os, k).0.history == b.history + es[..k]
    ensures AppendMany(auth, b, es, os, n).1 == Ok <==> k == n
    ensures k < n ==> AppendMany(auth, b, es, os, n) == AppendLocked(State(auth, AppendMany(auth, b, es, os, k).0), es[k], os[k])
  {
    hide AppendLocked;
    if AppendMany(auth, b, es, os, n).1 == Ok {
      k := n;
      ManyHistory(auth, b, es, os, n);
    } else {
      k := ListStopsAtFirst(auth, b, es, os, n - 1);
    }
  }

  // ---------- authority ----------

  /** A new ledger. */
  lemma FreshLedgerValues(id: u64)
    ensures var s := Initial(id);
            && s.auth.ledgerId == id && s.auth.epoch == 1 && s.auth.ledgerGeneration == 1 && s.auth.accountGeneration == 1
            && !s.auth.shuttingDown && !s.auth.replaying && !s.auth.epochAdvanced && s.auth.liveWorkers == {}
            && s.book.history == [] && s.book.index == map[] && s.book.accounts == map[] && s.book.attempts == map[]
            && s.book.transfers == {} && s.book.reservations == {} && s.book.allocations == {} && s.book.recoveries == {}
  {
  }

  /** What each operation on authority changes, and nothing else. */
  lemma AuthorityEffects(s: State, v: u64)
    ensures Step(s, RegisterWorker(v)).0 == if v == 0 then s else s.(auth := s.auth.(liveWorkers := s.auth.liveWorkers + {v}))
    ensures Step(s, UnregisterWorker(v)).0 == s.(auth := s.auth.(liveWorkers := s.auth.liveWorkers - {v}))
    ensures Step(s, AdvanceEpoch).0
         == s.(auth := s.auth.(epoch := if s.auth.epoch == 0xFFFF_FFFF_FFFF_FFFF then 0 else s.auth.epoch + 1, epochAdvanced := true))
    ensures Step(s, SetEpoch(v)).0 == s.(auth := s.auth.(epoch := v))
    ensures Step(s, SetLedgerGeneration(v)).0 == s.(auth := s.auth.(ledgerGeneration := v))
    ensures Step(s, SetAccountGeneration(v)).0 == s.(auth := s.auth.(accountGeneration := v))
    ensures Step(s, SetShuttingDown).0 == s.(auth := s.auth.(shuttingDown := true))
  {
    hide AppendLocked, AppendMany, LoadHistory;
  }

  /** The entry a reclassification request becomes: a revision that consumes nothing,
      owned by the target's account or the residual one, on the target's attempt. */
  lemma RequestBecomesRevision(b: Book, q: ReclassifyRequest)
    ensures var r := RevisionOf(b, q);
            && r.id == q.revisionId && r.event == 35 && r.classification == q.newClassification
            && r.subcategory == q.newSubcategory && r.provenance == q.provenance && r.fences == q.fences && r.note == q.note
            && r.target == Some(q.target) && !Consumes(r) && r.avoidedWork.None? && r.strandedCapacity.None? && r.shared.None?
            && r.freshness == 0 && r.outcome == 0 && r.owners == Owners(0, 0, 0, 0, 0, 0, 0, 0, 0, 0, 0)
    ensures var r := RevisionOf(b, q);
            if q.target in b.index && b.index[q.target] < |b.history| then
              var t := b.history[b.index[q.target]];
              r.attempt == t.attempt && r.account == if t.account != 0 then t.account else 0xFFFF_FFFF_FFFF_FFFF
            else r.attempt == Attempt(0, 0) && r.account == 0
  {
  }
}
