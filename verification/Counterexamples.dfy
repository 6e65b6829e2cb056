/** Short runs that show why the conditions in Limits.dfy, Runs.dfy and Replay.dfy
    are needed. Every entry here is owned by one account outright. */
module Counterexamples {
  import opened Bytes
  import opened Apportion
  import opened Entries
  import opened Attribution
  import opened Aggregates
  import opened Moves
  import opened Ledger
  import opened Identity
  import opened Totals
  import opened Runs
  import opened Replay
  import opened Image
  import opened Charges
  import opened Limits

  function Two(x: u64, y: u64): Dims
  {
    [x, y, 0, 0, 0, 0, 0, 0, 0, 0, 0, 0, 0, 0, 0, 0]
  }

  /** Consumption of unknown class by account 1. */
  function Consumed(id: u64, usage: Dims): Entry
  {
    BLANK.(id := id, account := 1, usage := usage)
  }

  /** A bare revision event. */
  function Revising(id: u64, target: u64, class_: Byte): Entry
  {
    BLANK.(id := id, event := RECLASSIFY, classification := class_, account := 1, target := Some(target))
  }

  // ---------- direct ownership ----------

  lemma DirectSplit(e: Entry)
    requires e.shared.None? && e.account != 0 && e.avoidedWork.None? && e.strandedCapacity.None?
    ensures Split(e) == [ShareOf(e.account, e.usage, ZERO, ZERO)]
  {
    hide Split;
    OwnedSplit(e);
    assert Split(e)[0].avoided == ZERO && Split(e)[0].stranded == ZERO;
  }

  lemma DirectDelta(e: Entry)
    requires e.shared.None? && e.account != 0 && e.avoidedWork.None? && e.strandedCapacity.None? && e.classification == UNKNOWN
    ensures ChargedAccounts(e) == {e.account}
    ensures forall f, d: nat :: d < DIMS ==>
              Delta(e, e.account, f, d) == if f == PHYSICAL || f == Bucket(Unknown) then e.usage[d] else 0
  {
    hide Split;
    DirectSplit(e);
    var s := Split(e);
    assert s[..0] == [];
    forall k, d: nat | d < DIMS ensures GivenTo(s, e.account, k, d) == s[0].Of(k)[d] {
      assert s[..|s| - 1] == [];
    }
  }

  /** Appending consumption to an open ledger. */
  lemma AppendConsumed(s: State, id: u64, usage: Dims)
    requires !s.auth.shuttingDown && id != 0 && id !in s.book.index && Sound(s.book)
    ensures OrderFor(Consumed(id, usage), [1])
    ensures var e := Consumed(id, usage);
            var (b, code) := AppendLocked(s, e, [1]);
            && (code == Ok || code == OverflowError)
            && (code == Ok <==> forall f, d: nat :: d < DIMS ==> Fills(s.book.accounts, usage, f, d) <= MAX64)
            && (code == Ok ==> Sound(b) && (Exact(s.book) ==> Exact(b)) && b == Logged(s.book.(accounts := b.accounts), e))
            && (code == Ok ==> 1 in b.accounts && forall f, d: nat :: d < DIMS ==> b.accounts[1].At(f, d) == Fills(s.book.accounts, usage, f, d))
  {
    hide AppendLocked, Split, Sound, Exact, Admits, Accepted, Fits, Added, Fills;
    var e := Consumed(id, usage);
    DirectDelta(e);
    AppendAccepts(s, e, [1]);
    AppendSound(s, e, [1]);
    ConsumedIsAdmitted(s.book, id, usage);
    ConsumedFits(s.book.accounts, id, usage);
    OnlyOverflow(s, id, usage);
    if AppendLocked(s, e, [1]).1 == Ok {
      if Exact(s.book) {
        CommitExact(s.book, e, AppendLocked(s, e, [1]).0);
      }
      ConsumedIsAdded(s.book, id, usage, AppendLocked(s, e, [1]).0);
    }
  }

  lemma ConsumedIsAdmitted(b: Book, id: u64, usage: Dims)
    requires id != 0 && id !in b.index
    ensures Admits(b, Consumed(id, usage)) <==> Fits(b.accounts, PendingMap(Consumed(id, usage)))
  {
    hide Fits, PendingMap, AdmitsRevision;
  }

  lemma OnlyOverflow(s: State, id: u64, usage: Dims)
    requires !s.auth.shuttingDown && id != 0 && id !in s.book.index && OrderFor(Consumed(id, usage), [1])
    ensures var code := AppendLocked(s, Consumed(id, usage), [1]).1; code == Ok || code == OverflowError
  {
    hide ApplyAttribution, Recorded, AppendRevision;
  }

  lemma ConsumedFits(m: AccountMap, id: u64, usage: Dims)
    ensures Fits(m, PendingMap(Consumed(id, usage)))
            <==> forall f, d: nat :: d < DIMS ==> Fills(m, usage, f, d) <= MAX64
  {
    hide Split;
    var e := Consumed(id, usage);
    DirectDelta(e);
    var pend := PendingMap(e);
    assert pend.Keys == {1};
    forall f, d: nat | d < DIMS ensures FitsAt(m, pend, 1, f, d) <==> Fills(m, usage, f, d) <= MAX64 { }
    if Fits(m, pend) {
      forall f, d: nat | d < DIMS ensures Fills(m, usage, f, d) <= MAX64 { assert FitsAt(m, pend, 1, f, d); }
    }
  }

  lemma ConsumedIsAdded(b: Book, id: u64, usage: Dims, b': Book)
    requires Accepted(b, Consumed(id, usage), b')
    ensures b' == Logged(b.(accounts := b'.accounts), Consumed(id, usage))
    ensures 1 in b'.accounts && forall f, d: nat :: d < DIMS ==> b'.accounts[1].At(f, d) == Fills(b.accounts, usage, f, d)
  {
    hide Split, AdmitsRevision;
    var e := Consumed(id, usage);
    DirectDelta(e);
    var pend := PendingMap(e);
    assert pend.Keys == {1};
    forall f, d: nat | d < DIMS ensures b'.accounts[1].At(f, d) == Fills(b.accounts, usage, f, d) {
      assert Cell(b'.accounts, 1, f, d) as int == Cell(b.accounts, 1, f, d) as int + Cell(pend, 1, f, d) as int;
    }
  }

  function Fills(m: AccountMap, usage: Dims, f: Field, d: nat): nat
    requires d < DIMS
  {
    Cell(m, 1, f, d) as int + if f == PHYSICAL || f == Bucket(Unknown) then usage[d] as int else 0
  }

  lemma DirectAsked(e: Entry, same: bool, a: u64, d: nat)
    requires e.shared.None? && e.account != 0 && e.avoidedWork.None? && e.strandedCapacity.None? && d < DIMS
    ensures Asked(Split(e), same, a, d) == if a == e.account then e.usage[d] else 0
  {
    hide Split;
    DirectSplit(e);
    var s := Split(e);
    assert s[..|s| - 1] == [] && s[|s| - 1].Of(Physical) == e.usage;
    assert GivenTo([], a, Physical, d) == 0 == Largest([], a, d);
  }

  /** Revising consumption of account 1 to another class, in a ledger that may have
      been through failures: it goes through exactly when the bucket holds it. */
  lemma ReviseConsumed(s: State, r: Entry, t: Entry)
    requires AllWithin(s.book.accounts) && Acceptable(s, r, t) && t == Consumed(t.id, t.usage) && 1 in s.book.accounts
    ensures var (b, code) := AppendLocked(s, r, []);
            && (code == Ok || code == ReconciliationFailure)
            && (code == Ok <==> forall d: nat :: d < DIMS ==> t.usage[d] <= s.book.accounts[1].At(Bucket(Unknown), d))
            && (code == Ok ==> b == Logged(s.book.(accounts := b.accounts), r) && 1 in b.accounts)
            && (code == Ok && r.classification != UNKNOWN ==> forall d: nat :: d < DIMS ==>
                  b.accounts[1].At(Bucket(Unknown), d) == s.book.accounts[1].At(Bucket(Unknown), d) - t.usage[d])
  {
    hide AppendLocked, Split, ApplyMoves, Authorized, Entry.Valid, Backed, AllWithin;
    RevisionFailsIff(s, r, t);
    ConsumedBackedIff(s.book.accounts, ClassOf(r.classification), t);
    RevisionCodes(s, r, t);
    if AppendLocked(s, r, []).1 == Ok {
      ConsumedMoves(s.book.accounts, r.classification, t);
    }
  }

  lemma RevisionCodes(s: State, r: Entry, t: Entry)
    requires Acceptable(s, r, t)
    ensures var (b, code) := AppendLocked(s, r, []);
            var (m, ok) := ApplyMoves(s.book.accounts, t, r.classification);
            && code == (if ok then Ok else ReconciliationFailure)
            && (ok ==> b == Logged(s.book.(accounts := m), r))
  {
    hide ApplyMoves, Authorized, Entry.Valid;
  }

  lemma ConsumedBackedIff(m: AccountMap, c: Class, t: Entry)
    requires 1 in m && t == Consumed(t.id, t.usage)
    ensures Backed(m, Unknown, c, Split(t)) <==> forall d: nat :: d < DIMS ==> t.usage[d] <= m[1].At(Bucket(Unknown), d)
  {
    hide Asked, Split;
    forall a, d: nat | a in m && d < DIMS
      ensures BackedAt(m, Unknown, c, Split(t), a, d) <==> (a == 1 ==> t.usage[d] <= m[1].At(Bucket(Unknown), d))
    {
      DirectAsked(t, Unknown == c, a, d);
    }
    if Backed(m, Unknown, c, Split(t)) {
      forall d: nat | d < DIMS ensures t.usage[d] <= m[1].At(Bucket(Unknown), d) {
        assert BackedAt(m, Unknown, c, Split(t), 1, d);
      }
    }
  }

  lemma ConsumedMoves(m: AccountMap, class_: Byte, t: Entry)
    requires IsConsumption(class_) && t == Consumed(t.id, t.usage) && 1 in m && ApplyMoves(m, t, class_).1
    ensures 1 in ApplyMoves(m, t, class_).0
    ensures class_ != UNKNOWN ==> forall d: nat :: d < DIMS ==>
              ApplyMoves(m, t, class_).0[1].At(Bucket(Unknown), d) == m[1].At(Bucket(Unknown), d) - t.usage[d]
  {
    hide MoveShares, Split;
    var sh := Split(t);
    CompletedMoves(m, Bucket(Unknown), Bucket(ClassOf(class_)), sh, |sh|);
    assert sh[..|sh|] == sh;
    var m' := ApplyMoves(m, t, class_).0;
    if class_ != UNKNOWN {
      forall d: nat | d < DIMS ensures m'[1].At(Bucket(Unknown), d) == m[1].At(Bucket(Unknown), d) - t.usage[d] {
        assert CellMoved(m, Bucket(Unknown), Bucket(ClassOf(class_)), sh, m', 1, Bucket(Unknown), d);
        DirectAsked(t, false, 1, d);
      }
    }
  }

  lemma FreshLedger(id: u64)
    ensures Sound(Initial(id).book) && Exact(Initial(id).book)
  {
    EmptyBookInvariants();
  }

  // ---------- an overflow leaves a partial commit ----------

  const FULL := Consumed(1, Two(0, MAX64))
  const SPILL := Consumed(2, Two(5, 1))

  /** Account 1 is full in the second dimension. Five units in the first dimension
      and one in the second are rejected, but the five stay on the account: the
      rejection had an effect and the accounts are no longer those of the history. */
  lemma OverflowLeavesPartialCommit(id: u64)
    ensures OrderFor(FULL, [1]) && OrderFor(SPILL, [1])
    ensures var (s1, first) := Step(Initial(id), Append(FULL, [1]));
            var (s2, second) := Step(s1, Append(SPILL, [1]));
            && first == Ok && Exact(s1.book) && second == OverflowError
            && s2.book != s1.book && s2.book.history == s1.book.history && !Exact(s2.book)
  {
    hide AppendLocked, Exact, Sound, LeavesNoMark;
    var s0 := Initial(id);
    FreshLedger(id);
    AppendConsumed(s0, 1, Two(0, MAX64));
    var s1 := Step(s0, Append(FULL, [1])).0;
    AppendConsumed(s1, 2, Two(5, 1));
    assert Fills(s1.book.accounts, Two(5, 1), PHYSICAL, 1) > MAX64;
    OverflowIsAtomicIff(s1, SPILL, [1]);
    SpillLeavesMark(s1.book.accounts);
    RejectionLeavesHistory(s1, SPILL, [1]);
    AppendSound(s1, SPILL, [1]);
    var b := AppendLocked(s1, SPILL, [1]).0;
    if Exact(b) {
      ExactIsUnique(b, s1.book);
    }
  }

  lemma SpillLeavesMark(m: AccountMap)
    requires 1 in m && m[1].At(PHYSICAL, 0) == 0
    ensures PendingMap(SPILL).Keys == {1} && !LeavesNoMark(m, PendingMap(SPILL), [1])
  {
    hide Split;
    DirectDelta(SPILL);
    var pend := PendingMap(SPILL);
    assert pend.Keys == {1};
    assert CellAt(pend[1], 0) == 5;
    assert !FullAt(m[1], pend[1], 0);
    forall k: nat, i: nat ensures !StopsUnmarked(m, pend, [1], k, i) { }
  }

  // ---------- a second revision breaks closure ----------

  const SMALL := Consumed(1, Two(5, 0))
  const LARGE := Consumed(2, Two(5, 7))
  const TO_WASTE := Revising(3, 2, WASTE)
  const AGAIN := Revising(4, 2, WASTE)

  /** Revising an entry that is already in another class takes its amounts out of the
      original bucket once more. The first dimension is paid for by someone else's
      consumption, the second is short, and the account no longer closes. */
  lemma SecondRevisionBreaksClosure(id: u64)
    ensures OrderFor(SMALL, [1]) && OrderFor(LARGE, [1])
    ensures var s1 := Step(Initial(id), Append(SMALL, [1])).0;
            var s2 := Step(s1, Append(LARGE, [1])).0;
            var (s3, first) := Step(s2, Append(TO_WASTE, []));
            var (s4, second) := Step(s3, Append(AGAIN, []));
            && first == Ok && AllClosed(s3.book.accounts)
            && second == ReconciliationFailure && !AllClosed(s4.book.accounts)
  {
    hide AppendLocked, Exact, Sound, AllClosed;
    var s2 := TwoConsumptions(id);
    RevisedToWaste(s2);
    var s3 := Step(s2, Append(TO_WASTE, [])).0;
    RevisedAgain(s3);
  }

  lemma TwoConsumptions(id: u64) returns (s2: State)
    ensures OrderFor(SMALL, [1]) && OrderFor(LARGE, [1])
    ensures s2 == Step(Step(Initial(id), Append(SMALL, [1])).0, Append(LARGE, [1])).0
    ensures s2.book.history == [SMALL, LARGE] && s2.book.index == map[1 := 0, 2 := 1] && s2.book.attempts == map[]
    ensures s2.auth == Initial(id).auth && AllClosed(s2.book.accounts)
    ensures 1 in s2.book.accounts && forall f, d: nat :: d < DIMS ==>
              s2.book.accounts[1].At(f, d) == if f == PHYSICAL || f == Bucket(Unknown) then Two(10, 7)[d] else 0
  {
    hide AppendLocked, Exact, Sound, AllClosed, Fills;
    var s0 := Initial(id);
    FreshLedger(id);
    AppendConsumed(s0, 1, Two(5, 0));
    FillsSmall();
    var s1 := State(s0.auth, AppendLocked(s0, SMALL, [1]).0);
    AppendConsumed(s1, 2, Two(5, 7));
    FillsLarge(s1.book.accounts);
    s2 := State(s1.auth, AppendLocked(s1, LARGE, [1]).0);
    SoundExactIsClosed(s2.book);
  }

  lemma FillsSmall()
    ensures forall f, d: nat :: d < DIMS ==> Fills(map[], Two(5, 0), f, d) == if f == PHYSICAL || f == Bucket(Unknown) then Two(5, 0)[d] else 0
  {
  }

  lemma FillsLarge(m: AccountMap)
    requires 1 in m && forall f, d: nat :: d < DIMS ==> m[1].At(f, d) == if f == PHYSICAL || f == Bucket(Unknown) then Two(5, 0)[d] else 0
    ensures forall f, d: nat :: d < DIMS ==> Fills(m, Two(5, 7), f, d) == if f == PHYSICAL || f == Bucket(Unknown) then Two(10, 7)[d] else 0
  {
  }

  lemma SoundExactIsClosed(b: Book)
    requires Sound(b) && Exact(b)
    ensures AllClosed(b.accounts)
  {
    hide Exact, AllClosed, WellFormed, Agrees, Disciplined;
    ExactIsClosed(b);
  }

  lemma RevisedToWaste(s: State)
    requires s.book.history == [SMALL, LARGE] && s.book.index == map[1 := 0, 2 := 1] && s.book.attempts == map[]
    requires !s.auth.shuttingDown && AllClosed(s.book.accounts)
    requires 1 in s.book.accounts && forall f, d: nat :: d < DIMS ==>
               s.book.accounts[1].At(f, d) == if f == PHYSICAL || f == Bucket(Unknown) then Two(10, 7)[d] else 0
    ensures var (b, code) := AppendLocked(s, TO_WASTE, []);
            && code == Ok && b == Logged(s.book.(accounts := b.accounts), TO_WASTE) && AllClosed(b.accounts)
            && 1 in b.accounts && b.accounts[1].At(Bucket(Unknown), 0) == 5 && b.accounts[1].At(Bucket(Unknown), 1) == 0
  {
    hide AppendLocked, Split, AllClosed, AllWithin;
    assert s.book.Find(2) == Some(LARGE);
    ClosedIsWithin(s.book.accounts);
    ReviseConsumed(s, TO_WASTE, LARGE);
    AppendKeepsClosed(s, TO_WASTE, []);
  }

  lemma RevisedAgain(s: State)
    requires s.book.history == [SMALL, LARGE, TO_WASTE] && s.book.index == map[1 := 0, 2 := 1, 3 := 2] && s.book.attempts == map[]
    requires !s.auth.shuttingDown && AllClosed(s.book.accounts)
    requires var m := s.book.accounts; 1 in m && m[1].At(Bucket(Unknown), 0) == 5 && m[1].At(Bucket(Unknown), 1) == 0
    ensures AppendLocked(s, AGAIN, []).1 == ReconciliationFailure
    ensures !AllClosed(AppendLocked(s, AGAIN, []).0.accounts)
  {
    hide AppendLocked, Split, MoveShares, AllClosed, AllWithin;
    var m := s.book.accounts;
    assert s.book.Find(2) == Some(LARGE);
    ClosedIsWithin(m);
    ReviseConsumed(s, AGAIN, LARGE);
    assert LARGE.usage[1] == 7;
    RevisionCodes(s, AGAIN, LARGE);
    FailureLeavesAccounts(s, AGAIN, LARGE);
    FailedMovesClosedIff(m, Unknown, Waste, Split(LARGE));
    NotStoppedClosed(m);
  }

  lemma FailureLeavesAccounts(s: State, r: Entry, t: Entry)
    requires Acceptable(s, r, t) && !ApplyMoves(s.book.accounts, t, r.classification).1
    ensures AppendLocked(s, r, []).0.accounts == ApplyMoves(s.book.accounts, t, r.classification).0
  {
    hide ApplyMoves, Authorized, Entry.Valid;
  }

  lemma NotStoppedClosed(m: AccountMap)
    requires 1 in m && m[1].At(Bucket(Unknown), 0) == 5
    ensures forall k: nat, d: nat :: !StopsClosed(m, Unknown, Waste, Split(LARGE), k, d)
  {
    hide Split;
    DirectSplit(LARGE);
    var sh := Split(LARGE);
    assert sh[..0] == [] && sh[0].physical[0] == 5;
    assert !ShortAt(m, Unknown, Waste, sh, 0, 0);
  }

  // ---------- outcomes carried by revisions ----------

  const STARTED := Consumed(1, ZERO).(attempt := Attempt(7, 0), event := 0)
  const FIRST_OUTCOME := Revising(2, 1, UNKNOWN).(attempt := Attempt(7, 0), outcome := 1)
  const SECOND_OUTCOME := Revising(3, 1, UNKNOWN).(attempt := Attempt(7, 0), outcome := 2)

  /** An attempt's outcome is recorded from ordinary entries only. Two revisions with
      different outcomes for one attempt are both committed, and it stays pending. */
  lemma RevisionOutcomesRepeat(id: u64)
    ensures OrderFor(STARTED, [1])
    ensures var s1 := Step(Initial(id), Append(STARTED, [1])).0;
            var (s2, first) := Step(s1, Append(FIRST_OUTCOME, []));
            var (s3, second) := Step(s2, Append(SECOND_OUTCOME, []));
            && first == Ok && second == Ok && s3.book.history == [STARTED, FIRST_OUTCOME, SECOND_OUTCOME]
            && 7 in s3.book.attempts && s3.book.attempts[7].outcome == PENDING
  {
    hide AppendLocked, AllClosed;
    var s1 := AttemptStarted(id);
    IdleRevision(s1, FIRST_OUTCOME);
    var s2 := Step(s1, Append(FIRST_OUTCOME, [])).0;
    IdleRevision(s2, SECOND_OUTCOME);
  }

  lemma AttemptStarted(id: u64) returns (s: State)
    ensures OrderFor(STARTED, [1]) && s == Step(Initial(id), Append(STARTED, [1])).0
    ensures s.auth == Initial(id).auth && s.book.history == [STARTED] && s.book.index == map[1 := 0]
    ensures s.book.attempts == map[7 := FRESH_ATTEMPT] && AllClosed(s.book.accounts)
  {
    hide AppendLocked, AllClosed, Admits, Accepted;
    DirectDelta(STARTED);
    var s0 := Initial(id);
    s := Step(s0, Append(STARTED, [1])).0;
    AppendAccepts(s0, STARTED, [1]);
    EmptyIsClosed();
    StartedIsAdmitted();
    AppendKeepsClosed(s0, STARTED, [1]);
    StartedIsRecorded(s.book);
  }

  lemma StartedIsAdmitted()
    ensures Admits(EMPTY_BOOK, STARTED)
  {
    hide Fits, PendingMap, AdmitsRevision;
    FitsNothing(STARTED);
  }

  lemma StartedIsRecorded(b: Book)
    requires Accepted(EMPTY_BOOK, STARTED, b)
    ensures b.history == [STARTED] && b.index == map[1 := 0] && b.attempts == map[7 := FRESH_ATTEMPT]
  {
    hide Added, Pass;
  }

  lemma EmptyIsClosed()
    ensures AllClosed(map[])
  {
  }

  lemma FitsNothing(e: Entry)
    ensures Fits(map[], PendingMap(e))
  {
    hide Split;
  }

  /** Revising an entry that consumed nothing always works. */
  lemma IdleRevision(s: State, r: Entry)
    requires r.IsRevision() && r.Valid() && r.target == Some(1) && s.book.Find(1) == Some(STARTED) && IsZero(r.usage)
    requires (r.classification == UNKNOWN || r.classification == USEFUL) && r.id !in s.book.index && !s.auth.shuttingDown && Authorized(s, r)
    requires AllClosed(s.book.accounts)
    ensures var (b, code) := AppendLocked(s, r, []);
            code == Ok && b == Logged(s.book.(accounts := b.accounts), r) && AllClosed(b.accounts)
  {
    hide AppendLocked, Split, ApplyMoves, AllClosed, AllWithin, Authorized, Entry.Valid, Backed;
    ClosedIsWithin(s.book.accounts);
    NothingIsBacked(s.book.accounts, ClassOf(r.classification));
    RevisionFailsIff(s, r, STARTED);
    RevisionCodes(s, r, STARTED);
    AppendKeepsClosed(s, r, []);
  }

  // ---------- useful without a publication ----------

  const TO_USEFUL := Revising(2, 1, USEFUL)

  /** A revision to USEFUL needs no authoritative publication or reuse: it does not
      pass through the consistency check of ordinary entries. */
  lemma RevisionToUsefulNeedsNoPublication(id: u64)
    ensures OrderFor(STARTED, [1])
    ensures var s1 := Step(Initial(id), Append(STARTED, [1])).0;
            var (s2, code) := Step(s1, Append(TO_USEFUL, []));
            && code == Ok && s2.book.history == [STARTED, TO_USEFUL] && !IsAuthoritativeUse(TO_USEFUL)
  {
    hide AppendLocked, AllClosed;
    var s1 := AttemptStarted(id);
    IdleRevision(s1, TO_USEFUL);
  }

  lemma NothingIsBacked(m: AccountMap, c: Class)
    ensures Backed(m, Unknown, c, Split(STARTED))
  {
    hide Split, Asked;
    forall a, d: nat | a in m && d < DIMS ensures BackedAt(m, Unknown, c, Split(STARTED), a, d) {
      DirectAsked(STARTED, Unknown == c, a, d);
    }
  }

  // ---------- committed live, refused at replay ----------

  const LATE := Consumed(3, Two(5, 0))
  const PAID := Revising(4, 3, WASTE)
  const UNPAID := Revising(5, 3, WASTE)
  const REFUSED := [FULL, LATE, PAID, UNPAID]

  /** What the overflow of SPILL left on the account pays for a second revision of
      LATE. Every append after it is committed; but replay starts without the leftover,
      so the committed history is refused by every ledger, and the saved image by every
      load. No fence is set, no note is long and nothing is shut down. */
  lemma LeftoverPaysForRevision(id: u64)
    ensures OrderFor(FULL, [1]) && OrderFor(SPILL, [1]) && OrderFor(LATE, [1])
    ensures var s1 := Step(Initial(id), Append(FULL, [1])).0;
            var (s2, spilled) := Step(s1, Append(SPILL, [1]));
            var (s3, late) := Step(s2, Append(LATE, [1]));
            var (s4, paid) := Step(s3, Append(PAID, []));
            var (s5, unpaid) := Step(s4, Append(UNPAID, []));
            && spilled == OverflowError && late == Ok && paid == Ok && unpaid == Ok
            && s5.book.history == REFUSED && FencesMatch(s5.auth, REFUSED) && !Replayable(REFUSED)
            && (forall s, orders :: OrdersFor(REFUSED, orders) ==> LoadHistory(s, REFUSED, orders).1 != Ok)
            && (forall into, orders :: OrdersForImage(SaveImage(s5), orders)
                  ==> LoadImage(into, SaveImage(s5), orders).1 == PersistenceCorrupt)
  {
    hide AppendLocked, Sound, Grounded, Replayable, SaveImage, LoadImage, LoadHistory, OrdersForImage, OrdersFor, FencesMatch;
    var s3 := AfterLate(id);
    RevisedBelow(s3, PAID, 10);
    var s4 := Step(s3, Append(PAID, [])).0;
    RevisedBelow(s4, UNPAID, 5);
    var s5 := Step(s4, Append(UNPAID, [])).0;
    assert s5.book.history == REFUSED;
    RefusedIsNotReplayable();
    NoFencesMatch(s5.auth);
    forall s: State, orders | OrdersFor(REFUSED, orders) ensures LoadHistory(s, REFUSED, orders).1 != Ok {
      RefusedByReplay(s5.book, s, orders);
    }
    forall into, orders | OrdersForImage(SaveImage(s5), orders) ensures LoadImage(into, SaveImage(s5), orders).1 == PersistenceCorrupt {
      RefusedByLoad(s5, into, orders);
    }
  }

  /** What the run is about: account 1 and the committed history. */
  ghost predicate Reached(s: State, id: u64, h: seq<Entry>, index: map<u64, nat>)
  {
    && s.auth == Initial(id).auth && s.book.history == h && s.book.index == index && s.book.attempts == map[]
    && Sound(s.book) && Grounded(s.book) && 1 in s.book.accounts
  }

  lemma AfterLate(id: u64) returns (s3: State)
    ensures OrderFor(FULL, [1]) && OrderFor(SPILL, [1]) && OrderFor(LATE, [1])
    ensures var s1 := Step(Initial(id), Append(FULL, [1])).0;
            var (s2, spilled) := Step(s1, Append(SPILL, [1]));
            spilled == OverflowError && Step(s2, Append(LATE, [1])) == (s3, Ok)
    ensures Reached(s3, id, [FULL, LATE], map[1 := 0, 3 := 1]) && s3.book.accounts[1].At(Bucket(Unknown), 0) == 10
  {
    hide AppendLocked, Sound, Grounded, Exact;
    var s2 := AfterSpill(id);
    AppendConsumed(s2, 3, Two(5, 0));
    AppendGrounded(s2, LATE, [1]);
    LateFits(s2.book.accounts);
    s3 := Step(s2, Append(LATE, [1])).0;
  }

  lemma LateFits(m: AccountMap)
    requires 1 in m && m[1].At(PHYSICAL, 0) == 5 && m[1].At(Bucket(Unknown), 0) == 5
    ensures forall f, d: nat :: d < DIMS ==> Fills(m, Two(5, 0), f, d) <= MAX64
    ensures Fills(m, Two(5, 0), Bucket(Unknown), 0) == 10
  {
  }

  lemma AfterSpill(id: u64) returns (s2: State)
    ensures OrderFor(FULL, [1]) && OrderFor(SPILL, [1])
    ensures var s1 := Step(Initial(id), Append(FULL, [1])).0;
            Step(s1, Append(SPILL, [1])) == (s2, OverflowError)
    ensures Reached(s2, id, [FULL], map[1 := 0])
    ensures s2.book.accounts[1].At(PHYSICAL, 0) == 5 && s2.book.accounts[1].At(Bucket(Unknown), 0) == 5
  {
    hide AppendLocked, Sound, Grounded, Exact;
    var s0 := Initial(id);
    FreshLedger(id);
    EmptyBookInvariants();
    AppendConsumed(s0, 1, Two(0, MAX64));
    AppendGrounded(s0, FULL, [1]);
    var s1 := Step(s0, Append(FULL, [1])).0;
    AppendConsumed(s1, 2, Two(5, 1));
    assert Fills(s1.book.accounts, Two(5, 1), PHYSICAL, 1) > MAX64;
    RejectionLeavesHistory(s1, SPILL, [1]);
    AppendSound(s1, SPILL, [1]);
    AppendGrounded(s1, SPILL, [1]);
    SpillLeavesFive(s1);
    s2 := Step(s1, Append(SPILL, [1])).0;
  }

  lemma SpillLeavesFive(s: State)
    requires OrderFor(SPILL, [1]) && AppendLocked(s, SPILL, [1]).1 == OverflowError && 1 in s.book.accounts
    requires RowsAre(s.book.accounts[1], Two(0, MAX64))
    ensures var m := AppendLocked(s, SPILL, [1]).0.accounts;
            1 in m && m[1].At(PHYSICAL, 0) == 5 && m[1].At(Bucket(Unknown), 0) == 5
  {
    hide Split, Entry.Valid, Authorized, Commit;
    DirectDelta(SPILL);
    var m, pend := s.book.accounts, PendingMap(SPILL);
    assert CommitAll(m, pend, [1], 1) == CommitAccount(m, pend, 1) by { assert CommitAll(m, pend, [1], 0) == (m, true); }
    SpillStops(m[1], pend[1]);
  }

  /** The rows of consumption of unknown class. */
  ghost predicate RowsAre(x: Aggregate, u: Dims)
  {
    forall f, d: nat :: d < DIMS ==> x.At(f, d) == if f == PHYSICAL || f == Bucket(Unknown) then u[d] else 0
  }

  lemma SpillFits(x: Aggregate, add: Aggregate, i: nat)
    requires RowsAre(x, Two(0, MAX64)) && RowsAre(add, Two(5, 1)) && i <= 7
    ensures FullAt(x, add, i) <==> i == 7
  {
    assert x.At(FIELDS[i % 7], i / 7) == if i == 7 then MAX64 else 0;
    assert i < 7 ==> i / 7 == 0;
  }

  lemma SpillStops(x: Aggregate, add: Aggregate)
    requires RowsAre(x, Two(0, MAX64)) && RowsAre(add, Two(5, 1))
    ensures var y := Commit(x, add).0; y.At(PHYSICAL, 0) == 5 && y.At(Bucket(Unknown), 0) == 5
  {
    hide CommitCells, RowsAre, FullAt, AddedUpTo;
    var n := CommitShape(x, add, 7 * DIMS);
    SpillFits(x, add, 7);
    NeverPastFull(x, add, Commit(x, add).0, n, 7);
    SpillFits(x, add, n);
    FiveAdded(x, add, Commit(x, add).0);
  }

  lemma FiveAdded(x: Aggregate, add: Aggregate, y: Aggregate)
    requires RowsAre(x, Two(0, MAX64)) && RowsAre(add, Two(5, 1)) && AddedUpTo(x, add, y, 7)
    ensures y.At(PHYSICAL, 0) == 5 && y.At(Bucket(Unknown), 0) == 5
  {
    assert Place(PHYSICAL, 0) == 0 && Place(Bucket(Unknown), 0) == 6;
    assert x.At(PHYSICAL, 0) == 0 && x.At(Bucket(Unknown), 0) == 0 && add.At(PHYSICAL, 0) == 5 && add.At(Bucket(Unknown), 0) == 5;
  }

  lemma RevisedBelow(s: State, r: Entry, held: u64)
    requires s.book.Find(3) == Some(LATE) && s.book.index.Keys <= {1, 3, 4} && r.id !in s.book.index && s.book.attempts == map[]
    requires !s.auth.shuttingDown && Sound(s.book) && Grounded(s.book) && 1 in s.book.accounts
    requires r == PAID || r == UNPAID
    requires held >= 5 && s.book.accounts[1].At(Bucket(Unknown), 0) == held
    ensures var (b, code) := AppendLocked(s, r, []);
            && code == Ok && b == Logged(s.book.(accounts := b.accounts), r) && Sound(b) && Grounded(b)
            && 1 in b.accounts && b.accounts[1].At(Bucket(Unknown), 0) == held - 5
  {
    hide AppendLocked, Sound, Surplus, AllWithin;
    ReviseConsumed(s, r, LATE);
    AppendSound(s, r, []);
    AppendGrounded(s, r, []);
  }

  /** In the recomputation the first revision has already taken the five units. */
  lemma RefusedIsNotReplayable()
    ensures !Replayable(REFUSED)
  {
    hide Split, Expected, Delta;
    var p := [FULL, LATE, PAID];
    assert REFUSED[..3] == p && REFUSED[3] == UNPAID;
    TargetIsLate();
    DirectAsked(LATE, false, 1, 0);
    NothingLeftToMove();
    assert !PaidFor(p, UNPAID, 1, 0);
  }

  lemma TargetIsLate()
    ensures TargetIn([FULL, LATE], PAID) == Some(LATE) == TargetIn([FULL, LATE, PAID], UNPAID)
  {
    var p := [FULL, LATE, PAID];
    assert p[..2] == [FULL, LATE] && p[2] == PAID;
    assert Lookup([FULL, LATE], 3) == Some(LATE);
    assert Lookup(p, 3) == Lookup(p[..2], 3);
  }

  lemma NothingLeftToMove()
    ensures Expected([FULL, LATE, PAID], Bucket(Unknown), 1, 0) == 0
  {
    hide Split, Expected, Delta;
    var f := Bucket(Unknown);
    assert Expected([], f, 1, 0) == 0 by { NothingExpected(Unknown, 1, 0); }
    DirectDelta(FULL);
    DirectDelta(LATE);
    DirectAsked(LATE, false, 1, 0);
    TargetIsLate();
    assert [] + [FULL] == [FULL] && [FULL] + [LATE] == [FULL, LATE] && [FULL, LATE] + [PAID] == [FULL, LATE, PAID];
    ExpectedStep([], FULL, f, 1, 0);
    ExpectedStep([FULL], LATE, f, 1, 0);
    ExpectedStep([FULL, LATE], PAID, f, 1, 0);
  }

  lemma NoFencesMatch(auth: Authority)
    ensures FencesMatch(auth, REFUSED)
  {
  }

  lemma RefusedByReplay(live: Book, s: State, orders: seq<seq<u64>>)
    requires Sound(live) && Grounded(live) && live.history == REFUSED && !Replayable(REFUSED)
    requires OrdersFor(REFUSED, orders)
    ensures LoadHistory(s, REFUSED, orders).1 != Ok
  {
    hide Sound, Grounded, Replayable, LoadHistory, OrdersFor, Rebuilt, FencesMatch;
    ReplayRebuilds(live, s, orders);
  }

  lemma RefusedByLoad(s: State, into: State, orders: seq<seq<u64>>)
    requires Sound(s.book) && Grounded(s.book) && s.book.history == REFUSED && !Replayable(REFUSED)
    requires OrdersForImage(SaveImage(s), orders)
    ensures LoadImage(into, SaveImage(s), orders).1 == PersistenceCorrupt
  {
    hide Sound, Grounded, Replayable, SaveImage, OrdersForImage, FencesMatch, LoadHistory, Restored;
    SaveThenLoad(s, into, orders);
  }
}
