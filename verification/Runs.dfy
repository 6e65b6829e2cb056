/** Whole runs of the ledger: every sequence of public operations, from a fresh
    ledger, including failed ones, and what holds in every state they reach. */
module Runs {
  import opened Bytes
  import opened Entries
  import opened Attribution
  import opened Aggregates
  import opened Moves
  import opened Ledger
  import opened Identity
  import opened Totals

  /** The authority values a saved image carries. */
  datatype Header = Header(ledgerId: u64, epoch: u64, ledgerGeneration: u64, accountGeneration: u64)

  datatype Op =
    | Append(entry: Entry, order: seq<u64>)
    | AppendAll(entries: seq<Entry>, orders: seq<seq<u64>>)
    | Reclassify(request: ReclassifyRequest)
    | RegisterWorker(boot: u64)
    | UnregisterWorker(boot: u64)
    | AdvanceEpoch
    | SetEpoch(value: u64)
    | SetLedgerGeneration(value: u64)
    | SetAccountGeneration(value: u64)
    | SetShuttingDown
    | Load(entries: seq<Entry>, orders: seq<seq<u64>>)
    | Restore(header: Header, entries: seq<Entry>, orders: seq<seq<u64>>)
  {
    /** The hash-table orders fit the entries. */
    ghost predicate Valid()
    {
      match this
      case Append(e, o) => OrderFor(e, o)
      case AppendAll(es, os) => OrdersFor(es, os)
      case Load(es, os) => OrdersFor(es, os)
      case Restore(_, es, os) => OrdersFor(es, os)
      case _ => true
    }
  }

  type Run = ops: seq<Op> | forall i :: 0 <= i < |ops| ==> ops[i].Valid()

  function Adopt(auth: Authority, h: Header): Authority
  {
    auth.(ledgerId := h.ledgerId, epoch := h.epoch, ledgerGeneration := h.ledgerGeneration,
          accountGeneration := h.accountGeneration, shuttingDown := false, epochAdvanced := false)
  }

  function HeaderOf(auth: Authority): Header
  {
    Header(auth.ledgerId, auth.epoch, auth.ledgerGeneration, auth.accountGeneration)
  }

  /** The operations that only touch authority. */
  function Governed(auth: Authority, op: Op): Authority
  {
    match op
    case RegisterWorker(w) => if w != 0 then auth.(liveWorkers := auth.liveWorkers + {w}) else auth
    case UnregisterWorker(w) => auth.(liveWorkers := auth.liveWorkers - {w})
    case AdvanceEpoch => auth.(epoch := (auth.epoch + 1) % MODULUS, epochAdvanced := true)
    case SetEpoch(v) => auth.(epoch := v)
    case SetLedgerGeneration(v) => auth.(ledgerGeneration := v)
    case SetAccountGeneration(v) => auth.(accountGeneration := v)
    case SetShuttingDown => auth.(shuttingDown := true)
    case _ => auth
  }

  /** The state after an operation and the status of the append inside it, if any.
      `Restore` is `load_from_string` once the bytes have been parsed. */
  ghost function Step(s: State, op: Op): (State, Code)
    requires op.Valid()
  {
    match op
    case Append(e, o) => var (b, c) := AppendLocked(s, e, o); (State(s.auth, b), c)
    case AppendAll(es, os) => var (b, c) := AppendMany(s.auth, s.book, es, os, |es|); (State(s.auth, b), c)
    case Reclassify(q) => var (b, c) := AppendLocked(s, RevisionOf(s.book, q), []); (State(s.auth, b), c)
    case Load(es, os) => LoadHistory(s, es, os)
    case Restore(h, es, os) => LoadHistory(s.(auth := Adopt(s.auth, h)), es, os)
    case _ => (s.(auth := Governed(s.auth, op)), Ok)
  }

  ghost function After(s: State, ops: Run): State
  {
    if ops == [] then s else Step(After(s, ops[..|ops| - 1]), ops[|ops| - 1]).0
  }

  // ---------- conditions on runs ----------

  predicate PartialFailure(c: Code)
  {
    c == OverflowError || c == ReconciliationFailure
  }

  /** No append of the run stopped midway through the accounts. */
  ghost predicate NoPartialFailure(s: State, ops: Run)
  {
    forall i :: 0 <= i < |ops| ==> !PartialFailure(Step(After(s, ops[..i]), ops[i]).1)
  }

  /** The entries an operation offers to the ledger, on top of what it keeps. */
  function Offered(s: State, op: Op): seq<Entry>
  {
    match op
    case Append(e, _) => s.book.history + [e]
    case AppendAll(es, _) => s.book.history + es
    case Reclassify(q) => s.book.history + [RevisionOf(s.book, q)]
    case Load(es, _) => es
    case Restore(_, es, _) => es
    case _ => s.book.history
  }

  /** No operation of the run offers a revision of an entry already revised. */
  ghost predicate NeverRevisedTwice(s: State, ops: Run)
  {
    forall i :: 0 <= i < |ops| ==> RevisedOnce(Offered(After(s, ops[..i]), ops[i]))
  }

  // ---------- state invariants ----------

  /** Identity structures agree with a well-formed, disciplined history. */
  ghost predicate Sound(b: Book)
  {
    Agrees(b) && Disciplined(b.history) && WellFormed(b.history)
  }

  ghost predicate Clean(b: Book)
  {
    Sound(b) && Exact(b) && Replayable(b.history)
  }

  ghost predicate Covered(b: Book)
  {
    Sound(b) && Covers(b) && AllClosed(b.accounts) && RevisedOnce(b.history)
  }

  /** What no failure can undo: class buckets never exceed physical consumption, and
      physical, avoided and stranded totals are never below the recomputation. */
  ghost predicate Grounded(b: Book)
  {
    AllWithin(b.accounts) && forall a, k, d: nat :: d < DIMS ==> Surplus(b, Quantity(k), a, d) >= 0
  }

  lemma EmptyBookInvariants()
    ensures Clean(EMPTY_BOOK) && Covered(EMPTY_BOOK) && Grounded(EMPTY_BOOK)
  {
    EmptyAgrees();
    assert AccountsOf([]) == {};
    forall a, f, d: nat | d < DIMS ensures Surplus(EMPTY_BOOK, f, a, d) == 0 { }
  }

  lemma ExactIsGrounded(b: Book)
    requires Exact(b) && WellFormed(b.history)
    ensures Grounded(b)
  {
    hide Surplus, WellFormed, AllClosed, AllWithin;
    ExactIsClosed(b);
    ClosedIsWithin(b.accounts);
  }

  lemma CoveredIsGrounded(b: Book)
    requires Covers(b) && AllClosed(b.accounts)
    ensures Grounded(b)
  {
    hide Surplus, AllClosed, AllWithin;
    ClosedIsWithin(b.accounts);
  }

  // ---------- one append ----------

  /** Every append, accepted or not, keeps the identity invariants. */
  lemma AppendSound(s: State, e: Entry, order: seq<u64>)
    requires OrderFor(e, order) && Sound(s.book)
    ensures Sound(AppendLocked(s, e, order).0)
  {
    hide AppendLocked, Agrees, Disciplined, WellFormed, Admits, Accepted, WellPlaced;
    var (b, code) := AppendLocked(s, e, order);
    AppendAccepts(s, e, order);
    if code == Ok {
      CommitAgrees(s.book, e, b);
      SoundParts(s.book);
      AcceptedIsWellPlaced(s.book, e, b);
      WellFormedStep(s.book.history, e);
    } else {
      RejectionLeavesHistory(s, e, order);
      AccountsDoNotMatter(s.book, b);
    }
  }

  lemma SoundParts(b: Book)
    requires Agrees(b)
    ensures IndexAgrees(b) && DistinctIds(b.history)
  {
    IndexMeansDistinct(b);
  }

  lemma AccountsDoNotMatter(b: Book, c: Book)
    requires Agrees(b) && c == b.(accounts := c.accounts)
    ensures Agrees(c)
  {
    forall g ensures GateAgrees(c, g) { assert GateAgrees(b, g) && c.Passed(g) == b.Passed(g); }
    forall a: u64 | a != 0 ensures AttemptAgrees(c, a) { assert AttemptAgrees(b, a); }
  }

  /** An exact book is determined by its history. */
  lemma ExactIsUnique(b: Book, c: Book)
    requires Sound(b) && Exact(b) && Sound(c) && Exact(c) && b.history == c.history
    ensures b == c
  {
    hide Agrees, Exact;
    HistoryDetermines(b, c);
    SameAccounts(b, c);
  }

  /** Appends that do not stop midway keep the accounts exact and the history replayable. */
  lemma AppendClean(s: State, e: Entry, order: seq<u64>)
    requires OrderFor(e, order) && Clean(s.book) && !PartialFailure(AppendLocked(s, e, order).1)
    ensures Clean(AppendLocked(s, e, order).0)
  {
    hide AppendLocked, Sound, Exact, Admits, Accepted, Replayable, Paid;
    var (b, code) := AppendLocked(s, e, order);
    AppendSound(s, e, order);
    AppendAccepts(s, e, order);
    if code == Ok {
      CommitExact(s.book, e, b);
      AdmittedIsPaid(s.book, e);
      AcceptedHistory(s.book, e, b);
      ReplayableStep(s.book.history, e);
    } else {
      RejectionLeavesHistory(s, e, order);
    }
  }

  lemma AcceptedHistory(b: Book, e: Entry, b': Book)
    requires Accepted(b, e, b')
    ensures b'.history == b.history + [e]
  {
    hide AdmitsRevision, Added, ApplyMoves, RecordAttempt, Pass;
  }

  lemma CommitExact(b: Book, e: Entry, b': Book)
    requires Sound(b) && Exact(b) && Accepted(b, e, b')
    ensures Exact(b')
  {
    hide Accepted, Surplus, AccountsOf, WellFormed, Disciplined;
    SoundParts(b);
    CommitKeepsSurplus(b, e, b');
  }

  lemma AdmittedIsPaid(b: Book, e: Entry)
    requires Sound(b) && Exact(b) && Admits(b, e)
    ensures Paid(b.history, e)
  {
    hide Agrees, Disciplined, WellFormed, Exact, Entry.Valid, AttemptOpen, MoveShares, Split, Backed, AdmitsOrdinary;
    if MovesAmounts(b.history, e) {
      SoundParts(b);
      TargetFound(b, e);
      ExactIsClosed(b);
      ClosedIsWithin(b.accounts);
      var t := TargetIn(b.history, e).value;
      BackedMovesComplete(b.accounts, ClassOf(t.classification), ClassOf(e.classification), Split(t));
      BackedIsPaid(b, e);
    }
  }

  // ---------- closure ----------

  lemma PendingCloses(e: Entry)
    requires Consistency(e) == Ok && e.Valid()
    ensures AllClosed(PendingMap(e)) && forall a :: a in PendingMap(e) ==> OneSided(PendingMap(e)[a])
  {
    forall a | a in PendingMap(e) ensures PendingMap(e)[a].Closed() && OneSided(PendingMap(e)[a]) {
      var x := Pending(e, a);
      forall d: nat | d < DIMS ensures x.ClosedAt(d) { OrdinaryDeltaCloses(e, a, d); }
      if IsConsumption(e.classification) {
        forall d: nat | d < DIMS ensures x.At(Quantity(Avoided), d) == 0 && x.At(Quantity(Stranded), d) == 0 {
          ZeroCharges(e, a, Avoided, d);
          ZeroCharges(e, a, Stranded, d);
        }
      } else {
        forall d: nat | d < DIMS ensures x.At(PHYSICAL, d) == 0 { ZeroCharges(e, a, Physical, d); }
      }
    }
  }

  /** Per-account closure is preserved by every append, also by one that overflows
      after committing some accounts or dimensions; only a revision that fails in its
      bucket moves can break it. */
  lemma AppendKeepsClosed(s: State, e: Entry, order: seq<u64>)
    requires OrderFor(e, order) && AllClosed(s.book.accounts)
    requires AppendLocked(s, e, order).1 != ReconciliationFailure
    ensures AllClosed(AppendLocked(s, e, order).0.accounts)
  {
    hide Entry.Valid, AllClosed, CommitAll, MoveShares, Authorized, GatesOpen, Consistency, Split;
    if !e.IsRevision() {
      if e.Valid() && Consistency(e) == Ok {
        PendingCloses(e);
        assert PendingMap(e).Keys == ChargedAccounts(e);
        CommitAllKeepsClosed(s.book.accounts, PendingMap(e), order, |order|);
      }
    } else if e.target.Some? && s.book.Find(e.target.value).Some? {
      var t := s.book.Find(e.target.value).value;
      if IsConsumption(t.classification) && IsConsumption(e.classification) {
        if ApplyMoves(s.book.accounts, t, e.classification).1 {
          MovesKeepClosed(s.book.accounts, ClassOf(t.classification), ClassOf(e.classification), Split(t), |Split(t)|);
        }
      }
    }
  }

  /** A revision, whatever its outcome, leaves the physical, avoided and stranded
      totals of every account as they were and opens or drops no account. */
  lemma RevisionKeepsPhysical(s: State, e: Entry, k: Kind, a: u64, d: nat)
    requires e.IsRevision() && d < DIMS
    ensures AppendLocked(s, e, []).0.accounts.Keys == s.book.accounts.Keys
    ensures Cell(AppendLocked(s, e, []).0.accounts, a, Quantity(k), d) == Cell(s.book.accounts, a, Quantity(k), d)
  {
    hide Entry.Valid, MoveShares, Authorized, Split;
    if e.target.Some? && s.book.Find(e.target.value).Some? {
      var t := s.book.Find(e.target.value).value;
      if IsConsumption(t.classification) && IsConsumption(e.classification) {
        MovesTouchOnlyBuckets(s.book.accounts, Bucket(ClassOf(t.classification)), Bucket(ClassOf(e.classification)), Split(t), |Split(t)|);
      }
    }
  }

  // ---------- runs in which nothing is revised twice ----------

  lemma {:induction false} RevisedOncePrefix(h: seq<Entry>, n: nat)
    requires RevisedOnce(h) && n <= |h|
    ensures RevisedOnce(h[..n])
  {
  }

  /** A first revision of a committed entry never fails in its bucket moves, even if
      participants repeat an account or earlier appends overflowed midway. */
  lemma FirstRevisionNeverFails(s: State, e: Entry)
    requires Covered(s.book) && e.IsRevision() && RevisedOnce(s.book.history + [e])
    ensures AppendLocked(s, e, []).1 != ReconciliationFailure
  {
    hide Entry.Valid, ApplyMoves, Authorized, Agrees, Replayable, Covers, AllClosed, WellFormed, Disciplined, RevisedOnce, Paid;
    if e.target.Some? {
      SoundParts(s.book);
      TargetFound(s.book, e);
      if MovesAmounts(s.book.history, e) {
        FirstIsPaid(s.book.history, e);
        ClosedIsWithin(s.book.accounts);
        PaidGoesThrough(s.book, e);
      }
    }
  }

  lemma FirstIsPaid(p: seq<Entry>, e: Entry)
    requires WellFormed(p) && DistinctIds(p) && RevisedOnce(p + [e])
    ensures Paid(p, e)
  {
    hide PaidFor, MovesAmounts, RevisedOnce, WellFormed, DistinctIds;
    if MovesAmounts(p, e) {
      forall a: u64, d: nat | d < DIMS ensures PaidFor(p, e, a, d) { FirstRevisionPaid(p, e, a, d); }
    }
  }

  /** What the recomputation can pay for, accounts above it can. */
  lemma PaidGoesThrough(b: Book, e: Entry)
    requires Covers(b) && AllWithin(b.accounts) && MovesAmounts(b.history, e) && Paid(b.history, e)
    ensures ApplyMoves(b.accounts, TargetIn(b.history, e).value, e.classification).1
  {
    hide Covers, AllWithin, MoveShares, Backed, Split, Paid, TargetIn;
    var t := TargetIn(b.history, e).value;
    PaidIsBacked(b, e);
    BackedMovesComplete(b.accounts, ClassOf(t.classification), ClassOf(e.classification), Split(t));
  }

  lemma CommitCovers(b: Book, e: Entry, b': Book)
    requires Sound(b) && Covers(b) && Accepted(b, e, b')
    ensures Covers(b')
  {
    hide Accepted, Surplus, AccountsOf, WellFormed, Disciplined;
    SoundParts(b);
    CommitKeepsSurplus(b, e, b');
  }

  lemma RejectionCovers(s: State, e: Entry, order: seq<u64>)
    requires OrderFor(e, order) && Covers(s.book)
    requires var code := AppendLocked(s, e, order).1; code != Ok && code != ReconciliationFailure
    ensures Covers(AppendLocked(s, e, order).0)
  {
    hide Entry.Valid, Authorized, GatesOpen, Consistency, CommitAll, ApplyMoves, Expected, AccountsOf;
    var (b, code) := AppendLocked(s, e, order);
    RejectionLeavesHistory(s, e, order);
    if code == OverflowError {
      var pend := PendingMap(e);
      assert pend.Keys == ChargedAccounts(e);
      CommitKeys(s.book.accounts, pend, order, |order|);
      forall a, f, d: nat | d < DIMS ensures Surplus(b, f, a, d) >= 0 {
        CommitOnlyAdds(s.book.accounts, pend, order, |order|, a, f, d);
        assert Surplus(s.book, f, a, d) >= 0;
      }
    }
  }

  /** An append that revises nothing twice keeps the covering invariant, whether it
      is accepted, rejected, or overflows midway; it never fails to reconcile. */
  lemma AppendCovered(s: State, e: Entry, order: seq<u64>)
    requires OrderFor(e, order) && Covered(s.book) && RevisedOnce(s.book.history + [e])
    ensures Covered(AppendLocked(s, e, order).0)
    ensures AppendLocked(s, e, order).1 != ReconciliationFailure
  {
    hide AppendLocked, Sound, Covers, AllClosed, RevisedOnce, Admits, Accepted;
    var (b, code) := AppendLocked(s, e, order);
    if e.IsRevision() {
      FirstRevisionNeverFails(s, e);
      OrderIrrelevant(s, e, order);
    } else {
      OrdinaryNeverUnreconciled(s, e, order);
    }
    AppendSound(s, e, order);
    AppendKeepsClosed(s, e, order);
    AppendAccepts(s, e, order);
    if code == Ok {
      CommitCovers(s.book, e, b);
      AcceptedHistory(s.book, e, b);
    } else {
      RejectionLeavesHistory(s, e, order);
      RejectionCovers(s, e, order);
    }
  }

  lemma OrderIrrelevant(s: State, e: Entry, order: seq<u64>)
    requires e.IsRevision()
    ensures AppendLocked(s, e, order) == AppendLocked(s, e, [])
  {
    hide Entry.Valid, AppendRevision;
  }

  lemma OrdinaryNeverUnreconciled(s: State, e: Entry, order: seq<u64>)
    requires OrderFor(e, order) && !e.IsRevision()
    ensures AppendLocked(s, e, order).1 != ReconciliationFailure
  {
    hide Entry.Valid, Authorized, GatesOpen, CommitAll;
  }

  // ---------- appends of any kind ----------

  lemma QuantitiesStay(h: seq<Entry>, r: Entry, k: Kind, a: u64, d: nat)
    requires r.IsRevision() && d < DIMS
    ensures Expected(h + [r], Quantity(k), a, d) == Expected(h, Quantity(k), a, d)
  {
    hide Expected, Charged, MovesAmounts;
    ExpectedStep(h, r, Quantity(k), a, d);
  }

  /** Every append, whatever becomes of it, keeps the book grounded. */
  lemma AppendGrounded(s: State, e: Entry, order: seq<u64>)
    requires OrderFor(e, order) && Grounded(s.book)
    ensures Grounded(AppendLocked(s, e, order).0)
  {
    hide AppendLocked, AllWithin, Surplus;
    AppendWithin(s, e, order);
    forall a, k, d: nat | d < DIMS ensures Surplus(AppendLocked(s, e, order).0, Quantity(k), a, d) >= 0 {
      assert Surplus(s.book, Quantity(k), a, d) >= 0;
      AppendLowersNothing(s, e, order, k, a, d);
    }
  }

  lemma AppendWithin(s: State, e: Entry, order: seq<u64>)
    requires OrderFor(e, order) && AllWithin(s.book.accounts)
    ensures AllWithin(AppendLocked(s, e, order).0.accounts)
  {
    hide Entry.Valid, AllWithin, AllClosed, CommitAll, MoveShares, Authorized, GatesOpen, Consistency, Split;
    if !e.IsRevision() {
      if e.Valid() && Consistency(e) == Ok {
        PendingCloses(e);
        ClosedIsWithin(PendingMap(e));
        assert PendingMap(e).Keys == ChargedAccounts(e);
        CommitAllKeepsWithin(s.book.accounts, PendingMap(e), order, |order|);
      }
    } else if e.target.Some? && s.book.Find(e.target.value).Some? {
      var t := s.book.Find(e.target.value).value;
      if IsConsumption(t.classification) && IsConsumption(e.classification) {
        MovesKeepWithin(s.book.accounts, ClassOf(t.classification), ClassOf(e.classification), Split(t), |Split(t)|);
      }
    }
  }

  lemma AppendLowersNothing(s: State, e: Entry, order: seq<u64>, k: Kind, a: u64, d: nat)
    requires OrderFor(e, order) && d < DIMS
    ensures Surplus(AppendLocked(s, e, order).0, Quantity(k), a, d) >= Surplus(s.book, Quantity(k), a, d)
  {
    hide AppendLocked, Expected, Admits, Accepted;
    var (b, code) := AppendLocked(s, e, order);
    AppendAccepts(s, e, order);
    if e.IsRevision() {
      OrderIrrelevant(s, e, order);
      RevisionKeepsPhysical(s, e, k, a, d);
      QuantitiesStay(s.book.history, e, k, a, d);
      if code == Ok { AcceptedHistory(s.book, e, b); } else { RejectionLeavesHistory(s, e, order); }
    } else if code == Ok {
      OrdinarySurplus(s.book, e, b, Quantity(k), a, d);
    } else {
      RejectionLeavesHistory(s, e, order);
      RejectionOnlyAdds(s, e, order, Quantity(k), a, d);
    }
  }

  lemma RejectionOnlyAdds(s: State, e: Entry, order: seq<u64>, f: Field, a: u64, d: nat)
    requires OrderFor(e, order) && !e.IsRevision() && d < DIMS && AppendLocked(s, e, order).1 != Ok
    ensures Cell(AppendLocked(s, e, order).0.accounts, a, f, d) >= Cell(s.book.accounts, a, f, d)
  {
    hide Entry.Valid, Authorized, GatesOpen, Consistency, CommitAll;
    assert PendingMap(e).Keys == ChargedAccounts(e);
    CommitOnlyAdds(s.book.accounts, PendingMap(e), order, |order|, a, f, d);
  }

  // ---------- many appends ----------

  lemma {:induction false} ManyGrounded(auth: Authority, b: Book, entries: seq<Entry>, orders: seq<seq<u64>>, n: nat)
    requires OrdersFor(entries, orders) && n <= |entries| && Grounded(b)
    ensures Grounded(AppendMany(auth, b, entries, orders, n).0)
  {
    hide Grounded, AppendLocked;
    if n > 0 {
      ManyGrounded(auth, b, entries, orders, n - 1);
      var (b', code) := AppendMany(auth, b, entries, orders, n - 1);
      if code == Ok {
        AppendGrounded(State(auth, b'), entries[n - 1], orders[n - 1]);
      }
    }
  }

  lemma {:induction false} ManySound(auth: Authority, b: Book, entries: seq<Entry>, orders: seq<seq<u64>>, n: nat)
    requires OrdersFor(entries, orders) && n <= |entries| && Sound(b)
    ensures Sound(AppendMany(auth, b, entries, orders, n).0)
  {
    hide Sound, AppendLocked;
    if n > 0 {
      ManySound(auth, b, entries, orders, n - 1);
      var (b', code) := AppendMany(auth, b, entries, orders, n - 1);
      if code == Ok {
        AppendSound(State(auth, b'), entries[n - 1], orders[n - 1]);
      }
    }
  }

  lemma {:induction false} ManyClean(auth: Authority, b: Book, entries: seq<Entry>, orders: seq<seq<u64>>, n: nat)
    requires OrdersFor(entries, orders) && n <= |entries| && Clean(b)
    requires !PartialFailure(AppendMany(auth, b, entries, orders, n).1)
    ensures Clean(AppendMany(auth, b, entries, orders, n).0)
  {
    hide Clean, AppendLocked;
    if n > 0 {
      var (b', code) := AppendMany(auth, b, entries, orders, n - 1);
      ManyClean(auth, b, entries, orders, n - 1);
      if code == Ok {
        AppendClean(State(auth, b'), entries[n - 1], orders[n - 1]);
      }
    }
  }

  /** A list of appends that has not stopped has committed what it was given. */
  lemma {:induction false} ManyHistory(auth: Authority, b: Book, entries: seq<Entry>, orders: seq<seq<u64>>, n: nat)
    requires OrdersFor(entries, orders) && n <= |entries| && AppendMany(auth, b, entries, orders, n).1 == Ok
    ensures AppendMany(auth, b, entries, orders, n).0.history == b.history + entries[..n]
  {
    hide AppendLocked, Accepted, Admits;
    if n > 0 {
      ManyHistory(auth, b, entries, orders, n - 1);
      var b' := AppendMany(auth, b, entries, orders, n - 1).0;
      AppendAccepts(State(auth, b'), entries[n - 1], orders[n - 1]);
      AcceptedHistory(b', entries[n - 1], AppendMany(auth, b, entries, orders, n).0);
      assert entries[..n] == entries[..n - 1] + [entries[n - 1]];
    }
  }

  lemma {:induction false} ManyCovered(auth: Authority, b: Book, entries: seq<Entry>, orders: seq<seq<u64>>, n: nat)
    requires OrdersFor(entries, orders) && n <= |entries| && Covered(b) && RevisedOnce(b.history + entries)
    ensures Covered(AppendMany(auth, b, entries, orders, n).0)
    ensures AppendMany(auth, b, entries, orders, n).1 != ReconciliationFailure
  {
    hide Covered, AppendLocked, RevisedOnce;
    if n > 0 {
      ManyCovered(auth, b, entries, orders, n - 1);
      var (b', code) := AppendMany(auth, b, entries, orders, n - 1);
      if code == Ok {
        ManyHistory(auth, b, entries, orders, n - 1);
        var all := b.history + entries;
        RevisedOncePrefix(all, |b.history| + n);
        assert all[..|b.history| + n] == b'.history + [entries[n - 1]];
        AppendCovered(State(auth, b'), entries[n - 1], orders[n - 1]);
      }
    }
  }

  // ---------- every run ----------

  lemma StepSound(s: State, op: Op)
    requires op.Valid() && Sound(s.book)
    ensures Sound(Step(s, op).0.book)
  {
    hide Sound, AppendLocked, AppendMany;
    EmptyBookInvariants();
    assert Sound(EMPTY_BOOK) by { EmptySound(); }
    match op {
      case Append(e, o) => AppendSound(s, e, o);
      case AppendAll(es, os) => ManySound(s.auth, s.book, es, os, |es|);
      case Reclassify(q) => AppendSound(s, RevisionOf(s.book, q), []);
      case Load(es, os) => ManySound(s.auth.(replaying := true), EMPTY_BOOK, es, os, |es|);
      case Restore(h, es, os) => ManySound(Adopt(s.auth, h).(replaying := true), EMPTY_BOOK, es, os, |es|);
      case _ =>
    }
  }

  lemma StepGrounded(s: State, op: Op)
    requires op.Valid() && Grounded(s.book)
    ensures Grounded(Step(s, op).0.book)
  {
    hide Grounded, AppendLocked, AppendMany;
    EmptyBookInvariants();
    match op {
      case Append(e, o) => AppendGrounded(s, e, o);
      case AppendAll(es, os) => ManyGrounded(s.auth, s.book, es, os, |es|);
      case Reclassify(q) => AppendGrounded(s, RevisionOf(s.book, q), []);
      case Load(es, os) => ManyGrounded(s.auth.(replaying := true), EMPTY_BOOK, es, os, |es|);
      case Restore(h, es, os) => ManyGrounded(Adopt(s.auth, h).(replaying := true), EMPTY_BOOK, es, os, |es|);
      case _ =>
    }
  }

  lemma EmptySound()
    ensures Sound(EMPTY_BOOK)
  {
    EmptyAgrees();
  }

  lemma StepClean(s: State, op: Op)
    requires op.Valid() && Clean(s.book) && !PartialFailure(Step(s, op).1)
    ensures Clean(Step(s, op).0.book)
  {
    hide Clean, AppendLocked, AppendMany;
    EmptyBookInvariants();
    match op {
      case Append(e, o) => AppendClean(s, e, o);
      case AppendAll(es, os) => ManyClean(s.auth, s.book, es, os, |es|);
      case Reclassify(q) => AppendClean(s, RevisionOf(s.book, q), []);
      case Load(es, os) => ManyClean(s.auth.(replaying := true), EMPTY_BOOK, es, os, |es|);
      case Restore(h, es, os) => ManyClean(Adopt(s.auth, h).(replaying := true), EMPTY_BOOK, es, os, |es|);
      case _ =>
    }
  }

  lemma StepCovered(s: State, op: Op)
    requires op.Valid() && Covered(s.book) && RevisedOnce(Offered(s, op))
    ensures Covered(Step(s, op).0.book) && Step(s, op).1 != ReconciliationFailure
  {
    hide Covered, AppendLocked, AppendMany, RevisedOnce;
    EmptyBookInvariants();
    match op {
      case Append(e, o) => AppendCovered(s, e, o);
      case AppendAll(es, os) => ManyCovered(s.auth, s.book, es, os, |es|);
      case Reclassify(q) => AppendCovered(s, RevisionOf(s.book, q), []);
      case Load(es, os) =>
        assert EMPTY_BOOK.history + es == es;
        ManyCovered(s.auth.(replaying := true), EMPTY_BOOK, es, os, |es|);
      case Restore(h, es, os) =>
        assert EMPTY_BOOK.history + es == es;
        ManyCovered(Adopt(s.auth, h).(replaying := true), EMPTY_BOOK, es, os, |es|);
      case _ =>
    }
  }

  /** In every reachable state ids are distinct and indexed, gates and attempts agree
      with the history, and the history is disciplined. */
  lemma {:induction false} EveryRunIsSound(id: u64, ops: Run)
    ensures Sound(After(Initial(id), ops).book)
  {
    hide Sound, Step;
    if ops == [] {
      EmptySound();
    } else {
      EveryRunIsSound(id, ops[..|ops| - 1]);
      StepSound(After(Initial(id), ops[..|ops| - 1]), ops[|ops| - 1]);
    }
  }

  /** In every reachable state, after overflows, repeated revisions and failed moves
      alike, class buckets never exceed physical consumption, and the physical, avoided
      and stranded totals are never below the recomputation. */
  lemma {:induction false} EveryRunIsGrounded(id: u64, ops: Run)
    ensures Grounded(After(Initial(id), ops).book)
  {
    hide Grounded, Step;
    if ops == [] {
      EmptyBookInvariants();
    } else {
      EveryRunIsGrounded(id, ops[..|ops| - 1]);
      StepGrounded(After(Initial(id), ops[..|ops| - 1]), ops[|ops| - 1]);
    }
  }

  /** In every run without a partial-commit failure the accounts are exactly the
      recomputation from the history, and therefore closed. */
  lemma {:induction false} CleanRunsAreExact(id: u64, ops: Run)
    requires NoPartialFailure(Initial(id), ops)
    ensures Clean(After(Initial(id), ops).book)
    ensures AllClosed(After(Initial(id), ops).book.accounts)
  {
    hide Clean, Step, AllClosed;
    if ops == [] {
      EmptyBookInvariants();
    } else {
      var before := ops[..|ops| - 1];
      assert NoPartialFailure(Initial(id), before) by {
        forall i | 0 <= i < |before| ensures !PartialFailure(Step(After(Initial(id), before[..i]), before[i]).1) {
          assert before[..i] == ops[..i] && before[i] == ops[i];
        }
      }
      CleanRunsAreExact(id, before);
      StepClean(After(Initial(id), before), ops[|ops| - 1]);
    }
    CleanIsClosed(After(Initial(id), ops).book);
  }

  lemma CleanIsClosed(b: Book)
    requires Clean(b)
    ensures AllClosed(b.accounts)
  {
    hide Exact, AllClosed, WellFormed, Agrees, Disciplined, Replayable;
    ExactIsClosed(b);
  }

  /** In every run in which nothing is revised twice, overflows included: accounts
      stay closed and never below the recomputation, and no step ever fails to reconcile. */
  lemma {:induction false} SingleRevisionRunsReconcile(id: u64, ops: Run)
    requires NeverRevisedTwice(Initial(id), ops)
    ensures Covered(After(Initial(id), ops).book)
    ensures AlwaysReconciles(Initial(id), ops)
  {
    hide Covered, Step, AlwaysReconciles, NeverRevisedTwice;
    if ops == [] {
      EmptyBookInvariants();
      NothingToReconcile(Initial(id));
    } else {
      var n := |ops| - 1;
      var before := ops[..n];
      NeverRevisedTwiceSplit(Initial(id), ops);
      SingleRevisionRunsReconcile(id, before);
      StepCovered(After(Initial(id), before), ops[n]);
      AlwaysReconcilesStep(Initial(id), ops);
    }
  }

  ghost predicate AlwaysReconciles(s: State, ops: Run)
  {
    forall i :: 0 <= i < |ops| ==> Step(After(s, ops[..i]), ops[i]).1 != ReconciliationFailure
  }

  lemma NothingToReconcile(s: State)
    ensures AlwaysReconciles(s, [])
  {
  }

  lemma AlwaysReconcilesStep(s: State, ops: Run)
    requires ops != [] && AlwaysReconciles(s, ops[..|ops| - 1])
    requires Step(After(s, ops[..|ops| - 1]), ops[|ops| - 1]).1 != ReconciliationFailure
    ensures AlwaysReconciles(s, ops)
  {
    hide Step, After;
    var before := ops[..|ops| - 1];
    forall i | 0 <= i < |ops| ensures Step(After(s, ops[..i]), ops[i]).1 != ReconciliationFailure {
      if i < |before| {
        assert before[..i] == ops[..i] && before[i] == ops[i];
      }
    }
  }

  lemma NeverRevisedTwiceSplit(s: State, ops: Run)
    requires ops != [] && NeverRevisedTwice(s, ops)
    ensures NeverRevisedTwice(s, ops[..|ops| - 1])
    ensures RevisedOnce(Offered(After(s, ops[..|ops| - 1]), ops[|ops| - 1]))
  {
    hide Offered, RevisedOnce, After;
    var before := ops[..|ops| - 1];
    forall i | 0 <= i < |before| ensures RevisedOnce(Offered(After(s, before[..i]), before[i])) {
      assert before[..i] == ops[..i] && before[i] == ops[i];
    }
  }
}
