/** The ledger as a value: its authority, its book (history and everything derived
    from it) and the effect of each public operation of src/ledger.cpp. The class in
    EfficiencyLedger.dfy implements these functions statement by statement. */
module Ledger {
  import opened Bytes
  import opened Entries
  import opened Attribution
  import opened Aggregates
  import opened Moves

  datatype Code = Ok | InvalidInput | DuplicateEntry | StaleAuthority | ReconciliationFailure | OverflowError
                | PersistenceCorrupt | ShuttingDown | NotAuthoritative

  datatype AttemptState = AttemptState(outcome: Byte, generation: u64, lastPublication: u64, authoritative: bool)

  const FRESH_ATTEMPT := AttemptState(PENDING, 0, 0, false)

  /** The four at-most-once gates. */
  datatype Gate = Transfer | Reservation | Allocation | Recovery

  datatype Book = Book(
    history: seq<Entry>, index: map<u64, nat>, accounts: AccountMap, attempts: map<u64, AttemptState>,
    transfers: set<u64>, reservations: set<u64>, allocations: set<u64>, recoveries: set<u64>)
  {
    /** The entry the index points to. */
    function Find(id: u64): Option<Entry>
    {
      if id in index && index[id] < |history| then Some(history[index[id]]) else None
    }

    function Passed(g: Gate): set<u64>
    {
      match g
      case Transfer => transfers
      case Reservation => reservations
      case Allocation => allocations
      case Recovery => recoveries
    }
  }

  const EMPTY_BOOK := Book([], map[], map[], map[], {}, {}, {}, {})

  datatype Authority = Authority(
    epoch: u64, ledgerId: u64, ledgerGeneration: u64, accountGeneration: u64,
    shuttingDown: bool, epochAdvanced: bool, replaying: bool, liveWorkers: set<u64>)

  datatype State = State(auth: Authority, book: Book)

  /** A freshly constructed ledger. */
  function Initial(ledgerId: u64): State
  {
    State(Authority(1, ledgerId, 1, 1, false, false, false, {}), EMPTY_BOOK)
  }

  // ---------- check_authority ----------

  predicate FencesCurrent(auth: Authority, e: Entry)
  {
    && (e.fences.epoch != 0 ==> e.fences.epoch == auth.epoch)
    && (e.fences.ledgerGeneration != 0 ==> e.fences.ledgerGeneration == auth.ledgerGeneration)
    && (e.fences.accountGeneration != 0 ==> e.fences.accountGeneration == auth.accountGeneration)
  }

  predicate WorkerLive(auth: Authority, e: Entry)
  {
    auth.replaying || e.fences.workerBoot == 0 || e.fences.workerBoot in auth.liveWorkers
  }

  /** The seven events that signal completion of an attempt. */
  predicate IsSignal(event: Byte)
  {
    || event == EXECUTION_COMPLETED || event == OUTPUT_PUBLISHED || event == OUTPUT_REJECTED
    || event == WORK_ACCEPTED || event == WORK_REJECTED || event == COMMIT_AUTHORIZED || event == COMMIT_REJECTED
  }

  predicate AttemptOpen(attempts: map<u64, AttemptState>, e: Entry)
  {
    e.HasAttempt() && e.attempt.id in attempts ==>
      var st := attempts[e.attempt.id];
      && (st.generation != 0 && e.attempt.generation != 0 ==> st.generation == e.attempt.generation)
      && (st.outcome != PENDING ==> !e.HasOutcome() && !IsSignal(e.event))
      && (e.fences.publication != 0 && st.lastPublication != 0 ==> e.fences.publication > st.lastPublication)
  }

  predicate Authorized(s: State, e: Entry)
  {
    FencesCurrent(s.auth, e) && WorkerLive(s.auth, e) && AttemptOpen(s.book.attempts, e)
  }

  // ---------- check_classification_consistency ----------

  predicate IsAuthoritativeUse(e: Entry)
  {
    e.fences.publication != 0 || e.event == CACHE_HIT || e.event == STATE_REUSED || e.event == CHECKPOINT_RESTORED
  }

  function Consistency(e: Entry): Code
  {
    if e.classification == AVOIDED_WORK then
      if !IsZero(e.usage) || e.avoidedWork.None? then InvalidInput else Ok
    else if e.classification == STRANDED_CAPACITY then
      if !IsZero(e.usage) || e.strandedCapacity.None? then InvalidInput else Ok
    else if IsConsumption(e.classification) then
      if e.avoidedWork.Some? || e.strandedCapacity.Some? then InvalidInput
      else if e.classification == USEFUL && !IsAuthoritativeUse(e) then NotAuthoritative
      else Ok
    else Ok
  }

  // ---------- lifecycle gates ----------

  /** The id an entry completes at a gate; zero when it completes none. */
  function Completes(e: Entry, g: Gate): u64
  {
    match g
    case Transfer => if e.event == TRANSFER_COMPLETED then e.owners.transfer else 0
    case Reservation => if e.event == RESERVATION_RELEASED then e.owners.reservation else 0
    case Allocation => if e.event == ALLOCATION_RELEASED then e.owners.allocation else 0
    case Recovery => if e.event == RECOVERY_COMPLETED || e.event == RECOVERY_FAILED then e.owners.recovery else 0
  }

  predicate GateOpen(b: Book, e: Entry, g: Gate)
  {
    Completes(e, g) == 0 || Completes(e, g) !in b.Passed(g)
  }

  predicate GatesOpen(b: Book, e: Entry)
  {
    GateOpen(b, e, Transfer) && GateOpen(b, e, Reservation) && GateOpen(b, e, Allocation) && GateOpen(b, e, Recovery)
  }

  function Pass(b: Book, e: Entry, g: Gate): set<u64>
  {
    b.Passed(g) + if Completes(e, g) != 0 then {Completes(e, g)} else {}
  }

  // ---------- recording ----------

  function RecordAttempt(attempts: map<u64, AttemptState>, e: Entry): map<u64, AttemptState>
  {
    if !e.HasAttempt() then attempts else
      var as0 := if e.attempt.id in attempts then attempts[e.attempt.id] else FRESH_ATTEMPT;
      var as1 := if e.HasOutcome() then AttemptState(e.outcome, e.attempt.generation, as0.lastPublication, true) else as0;
      var as2 := if e.fences.publication != 0 && (as1.lastPublication == 0 || e.fences.publication > as1.lastPublication)
                 then as1.(lastPublication := e.fences.publication) else as1;
      attempts[e.attempt.id := as2]
  }

  /** History and index after a commit; everything else as given. */
  function Logged(b: Book, e: Entry): Book
  {
    b.(history := b.history + [e], index := b.index[e.id := |b.history|])
  }

  /** All derived structures after an ordinary entry with new account totals. */
  function Recorded(b: Book, e: Entry, accounts: AccountMap): Book
  {
    Logged(b.(accounts := accounts, attempts := RecordAttempt(b.attempts, e),
              transfers := Pass(b, e, Transfer), reservations := Pass(b, e, Reservation),
              allocations := Pass(b, e, Allocation), recoveries := Pass(b, e, Recovery)), e)
  }

  // ---------- append ----------

  ghost predicate OrderFor(e: Entry, order: seq<u64>)
  {
    e.IsRevision() || IsOrder(order, ChargedAccounts(e))
  }

  ghost function ApplyAttribution(b: Book, e: Entry, order: seq<u64>): (AccountMap, bool)
    requires IsOrder(order, ChargedAccounts(e))
  {
    CommitAll(b.accounts, PendingMap(e), order, |order|)
  }

  /** The bucket moves of a revision of `t` to class `c`. */
  function ApplyMoves(m: AccountMap, t: Entry, c: Byte): (AccountMap, bool)
    requires IsConsumption(t.classification) && IsConsumption(c)
  {
    MoveShares(m, Bucket(ClassOf(t.classification)), Bucket(ClassOf(c)), Split(t), |Split(t)|)
  }

  function ApplyReclassify(b: Book, r: Entry): (Book, Code)
  {
    if r.target.None? then (b, InvalidInput) else
      var t := b.Find(r.target.value);
      if t.None? then (b, InvalidInput)
      else if IsConsumption(t.value.classification) != IsConsumption(r.classification) then (b, InvalidInput)
      else if !IsConsumption(r.classification) then (Logged(b, r), Ok)
      else
        var (m, ok) := ApplyMoves(b.accounts, t.value, r.classification);
        if ok then (Logged(b.(accounts := m), r), Ok) else (b.(accounts := m), ReconciliationFailure)
  }

  function AppendRevision(s: State, e: Entry): (Book, Code)
  {
    if e.id in s.book.index then (s.book, DuplicateEntry)
    else if !IsZero(e.usage) then (s.book, InvalidInput)
    else if !Authorized(s, e) then (s.book, StaleAuthority)
    else ApplyReclassify(s.book, e)
  }

  ghost function AppendOrdinary(s: State, e: Entry, order: seq<u64>): (Book, Code)
    requires IsOrder(order, ChargedAccounts(e))
  {
    if e.id in s.book.index then (s.book, DuplicateEntry)
    else if Consistency(e) != Ok then (s.book, Consistency(e))
    else if !Authorized(s, e) then (s.book, StaleAuthority)
    else if !GatesOpen(s.book, e) then (s.book, DuplicateEntry)
    else
      var (m, ok) := ApplyAttribution(s.book, e, order);
      if ok then (Recorded(s.book, e, m), Ok) else (s.book.(accounts := m), OverflowError)
  }

  /** `append_locked`. `order` is the order in which the commit loop happens to walk
      the hash table of pending accounts. */
  ghost function AppendLocked(s: State, e: Entry, order: seq<u64>): (Book, Code)
    requires OrderFor(e, order)
  {
    if s.auth.shuttingDown then (s.book, ShuttingDown)
    else if !e.Valid() then (s.book, InvalidInput)
    else if e.IsRevision() then AppendRevision(s, e)
    else AppendOrdinary(s, e, order)
  }

  // ---------- reclassify ----------

  datatype ReclassifyRequest = ReclassifyRequest(
    revisionId: u64, target: u64, newClassification: Byte, newSubcategory: Subcategory,
    fences: Fences, provenance: Byte, note: seq<Byte>)

  /** The revision entry `reclassify` builds from a request. */
  function RevisionOf(b: Book, q: ReclassifyRequest): (e: Entry)
    ensures e.IsRevision()
  {
    var t := b.Find(q.target);
    BLANK.(id := q.revisionId, event := RECLASSIFY, classification := q.newClassification,
           subcategory := q.newSubcategory, provenance := q.provenance, fences := q.fences,
           target := Some(q.target), note := q.note,
           account := if t.None? then 0 else if t.value.account != 0 then t.value.account else RESIDUAL_ACCOUNT,
           attempt := if t.None? then Attempt(0, 0) else t.value.attempt)
  }

  // ---------- load_history ----------

  ghost predicate OrdersFor(entries: seq<Entry>, orders: seq<seq<u64>>)
  {
    |orders| == |entries| && forall i :: 0 <= i < |entries| ==> OrderFor(entries[i], orders[i])
  }

  /** The first `n` of a list of appends onto book `b`; stops at the first rejection.
      This is `append` of a vector, and the loop of `load_history`. */
  ghost function AppendMany(auth: Authority, b: Book, entries: seq<Entry>, orders: seq<seq<u64>>, n: nat): (Book, Code)
    requires OrdersFor(entries, orders) && n <= |entries|
  {
    if n == 0 then (b, Ok) else
      var (b', code) := AppendMany(auth, b, entries, orders, n - 1);
      if code != Ok then (b', code) else AppendLocked(State(auth, b'), entries[n - 1], orders[n - 1])
  }

  /** Replay starts from nothing and skips the worker-liveness fence. */
  ghost function LoadHistory(s: State, entries: seq<Entry>, orders: seq<seq<u64>>): (State, Code)
    requires OrdersFor(entries, orders)
  {
    var (b, code) := AppendMany(s.auth.(replaying := true), EMPTY_BOOK, entries, orders, |entries|);
    (State(s.auth.(replaying := false), b), code)
  }

  // ---------- acceptance, said once ----------

  /** What `append_locked` demands of the book, apart from authority. */
  ghost predicate Admits(b: Book, e: Entry)
  {
    && e.Valid() && e.id !in b.index && AttemptOpen(b.attempts, e)
    && if e.IsRevision() then AdmitsRevision(b, e) else AdmitsOrdinary(b, e)
  }

  predicate AdmitsRevision(b: Book, e: Entry)
  {
    && IsZero(e.usage) && e.target.Some? && b.Find(e.target.value).Some?
    && var t := b.Find(e.target.value).value;
       && IsConsumption(t.classification) == IsConsumption(e.classification)
       && (IsConsumption(e.classification) ==> ApplyMoves(b.accounts, t, e.classification).1)
  }

  ghost predicate AdmitsOrdinary(b: Book, e: Entry)
  {
    Consistency(e) == Ok && GatesOpen(b, e) && Fits(b.accounts, PendingMap(e))
  }

  /** The book after an accepted entry. */
  ghost predicate Accepted(b: Book, e: Entry, b': Book)
  {
    if e.IsRevision() then
      && AdmitsRevision(b, e)
      && b' == Logged(b.(accounts := b'.accounts), e)
      && b'.accounts == if IsConsumption(e.classification)
                        then ApplyMoves(b.accounts, b.Find(e.target.value).value, e.classification).0
                        else b.accounts
    else
      b' == Recorded(b, e, b'.accounts) && Added(b.accounts, PendingMap(e), b'.accounts)
  }

  /** An entry is committed exactly when authority and book admit it; the order of
      the commit loop has no say in it, nor in the resulting book. */
  lemma AppendAccepts(s: State, e: Entry, order: seq<u64>)
    requires OrderFor(e, order)
    ensures var (b, code) := AppendLocked(s, e, order);
            && (code == Ok <==> !s.auth.shuttingDown && FencesCurrent(s.auth, e) && WorkerLive(s.auth, e) && Admits(s.book, e))
            && (code == Ok ==> Accepted(s.book, e, b))
  {
    hide Entry.Valid, FencesCurrent, WorkerLive, AttemptOpen, Fits, CommitAll, ApplyMoves, Added;
    if !e.IsRevision() {
      assert PendingMap(e).Keys == ChargedAccounts(e);
      CommitSucceeds(s.book.accounts, PendingMap(e), order);
    }
  }

  /** A rejected append leaves history, index, attempts and gates alone; only the two
      partial-commit failures can leave a mark, and only on the accounts. */
  lemma RejectionLeavesHistory(s: State, e: Entry, order: seq<u64>)
    requires OrderFor(e, order) && AppendLocked(s, e, order).1 != Ok
    ensures var (b, code) := AppendLocked(s, e, order);
            && b == s.book.(accounts := b.accounts)
            && (code != OverflowError && code != ReconciliationFailure ==> b == s.book)
  {
    hide Entry.Valid, Authorized, CommitAll, ApplyMoves, GatesOpen;
  }
}
