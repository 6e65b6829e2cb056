/** The `EfficiencyLedger` class of src/ledger.cpp: its fields, its loops and its
    in-place updates, proved to compute the functions of Ledger.dfy. Each public
    method is one atomic step. */
module EfficiencyLedgerCode {
  import opened Bytes
  import opened Apportion
  import opened Entries
  import opened Attribution
  import opened Aggregates
  import opened Moves
  import opened Ledger
  import opened Runs
  import opened Codec
  import opened EntryCodec
  import opened Crc32c
  import opened Image
  import Digest
  import Reconcile

  // ---------- hash-table orders ----------

  ghost function OrderOf(e: Entry): (o: seq<u64>)
    ensures OrderFor(e, o) && IsOrder(o, ChargedAccounts(e))
  {
    ListOf(ChargedAccounts(e))
  }

  lemma {:induction false} CommitDependsOnPrefix(m: AccountMap, pend: AccountMap, o: seq<u64>, p: seq<u64>, n: nat)
    requires n <= |o| && n <= |p| && o[..n] == p[..n]
    requires (forall a :: a in o ==> a in pend) && (forall a :: a in p ==> a in pend)
    ensures CommitAll(m, pend, o, n) == CommitAll(m, pend, p, n)
  {
    hide CommitAccount;
    if n > 0 {
      assert o[..n - 1] == o[..n][..n - 1] && p[..n - 1] == p[..n][..n - 1];
      CommitDependsOnPrefix(m, pend, o, p, n - 1);
      assert o[n - 1] == o[..n][n - 1] == p[..n][n - 1] == p[n - 1];
    }
  }

  lemma TakeNext(taken: seq<u64>, keys: set<u64>, rest: set<u64>, a: u64)
    requires rest <= keys && IsOrder(taken, keys - rest) && a in rest
    ensures IsOrder(taken + [a], keys - (rest - {a}))
    ensures forall x :: x in taken + [a] ==> x in keys
  {
  }

  /** Completing the order a failed commit had walked so far. */
  lemma CompleteOrder(taken: seq<u64>, keys: set<u64>, rest: set<u64>) returns (order: seq<u64>)
    requires rest <= keys && IsOrder(taken, keys - rest)
    ensures IsOrder(order, keys) && |taken| <= |order| && order[..|taken|] == taken
  {
    var seen := set a | a in taken;
    var more := ListOf(rest);
    order := taken + more;
    forall i, j | 0 <= i < j < |order| ensures order[i] != order[j] {
      if j < |taken| {
      } else if i < |taken| {
        assert order[i] in seen && order[j] in more;
      } else {
        assert order[i] == more[i - |taken|] && order[j] == more[j - |taken|];
      }
    }
  }

  lemma {:induction false} ManyFailureSticks(auth: Authority, b: Book, es: seq<Entry>, os: seq<seq<u64>>, n: nat, k: nat)
    requires OrdersFor(es, os) && n <= k <= |es| && AppendMany(auth, b, es, os, n).1 != Ok
    ensures AppendMany(auth, b, es, os, k) == AppendMany(auth, b, es, os, n)
    decreases k
  {
    hide AppendLocked;
    if n < k {
      ManyFailureSticks(auth, b, es, os, n, k - 1);
    }
  }

  lemma {:induction false} ManyDependsOnPrefix(auth: Authority, b: Book, es: seq<Entry>, os: seq<seq<u64>>, ps: seq<seq<u64>>, n: nat)
    requires OrdersFor(es, os) && OrdersFor(es, ps) && n <= |es| && os[..n] == ps[..n]
    ensures AppendMany(auth, b, es, os, n) == AppendMany(auth, b, es, ps, n)
  {
    hide AppendLocked, OrderFor;
    if n > 0 {
      assert os[..n - 1] == os[..n][..n - 1] && ps[..n - 1] == ps[..n][..n - 1];
      ManyDependsOnPrefix(auth, b, es, os, ps, n - 1);
      assert os[n - 1] == os[..n][n - 1] == ps[..n][n - 1] == ps[n - 1];
    }
  }

  lemma OrdersOf(auth: Authority, b: Book, es: seq<Entry>) returns (os: seq<seq<u64>>)
    ensures |os| == |es| && OrdersFor(es, os) && AppendMany(auth, b, es, os, 0) == (b, Ok)
  {
    hide OrderFor;
    os := seq(|es|, i requires 0 <= i < |es| => OrderOf(es[i]));
  }

  lemma ManyWithOrder(auth: Authority, b: Book, es: seq<Entry>, os: seq<seq<u64>>, ps: seq<seq<u64>>, n: nat)
    requires OrdersFor(es, os) && n < |os| == |es| && |ps| == |es| && OrderFor(es[n], ps[n]) && ps == os[n := ps[n]]
    requires AppendMany(auth, b, es, os, n).1 == Ok
    ensures OrdersFor(es, ps)
    ensures AppendMany(auth, b, es, ps, n) == AppendMany(auth, b, es, os, n)
    ensures AppendMany(auth, b, es, ps, n + 1) == AppendLocked(State(auth, AppendMany(auth, b, es, os, n).0), es[n], ps[n])
  {
    hide AppendLocked, OrderFor;
    assert os[..n] == ps[..n];
    ManyDependsOnPrefix(auth, b, es, os, ps, n);
  }

  // ---------- the pending phase ----------

  /** What the first shares of a list add to a cell, for an entry of class `cls`. */
  function PartDelta(s: seq<ShareOf>, cls: Byte, a: u64, f: Field, d: nat): nat
    requires d < DIMS
  {
    match f
    case Quantity(k) => GivenTo(s, a, k, d)
    case Bucket(c) => if ClassByte(c) == cls then GivenTo(s, a, Physical, d) else 0
  }

  lemma PartGrows(e: Entry, n: nat, f: Field, d: nat)
    requires n < |Split(e)| && d < DIMS
    ensures var sh := Split(e)[n];
            PartDelta(Split(e)[..n + 1], e.classification, sh.account, f, d)
            == PartDelta(Split(e)[..n], e.classification, sh.account, f, d) + RowOf(sh, e.classification, f)[d] <= MAX64
  {
    var s := Split(e);
    assert s[..n + 1][..n] == s[..n] && s[..n + 1][n] == s[n];
    PendingNeverOverflows(e, n + 1, s[n].account, if f.Quantity? then f.kind else Physical, d);
  }

  /** What a share adds to row `f` of its account. */
  function RowOf(sh: ShareOf, cls: Byte, f: Field): Dims
  {
    match f
    case Quantity(k) => sh.Of(k)
    case Bucket(c) => if ClassByte(c) == cls then sh.physical else ZERO
  }

  lemma OtherAccountsWait(s: seq<ShareOf>, n: nat, cls: Byte, a: u64, f: Field, d: nat)
    requires n < |s| && d < DIMS && a != s[n].account
    ensures PartDelta(s[..n + 1], cls, a, f, d) == PartDelta(s[..n], cls, a, f, d)
  {
    assert s[..n + 1][..n] == s[..n] && s[..n + 1][n] == s[n];
  }

  ghost predicate RowHolds(row: Dims, s: seq<ShareOf>, cls: Byte, a: u64, f: Field)
  {
    forall d: nat :: d < DIMS ==> row[d] == PartDelta(s, cls, a, f, d)
  }

  ghost predicate HoldsPart(x: Aggregate, s: seq<ShareOf>, cls: Byte, a: u64)
  {
    forall f :: RowHolds(x.Row(f), s, cls, a, f)
  }

  /** One row of the pending phase: add share `n`, dimension by dimension. The code's
      overflow return in this loop is dead. */
  method AddRow(e: Entry, ghost n: nat, sh: ShareOf, f: Field, row: Dims) returns (out: Dims)
    requires n < |Split(e)| && sh == Split(e)[n]
    requires RowHolds(row, Split(e)[..n], e.classification, sh.account, f)
    ensures RowHolds(out, Split(e)[..n + 1], e.classification, sh.account, f)
  {
    hide PartDelta, Split;
    out := row;
    var amount := RowOf(sh, e.classification, f);
    var d := 0;
    while d < DIMS
      invariant 0 <= d <= DIMS
      invariant forall c: nat :: c < d ==> out[c] == PartDelta(Split(e)[..n + 1], e.classification, sh.account, f, c)
      invariant forall c: nat :: d <= c < DIMS ==> out[c] == row[c]
    {
      PartGrows(e, n, f, d);
      var sum := CheckedAdd(out[d], amount[d]);
      if sum.Overflow? {
        assert false;
      }
      out := out[d := sum.v];
      d := d + 1;
    }
  }

  /** Adding share `n` to the pending totals of its account. */
  method AddShare(e: Entry, ghost n: nat, sh: ShareOf, x: Aggregate) returns (y: Aggregate)
    requires n < |Split(e)| && sh == Split(e)[n] && HoldsPart(x, Split(e)[..n], e.classification, sh.account)
    ensures HoldsPart(y, Split(e)[..n + 1], e.classification, sh.account)
  {
    hide RowHolds, Split;
    var physical := AddRow(e, n, sh, Quantity(Physical), x.Row(Quantity(Physical)));
    var avoided := AddRow(e, n, sh, Quantity(Avoided), x.Row(Quantity(Avoided)));
    var stranded := AddRow(e, n, sh, Quantity(Stranded), x.Row(Quantity(Stranded)));
    y := x.(physical := physical, avoided := avoided, stranded := stranded);
    forall f: Field | f.Bucket? && ClassByte(f.class_) != e.classification
      ensures RowHolds(x.Row(f), Split(e)[..n + 1], e.classification, sh.account, f)
    {
      BucketWaits(e, n, x.Row(f), f);
    }
    if IsConsumption(e.classification) {
      var f := Bucket(ClassOf(e.classification));
      var row := AddRow(e, n, sh, f, x.Row(f));
      y := y.WithRow(f, row);
    }
    forall f: Field ensures RowHolds(y.Row(f), Split(e)[..n + 1], e.classification, sh.account, f) {
      assert f.Bucket? && ClassByte(f.class_) == e.classification ==> f == Bucket(ClassOf(e.classification));
    }
  }

  lemma BucketWaits(e: Entry, n: nat, row: Dims, f: Field)
    requires n < |Split(e)| && f.Bucket? && ClassByte(f.class_) != e.classification
    requires RowHolds(row, Split(e)[..n], e.classification, Split(e)[n].account, f)
    ensures RowHolds(row, Split(e)[..n + 1], e.classification, Split(e)[n].account, f)
  {
    hide Split;
    forall d: nat | d < DIMS ensures row[d] == PartDelta(Split(e)[..n + 1], e.classification, Split(e)[n].account, f, d) {
      assert row[d] == PartDelta(Split(e)[..n], e.classification, Split(e)[n].account, f, d);
    }
  }

  lemma OtherHoldsPart(x: Aggregate, s: seq<ShareOf>, n: nat, cls: Byte, a: u64)
    requires n < |s| && a != s[n].account && HoldsPart(x, s[..n], cls, a)
    ensures HoldsPart(x, s[..n + 1], cls, a)
  {
    hide PartDelta;
    forall f: Field ensures RowHolds(x.Row(f), s[..n + 1], cls, a, f) {
      assert RowHolds(x.Row(f), s[..n], cls, a, f);
      forall d: nat | d < DIMS ensures x.Row(f)[d] == PartDelta(s[..n + 1], cls, a, f, d) {
        OtherAccountsWait(s, n, cls, a, f, d);
      }
    }
  }

  lemma NothingHolds(s: seq<ShareOf>, cls: Byte, a: u64)
    requires a !in Accounts(s)
    ensures HoldsPart(EMPTY_AGGREGATE, s, cls, a)
  {
    forall f: Field ensures RowHolds(EMPTY_AGGREGATE.Row(f), s, cls, a, f) {
      forall d: nat | d < DIMS ensures EMPTY_AGGREGATE.Row(f)[d] == PartDelta(s, cls, a, f, d) {
        GivenToNobody(s, a, if f.Quantity? then f.kind else Physical, d);
      }
    }
  }

  lemma HoldsAll(x: Aggregate, e: Entry, a: u64)
    requires HoldsPart(x, Split(e), e.classification, a)
    ensures x == Pending(e, a)
  {
    forall f, d: nat | d < DIMS ensures x.At(f, d) == Pending(e, a).At(f, d) {
      assert RowHolds(x.Row(f), Split(e), e.classification, a, f);
      assert x.Row(f)[d] == PartDelta(Split(e), e.classification, a, f, d);
    }
    SameCells(x, Pending(e, a));
  }

  /** The pending phase of `apply_attribution`. */
  method PendingTotals(e: Entry, shares: seq<ShareOf>) returns (pending: AccountMap)
    requires shares == Split(e)
    ensures pending == PendingMap(e)
  {
    hide HoldsPart, Split;
    pending := map[];
    var n := 0;
    assert Accounts(shares[..0]) == {};
    while n < |shares|
      invariant 0 <= n <= |shares|
      invariant pending.Keys == Accounts(shares[..n])
      invariant forall a :: a in pending ==> HoldsPart(pending[a], shares[..n], e.classification, a)
    {
      var sh := shares[n];
      if sh.account !in pending {
        NothingHolds(shares[..n], e.classification, sh.account);
      }
      var x := if sh.account in pending then pending[sh.account] else EMPTY_AGGREGATE;
      var y := AddShare(e, n, sh, x);
      forall a | a in pending && a != sh.account ensures HoldsPart(pending[a], shares[..n + 1], e.classification, a) {
        OtherHoldsPart(pending[a], shares, n, e.classification, a);
      }
      assert shares[..n + 1] == shares[..n] + [sh];
      pending := pending[sh.account := y];
      n := n + 1;
    }
    assert shares[..|shares|] == shares;
    forall a | a in pending ensures pending[a] == Pending(e, a) {
      HoldsAll(pending[a], e, a);
    }
  }

  // ---------- the commit phase ----------

  /** One known account, cell by cell in the code's order, stopping at an overflow. */
  method CommitInPlace(dst: Aggregate, add: Aggregate) returns (x: Aggregate, ok: bool)
    ensures (x, ok) == Commit(dst, add)
  {
    hide CommitCell;
    x, ok := dst, true;
    var d := 0;
    while d < DIMS
      invariant 0 <= d <= DIMS
      invariant CommitCells(dst, add, 7 * d) == (x, true)
      invariant ok
    {
      var j := 0;
      while j < 7
        invariant 0 <= j <= 7
        invariant CommitCells(dst, add, 7 * d + j) == (x, true)
      {
        var i := 7 * d + j;
        x, ok := CommitOne(x, add, i, FIELDS[j], d);
        assert CommitCells(dst, add, i + 1) == (x, ok);
        if !ok {
          CellFailureSticks(dst, add, i + 1, 7 * DIMS);
          return;
        }
        j := j + 1;
      }
      d := d + 1;
    }
  }

  method CommitOne(x: Aggregate, add: Aggregate, i: nat, f: Field, d: nat) returns (y: Aggregate, ok: bool)
    requires i < 7 * DIMS && f == FIELDS[i % 7] && d == i / 7
    ensures (y, ok) == CommitCell(x, add, i)
  {
    var sum := CheckedAdd(x.At(f, d), add.At(f, d));
    if sum.Overflow? {
      return x, false;
    }
    y, ok := x.Set(f, d, sum.v), true;
  }

  lemma {:induction false} CellFailureSticks(dst: Aggregate, add: Aggregate, n: nat, k: nat)
    requires n <= k <= 7 * DIMS && !CommitCells(dst, add, n).1
    ensures CommitCells(dst, add, k) == CommitCells(dst, add, n)
    decreases k
  {
    hide CommitCell;
    if n < k {
      CellFailureSticks(dst, add, n, k - 1);
    }
  }

  // ---------- the bucket moves ----------

  method MoveOutInPlace(x: Aggregate, f: Field, amount: Dims) returns (y: Aggregate, ok: bool)
    ensures (y, ok) == MoveOut(x, f, amount, DIMS)
  {
    y, ok := x, true;
    var d := 0;
    while d < DIMS
      invariant 0 <= d <= DIMS
      invariant MoveOut(x, f, amount, d) == (y, true)
      invariant ok
    {
      var v := CheckedSub(y.At(f, d), amount[d]);
      if v.Overflow? {
        OutFailureSticks(x, f, amount, d + 1, DIMS);
        return y, false;
      }
      y := y.Set(f, d, v.v);
      d := d + 1;
    }
  }

  lemma {:induction false} OutFailureSticks(x: Aggregate, f: Field, amount: Dims, n: nat, k: nat)
    requires n <= k <= DIMS && !MoveOut(x, f, amount, n).1
    ensures MoveOut(x, f, amount, k) == MoveOut(x, f, amount, n)
    decreases k
  {
    if n < k {
      OutFailureSticks(x, f, amount, n, k - 1);
    }
  }

  method MoveInInPlace(x: Aggregate, f: Field, amount: Dims) returns (y: Aggregate, ok: bool)
    ensures (y, ok) == MoveIn(x, f, amount, DIMS)
  {
    y, ok := x, true;
    var d := 0;
    while d < DIMS
      invariant 0 <= d <= DIMS
      invariant MoveIn(x, f, amount, d) == (y, true)
      invariant ok
    {
      var v := CheckedAdd(y.At(f, d), amount[d]);
      if v.Overflow? {
        InFailureSticks(x, f, amount, d + 1, DIMS);
        return y, false;
      }
      y := y.Set(f, d, v.v);
      d := d + 1;
    }
  }

  lemma {:induction false} InFailureSticks(x: Aggregate, f: Field, amount: Dims, n: nat, k: nat)
    requires n <= k <= DIMS && !MoveIn(x, f, amount, n).1
    ensures MoveIn(x, f, amount, k) == MoveIn(x, f, amount, n)
    decreases k
  {
    if n < k {
      InFailureSticks(x, f, amount, n, k - 1);
    }
  }

  // ---------- the class ----------

  class EfficiencyLedger {
    var epoch: u64
    var ledgerId: u64
    var ledgerGeneration: u64
    var accountGeneration: u64
    var shuttingDown: bool
    var epochAdvanced: bool
    var replaying: bool
    var liveWorkers: set<u64>
    var history: seq<Entry>
    var index: map<u64, nat>
    var attempts: map<u64, AttemptState>
    var transferCompleted: set<u64>
    var reservationReleased: set<u64>
    var allocationReleased: set<u64>
    var recoveryCompleted: set<u64>
    var accounts: AccountMap

    /** The index only holds positions of the history, and no account's class buckets
        exceed its physical consumption. */
    ghost predicate Valid()
      reads this
    {
      (forall id :: id in index ==> index[id] < |history|) && AllWithin(accounts)
    }

    ghost function Auth(): Authority
      reads this
    {
      Authority(epoch, ledgerId, ledgerGeneration, accountGeneration, shuttingDown, epochAdvanced, replaying, liveWorkers)
    }

    ghost function BookView(): Book
      reads this
    {
      Book(history, index, accounts, attempts, transferCompleted, reservationReleased, allocationReleased, recoveryCompleted)
    }

    ghost function View(): State
      reads this
    {
      State(Auth(), BookView())
    }

    constructor (id: u64)
      ensures Valid() && View() == Initial(id)
    {
      epoch, ledgerId, ledgerGeneration, accountGeneration := 1, id, 1, 1;
      shuttingDown, epochAdvanced, replaying := false, false, false;
      liveWorkers := {};
      history, index, attempts, accounts := [], map[], map[], map[];
      transferCompleted, reservationReleased, allocationReleased, recoveryCompleted := {}, {}, {}, {};
    }

    // ----- authority -----

    method RegisterBoot(boot: u64)
      modifies this`liveWorkers
      ensures Auth() == Governed(old(Auth()), RegisterWorker(boot))
    {
      if boot != 0 {
        liveWorkers := liveWorkers + {boot};
      }
    }

    method UnregisterBoot(boot: u64)
      modifies this`liveWorkers
      ensures Auth() == Governed(old(Auth()), UnregisterWorker(boot))
    {
      liveWorkers := liveWorkers - {boot};
    }

    method NextEpoch()
      modifies this`epoch, this`epochAdvanced
      ensures Auth() == Governed(old(Auth()), AdvanceEpoch)
    {
      epoch := (epoch + 1) % MODULUS;
      epochAdvanced := true;
    }

    method StartEpoch(value: u64)
      modifies this`epoch
      ensures Auth() == Governed(old(Auth()), SetEpoch(value))
    {
      epoch := value;
    }

    method StartGenerations(ledgerGen: u64, accountGen: u64)
      modifies this`ledgerGeneration, this`accountGeneration
      ensures Auth() == Governed(Governed(old(Auth()), SetLedgerGeneration(ledgerGen)), SetAccountGeneration(accountGen))
    {
      ledgerGeneration, accountGeneration := ledgerGen, accountGen;
    }

    method ShutDown()
      modifies this`shuttingDown
      ensures Auth() == Governed(old(Auth()), SetShuttingDown)
    {
      shuttingDown := true;
    }

    /** `check_authority`: the fences, then the attempt. */
    method CheckAuthority(e: Entry) returns (ok: bool)
      ensures ok == Authorized(View(), e)
    {
      hide FencesCurrent, WorkerLive, AttemptOpen;
      ok := CheckFences(e);
      if ok {
        ok := CheckAttempt(e);
      }
    }

    method CheckFences(e: Entry) returns (ok: bool)
      ensures ok == (FencesCurrent(Auth(), e) && WorkerLive(Auth(), e))
    {
      if e.fences.epoch != 0 && e.fences.epoch != epoch { return false; }
      if e.fences.ledgerGeneration != 0 && e.fences.ledgerGeneration != ledgerGeneration { return false; }
      if e.fences.accountGeneration != 0 && e.fences.accountGeneration != accountGeneration { return false; }
      if !replaying && e.fences.workerBoot != 0 && e.fences.workerBoot !in liveWorkers { return false; }
      return true;
    }

    method CheckAttempt(e: Entry) returns (ok: bool)
      ensures ok == AttemptOpen(attempts, e)
    {
      if e.HasAttempt() && e.attempt.id in attempts {
        var st := attempts[e.attempt.id];
        if st.generation != 0 && e.attempt.generation != 0 && st.generation != e.attempt.generation { return false; }
        if st.outcome != PENDING {
          if e.HasOutcome() { return false; }
          var signal := e.event == EXECUTION_COMPLETED || e.event == OUTPUT_PUBLISHED || e.event == OUTPUT_REJECTED
                        || e.event == WORK_ACCEPTED || e.event == WORK_REJECTED
                        || e.event == COMMIT_AUTHORIZED || e.event == COMMIT_REJECTED;
          if signal { return false; }
        }
        if e.fences.publication != 0 && st.lastPublication != 0 && e.fences.publication <= st.lastPublication {
          return false;
        }
      }
      return true;
    }

    // ----- append -----

    /** `apply_attribution`: the order the pending table happens to be walked in is
        returned as a ghost. */
    method ApplyPending(e: Entry, shares: seq<ShareOf>) returns (ok: bool, ghost order: seq<u64>)
      requires shares == Split(e)
      modifies this`accounts
      ensures IsOrder(order, ChargedAccounts(e))
      ensures (accounts, ok) == ApplyAttribution(old(BookView()), e, order)
    {
      hide Commit, Split, Pending;
      var pending := PendingTotals(e, shares);
      ghost var m := accounts;
      ghost var taken: seq<u64> := [];
      var rest := pending.Keys;
      ok := true;
      while rest != {}
        invariant rest <= pending.Keys && IsOrder(taken, pending.Keys - rest)
        invariant CommitAll(m, pending, taken, |taken|) == (accounts, true)
        decreases rest
      {
        var a :| a in rest;
        ghost var longer := taken + [a];
        ghost var n := |taken|;
        TakeNext(taken, pending.Keys, rest, a);
        CommitDependsOnPrefix(m, pending, taken, longer, n);
        if a !in accounts {
          accounts := accounts[a := pending[a]];
        } else {
          var x, good := CommitInPlace(accounts[a], pending[a]);
          accounts := accounts[a := x];
          ok := good;
        }
        assert CommitAll(m, pending, longer, n + 1) == (accounts, ok);
        taken := longer;
        if !ok {
          order := CompleteOrder(taken, pending.Keys, rest - {a});
          CommitDependsOnPrefix(m, pending, taken, order, n + 1);
          CommitFailureSticks(m, pending, order, n + 1, |order|);
          return;
        }
        rest := rest - {a};
      }
      order := taken;
    }

    method PushHistory(e: Entry)
      modifies this`history, this`index
      ensures BookView() == Logged(old(BookView()), e)
    {
      history := history + [e];
      index := index[e.id := |history| - 1];
    }

    /** `apply_reclassify_locked`. */
    method ApplyRevision(r: Entry) returns (code: Code)
      requires Valid()
      modifies this`accounts, this`history, this`index
      ensures (BookView(), code) == ApplyReclassify(old(BookView()), r)
    {
      hide Split, MoveShares, Logged;
      if r.target.None? {
        return InvalidInput;
      }
      if r.target.value !in index {
        return InvalidInput;
      }
      var t := history[index[r.target.value]];
      if IsConsumption(t.classification) != IsConsumption(r.classification) {
        return InvalidInput;
      }
      if IsConsumption(t.classification) {
        var ok := MoveAll(t, r.classification);
        if !ok {
          return ReconciliationFailure;
        }
      }
      PushHistory(r);
      return Ok;
    }

    /** The loop over the target's shares. Its second failure return, a bucket that
        overflows, is dead. */
    method MoveAll(t: Entry, cls: Byte) returns (ok: bool)
      requires AllWithin(accounts) && IsConsumption(t.classification) && IsConsumption(cls)
      modifies this`accounts
      ensures (accounts, ok) == ApplyMoves(old(accounts), t, cls)
    {
      hide Split, MoveOut, MoveIn, Aggregate.Within;
      var shares := ComputeAttribution(t);
      ghost var c, c' := ClassOf(t.classification), ClassOf(cls);
      var from, to := Bucket(ClassOf(t.classification)), Bucket(ClassOf(cls));
      ghost var m := accounts;
      ok := true;
      var n := 0;
      while n < |shares|
        invariant 0 <= n <= |shares|
        invariant MoveShares(m, from, to, shares, n) == (accounts, true)
        invariant ok
      {
        MovesKeepWithin(m, c, c', shares, n);
        var sh := shares[n];
        if sh.account in accounts {
          var x, good := MoveOutInPlace(accounts[sh.account], from, sh.physical);
          if good {
            MoveInNeverOverflows(accounts[sh.account], c, c', sh.physical);
            x, good := MoveInInPlace(x, to, sh.physical);
            if !good {
              assert false;
            }
          }
          accounts := accounts[sh.account := x];
          ok := good;
        }
        assert MoveShares(m, from, to, shares, n + 1) == (accounts, ok);
        if !ok {
          MoveFailureSticks(m, from, to, shares, n + 1, |shares|);
          return;
        }
        n := n + 1;
      }
    }

    /** The bookkeeping after a committed ordinary entry. */
    method RecordEntry(e: Entry)
      modifies this`transferCompleted, this`reservationReleased, this`allocationReleased, this`recoveryCompleted,
               this`attempts, this`history, this`index
      ensures BookView() == Recorded(old(BookView()), e, accounts)
    {
      hide Pass, RecordAttempt;
      RecordGates(e);
      RecordAttemptState(e);
      PushHistory(e);
    }

    method RecordGates(e: Entry)
      modifies this`transferCompleted, this`reservationReleased, this`allocationReleased, this`recoveryCompleted
      ensures transferCompleted == Pass(old(BookView()), e, Transfer)
      ensures reservationReleased == Pass(old(BookView()), e, Reservation)
      ensures allocationReleased == Pass(old(BookView()), e, Allocation)
      ensures recoveryCompleted == Pass(old(BookView()), e, Recovery)
    {
      if e.event == TRANSFER_COMPLETED && e.owners.transfer != 0 {
        transferCompleted := transferCompleted + {e.owners.transfer};
      }
      if e.event == RESERVATION_RELEASED && e.owners.reservation != 0 {
        reservationReleased := reservationReleased + {e.owners.reservation};
      }
      if e.event == ALLOCATION_RELEASED && e.owners.allocation != 0 {
        allocationReleased := allocationReleased + {e.owners.allocation};
      }
      if (e.event == RECOVERY_COMPLETED || e.event == RECOVERY_FAILED) && e.owners.recovery != 0 {
        recoveryCompleted := recoveryCompleted + {e.owners.recovery};
      }
    }

    method RecordAttemptState(e: Entry)
      modifies this`attempts
      ensures attempts == RecordAttempt(old(attempts), e)
    {
      if e.HasAttempt() {
        var st := if e.attempt.id in attempts then attempts[e.attempt.id] else FRESH_ATTEMPT;
        if e.HasOutcome() {
          st := st.(outcome := e.outcome, generation := e.attempt.generation, authoritative := true);
        }
        if e.fences.publication != 0 && (st.lastPublication == 0 || e.fences.publication > st.lastPublication) {
          st := st.(lastPublication := e.fences.publication);
        }
        attempts := attempts[e.attempt.id := st];
      }
    }

    /** `append_locked`. */
    method AppendEntry(e: Entry) returns (code: Code, ghost order: seq<u64>)
      requires Valid()
      modifies this`accounts, this`history, this`index, this`attempts,
               this`transferCompleted, this`reservationReleased, this`allocationReleased, this`recoveryCompleted
      ensures OrderFor(e, order)
      ensures (BookView(), code) == AppendLocked(old(View()), e, order)
      ensures Valid()
    {
      hide Entry.Valid, Authorized, Split, ApplyReclassify, Recorded, ApplyAttribution, Consistency, GatesOpen, AllWithin;
      order := OrderOf(e);
      ghost var s := View();
      if shuttingDown { return ShuttingDown, order; }
      var valid := IsValid(e);
      if !valid { return InvalidInput, order; }
      if e.IsRevision() {
        code := AppendRevisionEntry(e);
        IndexAfterRevision(s, e, BookView());
        AppendWithin(s, e, order);
        return;
      }
      if e.id in index { return DuplicateEntry, order; }
      var consistent := CheckConsistency(e);
      if consistent != Ok { return consistent, order; }
      var authorized := CheckAuthority(e);
      if !authorized { return StaleAuthority, order; }
      var gates := CheckGates(e);
      if !gates { return DuplicateEntry, order; }
      var shares := ComputeAttribution(e);
      var ok;
      ok, order := ApplyPending(e, shares);
      AppendWithin(s, e, order);
      if !ok { return OverflowError, order; }
      ghost var b := BookView();
      RecordEntry(e);
      RecordedAccounts(s.book, b, e, accounts);
      IndexAfterRecord(s.book, e, accounts, BookView());
      code := Ok;
    }

    method AppendRevisionEntry(e: Entry) returns (code: Code)
      requires Valid()
      modifies this`accounts, this`history, this`index
      ensures (BookView(), code) == AppendRevision(old(View()), e)
    {
      hide Entry.Valid, Authorized, ApplyReclassify;
      if e.id in index { return DuplicateEntry; }
      var zero := IsZeroUsage(e.usage);
      if !zero { return InvalidInput; }
      var authorized := CheckAuthority(e);
      if !authorized { return StaleAuthority; }
      code := ApplyRevision(e);
    }

    method CheckGates(e: Entry) returns (ok: bool)
      ensures ok == GatesOpen(BookView(), e)
    {
      if e.event == TRANSFER_COMPLETED && e.owners.transfer != 0 && e.owners.transfer in transferCompleted { return false; }
      if e.event == RESERVATION_RELEASED && e.owners.reservation != 0 && e.owners.reservation in reservationReleased { return false; }
      if e.event == ALLOCATION_RELEASED && e.owners.allocation != 0 && e.owners.allocation in allocationReleased { return false; }
      if (e.event == RECOVERY_COMPLETED || e.event == RECOVERY_FAILED) && e.owners.recovery != 0
         && e.owners.recovery in recoveryCompleted { return false; }
      return true;
    }

    /** `reclassify`, lookup and append in one step. */
    method ReclassifyEntry(q: ReclassifyRequest) returns (code: Code)
      requires Valid()
      modifies this`accounts, this`history, this`index, this`attempts,
               this`transferCompleted, this`reservationReleased, this`allocationReleased, this`recoveryCompleted
      ensures Valid()
      ensures (BookView(), code) == AppendLocked(old(View()), RevisionOf(old(BookView()), q), [])
    {
      hide Entry.Valid, AppendRevision, AppendOrdinary;
      var rev := BLANK.(id := q.revisionId, event := RECLASSIFY, classification := q.newClassification,
                        subcategory := q.newSubcategory, provenance := q.provenance, fences := q.fences,
                        target := Some(q.target), note := q.note);
      if q.target in index {
        var t := history[index[q.target]];
        rev := rev.(account := if t.account != 0 then t.account else RESIDUAL_ACCOUNT, attempt := t.attempt);
      }
      ghost var order;
      code, order := AppendEntry(rev);
    }

    // ----- replay and persistence -----

    method Clear()
      modifies this`accounts, this`history, this`index, this`attempts,
               this`transferCompleted, this`reservationReleased, this`allocationReleased, this`recoveryCompleted
      ensures BookView() == EMPTY_BOOK && Valid()
    {
      history, index, accounts, attempts := [], map[], map[], map[];
      transferCompleted, reservationReleased, allocationReleased, recoveryCompleted := {}, {}, {}, {};
    }

    /** The loop shared by `append` of a vector and `load_history`. */
    method AppendEach(entries: seq<Entry>) returns (code: Code, ghost orders: seq<seq<u64>>)
      requires Valid()
      modifies this`accounts, this`history, this`index, this`attempts,
               this`transferCompleted, this`reservationReleased, this`allocationReleased, this`recoveryCompleted
      ensures Valid() && OrdersFor(entries, orders)
      ensures (BookView(), code) == AppendMany(old(Auth()), old(BookView()), entries, orders, |entries|)
    {
      hide AppendLocked, AppendMany, OrderFor, OrdersFor;
      ghost var auth, b := Auth(), BookView();
      orders := OrdersOf(auth, b, entries);
      code := Ok;
      var n := 0;
      while n < |entries|
        invariant 0 <= n <= |entries| && Valid() && Auth() == auth
        invariant |orders| == |entries| && OrdersFor(entries, orders) && code == Ok
        invariant AppendMany(auth, b, entries, orders, n) == (BookView(), Ok)
      {
        ghost var order;
        code, order := AppendEntry(entries[n]);
        ghost var next := orders[n := order];
        ManyWithOrder(auth, b, entries, orders, next, n);
        orders := next;
        if code != Ok {
          ManyFailureSticks(auth, b, entries, orders, n + 1, |entries|);
          return;
        }
        n := n + 1;
      }
    }

    /** `load_history`. */
    method LoadEntries(entries: seq<Entry>) returns (code: Code, ghost orders: seq<seq<u64>>)
      modifies this
      ensures Valid() && OrdersFor(entries, orders)
      ensures (View(), code) == LoadHistory(old(View()), entries, orders)
    {
      hide AppendMany, OrderFor;
      Clear();
      replaying := true;
      code, orders := AppendEach(entries);
      replaying := false;
    }

    /** `save_to_string`. */
    method SaveToString(crc: Engine) returns (out: seq<Byte>)
      requires crc.Valid()
      modifies crc`built, crc.table
      ensures crc.Valid()
      ensures out == SaveImage(View())
    {
      hide PutU32, PutU64, EntryBytes, Crc, WordBytes;
      var head := MAGIC + (PutU32(FORMAT_VERSION) + (PutU64(ledgerId) + (PutU64(epoch) + (PutU64(ledgerGeneration) +
                  (PutU64(accountGeneration) + (PutU64(|history|) + []))))));
      out := head;
      var i := 0;
      while i < |history|
        invariant 0 <= i <= |history|
        invariant crc.Valid() && out == head + HistoryBytes(history[..i])
      {
        assert history[..i + 1][..i] == history[..i];
        Regroup(head, HistoryBytes(history[..i]), EntryBytes(history[i]));
        out := EncodeEntry(history[i], out);
        i := i + 1;
      }
      assert history[..|history|] == history;
      HeaderLength(HeaderOf(Auth()), |history|, HistoryBytes(history));
      assert out == Payload(HeaderOf(Auth()), history);
      var sum := crc.Compute(out, Word(0));
      out := out + WordBytes(sum.bits);
    }

    /** `load_from_string`: nothing is touched before the bytes have parsed. */
    method LoadFromString(crc: Engine, bytes: seq<Byte>) returns (code: Code, ghost orders: seq<seq<u64>>)
      requires Valid() && crc.Valid()
      modifies this, crc`built, crc.table
      ensures Valid() && crc.Valid()
      ensures OrdersForImage(bytes, orders)
      ensures (View(), code) == LoadImage(old(View()), bytes, orders)
    {
      hide ParseImage, AppendMany, OrderFor;
      orders := [];
      var parsed, h, entries := ParseBytes(crc, bytes);
      if !parsed {
        return PersistenceCorrupt, orders;
      }
      AdoptHeader(h);
      code, orders := LoadEntries(entries);
      if code != Ok {
        code := PersistenceCorrupt;
      }
    }

    method AdoptHeader(h: Header)
      modifies this
      ensures View() == State(Adopt(old(Auth()), h), EMPTY_BOOK)
    {
      ledgerId, epoch := h.ledgerId, h.epoch;
      ledgerGeneration, accountGeneration := h.ledgerGeneration, h.accountGeneration;
      shuttingDown, epochAdvanced := false, false;
      Clear();
    }

    // ----- views -----

    /** `reconcile`. */
    method Report() returns (r: Reconcile.Report)
      ensures r.entryCount == |history| && |r.perDimension| == DIMS
      ensures forall d: nat :: d < DIMS ==>
                (r.perDimension[d] <==> forall a :: a in accounts ==> Reconcile.ClosesWrapped(accounts[a], d))
      ensures r.closed <==> forall d: nat, a :: d < DIMS && a in accounts ==> Reconcile.ClosesWrapped(accounts[a], d)
      ensures |r.physical| == |r.classified| == |r.avoided| == |r.stranded| == |r.unclassified| == DIMS
      ensures forall d: nat :: d < DIMS ==>
                && r.physical[d] == Reconcile.Wrap(Reconcile.Grand(accounts, accounts.Keys, Reconcile.Row(PHYSICAL), d))
                && r.classified[d] == Reconcile.Wrap(Reconcile.Grand(accounts, accounts.Keys, Reconcile.Classified, d))
                && r.avoided[d] == Reconcile.Wrap(Reconcile.Grand(accounts, accounts.Keys, Reconcile.Row(Quantity(Avoided)), d))
                && r.stranded[d] == Reconcile.Wrap(Reconcile.Grand(accounts, accounts.Keys, Reconcile.Row(Quantity(Stranded)), d))
                && Reconcile.Wrap(r.unclassified[d] as int + r.classified[d] as int) == r.physical[d]
    {
      r := Reconcile.Reconcile(accounts, |history|);
    }

    method ComputeDigest() returns (value: u64)
      ensures value == Digest.HistoryDigest(history)
    {
      hide EntryBytes, Digest.Mix, Digest.MixBytes, PutU64;
      var h := new Digest.HashAccumulator();
      h.MixIn(MAGIC);
      h.MixIn(PutU64(FORMAT_VERSION));
      h.MixIn(PutU64(|history|));
      var i := 0;
      ghost var start := h.state;
      while i < |history|
        invariant 0 <= i <= |history|
        invariant h.state == Digest.DigestEntries(start, history[..i])
      {
        assert history[..i + 1][..i] == history[..i];
        var encoded := EncodeEntry(history[i], []);
        assert encoded == EntryBytes(history[i]);
        h.MixIn(encoded);
        i := i + 1;
      }
      assert history[..|history|] == history;
      value := h.state;
    }
  }

  method IsValid(e: Entry) returns (ok: bool)
    ensures ok == e.Valid()
  {
    if e.shared.Some? {
      var s := SharedValid(e.shared.value);
      if !s { return false; }
    }
    ok := e.id != 0 && e.event <= RECLASSIFY && e.classification <= UNKNOWN && e.provenance <= PROVENANCE_LAST
          && e.freshness <= FRESHNESS_LAST && e.outcome <= OUTCOME_LAST
          && (e.HasOutcome() ==> e.attempt.id != 0) && (e.account != 0 || e.shared.Some?);
  }

  method IsZeroUsage(u: Dims) returns (zero: bool)
    ensures zero == IsZero(u)
  {
    var d := 0;
    while d < DIMS
      invariant 0 <= d <= DIMS && forall c :: 0 <= c < d ==> u[c] == 0
    {
      if u[d] != 0 { return false; }
      d := d + 1;
    }
    return true;
  }

  /** `check_classification_consistency`. */
  method CheckConsistency(e: Entry) returns (code: Code)
    ensures code == Consistency(e)
  {
    var zero := IsZeroUsage(e.usage);
    if e.classification == AVOIDED_WORK {
      if !zero { return InvalidInput; }
      if e.avoidedWork.None? { return InvalidInput; }
    } else if e.classification == STRANDED_CAPACITY {
      if !zero { return InvalidInput; }
      if e.strandedCapacity.None? { return InvalidInput; }
    } else if IsConsumption(e.classification) {
      if e.avoidedWork.Some? || e.strandedCapacity.Some? { return InvalidInput; }
      if e.classification == USEFUL {
        var reuse := e.event == CACHE_HIT || e.event == STATE_REUSED || e.event == CHECKPOINT_RESTORED;
        if e.fences.publication == 0 && !reuse { return NotAuthoritative; }
      }
    }
    return Ok;
  }

  /** The first half of `load_from_string`: checksum, header and entries. */
  method ParseBytes(crc: Engine, bytes: seq<Byte>) returns (ok: bool, h: Header, entries: seq<Entry>)
    requires crc.Valid()
    modifies crc`built, crc.table
    ensures crc.Valid()
    ensures ParseImage(bytes) == if ok then Some((h, entries)) else None
  {
    hide Crc, WordBytes, ReadHeader, DecodeMany;
    ok, h, entries := false, Header(0, 0, 0, 0), [];
    if |bytes| < HEADER_LENGTH + FOOTER_LENGTH {
      return;
    }
    var end := |bytes| - FOOTER_LENGTH;
    var sum := crc.Compute(bytes[..end], Word(0));
    if bytes[end..] != WordBytes(sum.bits) {
      return;
    }
    var header := ReadHeader(bytes[..end]);
    if header.Fail? || header.value.1 > MAX_ENTRIES {
      return;
    }
    var pos;
    ok, entries, pos := DecodeEntries(bytes, header.value.1);
    ok, h := ok && pos == end, header.value.0;
  }

  /** The decode loop of `load_from_string`. */
  method DecodeEntries(bytes: seq<Byte>, count: nat) returns (ok: bool, entries: seq<Entry>, pos: nat)
    requires HEADER_LENGTH <= |bytes|
    ensures ok == DecodeMany(bytes, HEADER_LENGTH, count).GoodMany?
    ensures ok ==> DecodeMany(bytes, HEADER_LENGTH, count) == GoodMany(entries, pos)
  {
    hide Decode;
    ok, entries, pos := true, [], HEADER_LENGTH;
    var i := 0;
    while i < count
      invariant 0 <= i <= count && pos <= |bytes| && ok
      invariant DecodeMany(bytes, HEADER_LENGTH, i) == GoodMany(entries, pos)
    {
      CleanTarget(BLANK);
      var good, e, end := DecodeEntry(bytes, pos, BLANK);
      if !good {
        DecodeFailureSticks(bytes, i + 1, count);
        return false, entries, pos;
      }
      entries, pos := entries + [e], end;
      assert DecodeMany(bytes, HEADER_LENGTH, i + 1) == GoodMany(entries, pos);
      i := i + 1;
    }
  }

  lemma {:induction false} DecodeFailureSticks(bytes: seq<Byte>, n: nat, k: nat)
    requires HEADER_LENGTH <= |bytes| && n <= k && DecodeMany(bytes, HEADER_LENGTH, n).BadMany?
    ensures DecodeMany(bytes, HEADER_LENGTH, k).BadMany?
    decreases k
  {
    hide Decode;
    if n < k {
      DecodeFailureSticks(bytes, n, k - 1);
    }
  }

  lemma RecordedAccounts(b: Book, c: Book, e: Entry, m: AccountMap)
    requires c == b.(accounts := m)
    ensures Recorded(c, e, m) == Recorded(b, e, m)
  {
    assert forall g :: c.Passed(g) == b.Passed(g);
  }

  lemma IndexAfterRecord(b: Book, e: Entry, m: AccountMap, b': Book)
    requires b' == Recorded(b, e, m) && forall id :: id in b.index ==> b.index[id] < |b.history|
    ensures forall id :: id in b'.index ==> b'.index[id] < |b'.history|
  {
  }

  lemma IndexAfterRevision(s: State, e: Entry, b': Book)
    requires b' == AppendRevision(s, e).0 && forall id :: id in s.book.index ==> s.book.index[id] < |s.book.history|
    ensures forall id :: id in b'.index ==> b'.index[id] < |b'.history|
  {
    hide Authorized, ApplyMoves;
  }
}
