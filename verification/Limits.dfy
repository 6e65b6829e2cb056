/** Where the ledger keeps less than its documentation says, and exactly when it
    does keep it: for each promise the condition under which the code meets it, and
    a run that shows the condition is needed. */
module Limits {
  import opened Bytes
  import opened Entries
  import opened Attribution
  import opened Aggregates
  import opened Moves
  import opened Ledger
  import opened Identity
  import opened Totals
  import opened Runs

  // ---------- is a rejected append without effect? ----------

  function CellAt(x: Aggregate, i: nat): u64
    requires i < 7 * DIMS
  {
    x.At(FIELDS[i % 7], i / 7)
  }

  ghost predicate Nothing(x: Aggregate)
  {
    forall f, d: nat :: d < DIMS ==> x.At(f, d) == 0
  }

  /** The commit stops at cell `i` of account `order[k]` and has added nothing before. */
  ghost predicate StopsUnmarked(m: AccountMap, pend: AccountMap, order: seq<u64>, k: nat, i: nat)
    requires forall a :: a in order ==> a in pend
  {
    && k < |order| && i < 7 * DIMS && order[k] in m && FullAt(m[order[k]], pend[order[k]], i)
    && (forall j: nat :: j < i ==> CellAt(pend[order[k]], j) == 0)
    && (forall j: nat :: j < k ==> order[j] in m && Nothing(pend[order[j]]))
  }

  ghost predicate LeavesNoMark(m: AccountMap, pend: AccountMap, order: seq<u64>)
    requires forall a :: a in order ==> a in pend
  {
    exists k: nat, i: nat :: StopsUnmarked(m, pend, order, k, i)
  }

  lemma NothingToCommit(dst: Aggregate, add: Aggregate)
    requires Nothing(add)
    ensures Commit(dst, add) == (dst, true)
  {
    var n := CommitShape(dst, add, 7 * DIMS);
    SameCells(Commit(dst, add).0, dst);
  }

  lemma NeverPastFull(dst: Aggregate, add: Aggregate, x: Aggregate, n: nat, i: nat)
    requires i < 7 * DIMS && AddedUpTo(dst, add, x, n) && FullAt(dst, add, i)
    ensures n <= i
  {
    PlaceOfCell(i);
    var v := x.At(FIELDS[i % 7], i / 7);
  }

  lemma UnmarkedAccount(dst: Aggregate, add: Aggregate, i: nat)
    requires i < 7 * DIMS
    ensures FullAt(dst, add, i) && (forall j: nat :: j < i ==> CellAt(add, j) == 0) ==> Commit(dst, add) == (dst, false)
  {
    if FullAt(dst, add, i) && forall j: nat :: j < i ==> CellAt(add, j) == 0 {
      var n := CommitShape(dst, add, 7 * DIMS);
      var x := Commit(dst, add).0;
      NeverPastFull(dst, add, x, n, i);
      forall j: nat | j < i ensures !FullAt(dst, add, j) {
        assert CellAt(add, j) == 0;
      }
      forall f, d: nat | d < DIMS ensures x.At(f, d) == dst.At(f, d) {
        if Place(f, d) < n {
          PlaceOfCell(Place(f, d));
          assert CellAt(add, Place(f, d)) == add.At(f, d);
        }
      }
      SameCells(x, dst);
    }
  }

  lemma UnmarkedAccountStops(dst: Aggregate, add: Aggregate) returns (i: nat)
    requires Commit(dst, add) == (dst, false)
    ensures i < 7 * DIMS && FullAt(dst, add, i) && forall j: nat :: j < i ==> CellAt(add, j) == 0
  {
    i := CommitShape(dst, add, 7 * DIMS);
    forall j: nat | j < i ensures CellAt(add, j) == 0 {
      PlaceOfCell(j);
      assert dst.At(FIELDS[j % 7], j / 7) as int == dst.At(FIELDS[j % 7], j / 7) as int + CellAt(add, j) as int;
    }
  }

  lemma {:induction false} UnmarkedPrefix(m: AccountMap, pend: AccountMap, order: seq<u64>, k: nat)
    requires k <= |order| && forall a :: a in order ==> a in pend
    requires forall j: nat :: j < k ==> order[j] in m && Nothing(pend[order[j]])
    ensures CommitAll(m, pend, order, k) == (m, true)
  {
    hide Commit, Nothing;
    if k > 0 {
      UnmarkedPrefix(m, pend, order, k - 1);
      var a := order[k - 1];
      assert a in order;
      NothingToCommit(m[a], pend[a]);
      assert m[a := m[a]] == m;
    }
  }

  lemma {:induction false} FirstFailure(m: AccountMap, pend: AccountMap, order: seq<u64>, n: nat) returns (k: nat)
    requires n <= |order| && (forall a :: a in order ==> a in pend) && !CommitAll(m, pend, order, n).1
    ensures k < n && CommitAll(m, pend, order, k).1 && !CommitAll(m, pend, order, k + 1).1
  {
    hide CommitAccount;
    if CommitAll(m, pend, order, n - 1).1 {
      k := n - 1;
    } else {
      k := FirstFailure(m, pend, order, n - 1);
    }
  }

  /** An overflowing commit leaves the accounts as they were exactly when it stops
      before adding anything. */
  lemma OverflowLeavesNoMarkIff(m: AccountMap, pend: AccountMap, order: seq<u64>)
    requires IsOrder(order, pend.Keys)
    ensures CommitAll(m, pend, order, |order|) == (m, false) <==> LeavesNoMark(m, pend, order)
  {
    hide StopsUnmarked;
    if LeavesNoMark(m, pend, order) {
      var k: nat, i: nat :| StopsUnmarked(m, pend, order, k, i);
      UnmarkedStop(m, pend, order, k, i);
    }
    if CommitAll(m, pend, order, |order|) == (m, false) {
      var k, i := UnmarkedStopExists(m, pend, order);
    }
  }

  lemma UnmarkedStop(m: AccountMap, pend: AccountMap, order: seq<u64>, k: nat, i: nat)
    requires (forall a :: a in order ==> a in pend) && StopsUnmarked(m, pend, order, k, i)
    ensures CommitAll(m, pend, order, |order|) == (m, false)
  {
    hide Commit, FullAt, Nothing;
    UnmarkedPrefix(m, pend, order, k);
    var a := order[k];
    UnmarkedAccount(m[a], pend[a], i);
    assert m[a := m[a]] == m;
    CommitFailureSticks(m, pend, order, k + 1, |order|);
  }

  lemma UnmarkedStopExists(m: AccountMap, pend: AccountMap, order: seq<u64>) returns (k: nat, i: nat)
    requires IsOrder(order, pend.Keys) && CommitAll(m, pend, order, |order|) == (m, false)
    ensures StopsUnmarked(m, pend, order, k, i)
  {
    hide Commit, FullAt, FitsAt, Nothing;
    k := FirstFailure(m, pend, order, |order|);
    CommitFailureSticks(m, pend, order, k + 1, |order|);
    CommitPrefix(m, pend, order, k);
    var a := order[k];
    assert a in order;
    var m1 := CommitAll(m, pend, order, k).0;
    TakeOne(order, k + 1);
    var (x, _) := Commit(m1[a], pend[a]);
    assert m1[a := x] == m;
    AddedNothing(m, pend, Taken(order, k), m1, a, x);
    i := UnmarkedAccountStops(m[a], pend[a]);
    forall j: nat | j < k ensures order[j] in m && Nothing(pend[order[j]]) {
      assert order[j] == order[..k][j];
      assert order[j] in Taken(order, k);
    }
  }

  lemma AddedNothing(m: AccountMap, pend: AccountMap, done: set<u64>, m1: AccountMap, a: u64, x: Aggregate)
    requires AddedSome(m, pend, done, m1) && a !in done && a in m1 && m1[a := x] == m && done <= pend.Keys
    ensures a in m && m1[a] == m[a] && x == m[a]
    ensures forall b :: b in done ==> b in m && Nothing(pend[b])
  {
    assert m1[a := x].Keys == m.Keys;
    forall f, d: nat | d < DIMS ensures m1[a].At(f, d) == m[a].At(f, d) {
      assert Cell(m1, a, f, d) == Cell(m, a, f, d);
    }
    SameCells(m1[a], m[a]);
    forall b | b in done ensures b in m && Nothing(pend[b]) {
      assert m1[b] == m[b];
      forall f, d: nat | d < DIMS ensures pend[b].At(f, d) == 0 {
        assert Cell(m1, b, f, d) as int == Cell(m, b, f, d) as int + Cell(pend, b, f, d) as int;
      }
    }
  }

  /** A rejected append is without effect exactly when it did not overflow after its
      first addition (and did not fail in the moves of a revision, see below). */
  lemma OverflowIsAtomicIff(s: State, e: Entry, order: seq<u64>)
    requires OrderFor(e, order) && AppendLocked(s, e, order).1 == OverflowError
    ensures !e.IsRevision() && (forall a :: a in order ==> a in PendingMap(e))
    ensures AppendLocked(s, e, order).0 == s.book <==> LeavesNoMark(s.book.accounts, PendingMap(e), order)
  {
    hide Entry.Valid, Authorized, GatesOpen, CommitAll, ApplyMoves, LeavesNoMark;
    assert PendingMap(e).Keys == ChargedAccounts(e);
    OverflowLeavesNoMarkIff(s.book.accounts, PendingMap(e), order);
    var (m, ok) := ApplyAttribution(s.book, e, order);
    assert !ok && AppendLocked(s, e, order).0 == s.book.(accounts := m);
    assert s.book.(accounts := m) == s.book <==> m == s.book.accounts;
  }

  /** The first cell that adds anything is full. */
  ghost predicate FullAtFirst(dst: Aggregate, add: Aggregate)
  {
    exists i: nat :: i < 7 * DIMS && FullAt(dst, add, i) && forall j: nat :: j < i ==> CellAt(add, j) == 0
  }

  /** Every charged account is known and either adds nothing or is full at its first
      nonzero cell, and at least one is full. */
  ghost predicate AllUnmarked(m: AccountMap, pend: AccountMap)
  {
    && (forall a :: a in pend ==> a in m && (Nothing(pend[a]) || FullAtFirst(m[a], pend[a])))
    && exists a :: a in pend && a in m && FullAtFirst(m[a], pend[a])
  }

  lemma {:induction false} FirstFull(m: AccountMap, pend: AccountMap, order: seq<u64>, n: nat) returns (k: nat)
    requires n < |order| && (forall a :: a in order ==> a in pend) && AllUnmarked(m, pend)
    requires forall j: nat :: j < n ==> Nothing(pend[order[j]])
    requires exists j :: n <= j < |order| && FullAtFirst(m[order[j]], pend[order[j]])
    ensures k < |order| && FullAtFirst(m[order[k]], pend[order[k]]) && forall j: nat :: j < k ==> Nothing(pend[order[j]])
    decreases |order| - n
  {
    hide FullAtFirst, Nothing;
    if FullAtFirst(m[order[n]], pend[order[n]]) {
      k := n;
    } else {
      assert order[n] in order;
      k := FirstFull(m, pend, order, n + 1);
    }
  }

  lemma UnmarkedInOrder(m: AccountMap, pend: AccountMap, order: seq<u64>)
    requires IsOrder(order, pend.Keys) && AllUnmarked(m, pend)
    ensures CommitAll(m, pend, order, |order|) == (m, false)
  {
    hide CommitAll, Nothing, FullAt;
    var a :| a in pend && a in m && FullAtFirst(m[a], pend[a]);
    assert a in order;
    var at :| 0 <= at < |order| && order[at] == a;
    var k := FirstFull(m, pend, order, 0);
    var i: nat :| i < 7 * DIMS && FullAt(m[order[k]], pend[order[k]], i) && forall j: nat :: j < i ==> CellAt(pend[order[k]], j) == 0;
    forall j: nat | j < k ensures order[j] in m { assert order[j] in order; }
    assert order[k] in order;
    UnmarkedStop(m, pend, order, k, i);
  }

  /** With account `a` walked first, an unmarked stop says what `a` is like. */
  lemma FirstInOrder(m: AccountMap, pend: AccountMap, order: seq<u64>)
    requires IsOrder(order, pend.Keys) && order != [] && CommitAll(m, pend, order, |order|) == (m, false)
    ensures order[0] in pend && order[0] in m && (Nothing(pend[order[0]]) || FullAtFirst(m[order[0]], pend[order[0]]))
    ensures exists a :: a in pend && a in m && FullAtFirst(m[a], pend[a])
  {
    hide CommitAll, Nothing, FullAt;
    assert order[0] in order;
    var k, i := UnmarkedStopExists(m, pend, order);
    assert order[k] in order && FullAtFirst(m[order[k]], pend[order[k]]);
  }

  lemma PutFirst(keys: set<u64>, a: u64) returns (order: seq<u64>)
    requires a in keys
    ensures IsOrder(order, keys) && order != [] && order[0] == a
  {
    var rest := ListOf(keys - {a});
    order := [a] + rest;
    assert forall x :: x in order <==> x == a || x in rest;
  }

  /** Whatever the walk: an overflowing commit leaves the accounts as they were for
      every order exactly when no charged account can be marked. */
  lemma OverflowLeavesNoMarkInAnyOrderIff(m: AccountMap, pend: AccountMap)
    ensures (forall order :: IsOrder(order, pend.Keys) ==> CommitAll(m, pend, order, |order|) == (m, false))
            <==> AllUnmarked(m, pend)
  {
    hide CommitAll, Nothing, FullAtFirst;
    if AllUnmarked(m, pend) {
      forall order | IsOrder(order, pend.Keys) ensures CommitAll(m, pend, order, |order|) == (m, false) {
        UnmarkedInOrder(m, pend, order);
      }
    }
    if forall order :: IsOrder(order, pend.Keys) ==> CommitAll(m, pend, order, |order|) == (m, false) {
      SomebodyIsCharged(m, pend, ListOf(pend.Keys));
      forall a | a in pend ensures a in m && (Nothing(pend[a]) || FullAtFirst(m[a], pend[a])) {
        var order := PutFirst(pend.Keys, a);
        FirstInOrder(m, pend, order);
      }
      FirstInOrder(m, pend, ListOf(pend.Keys));
    }
  }

  lemma SomebodyIsCharged(m: AccountMap, pend: AccountMap, order: seq<u64>)
    requires IsOrder(order, pend.Keys) && CommitAll(m, pend, order, |order|) == (m, false)
    ensures order != []
  {
  }

  /** An append that overflows is without effect, however the hash table is walked,
      exactly when no charged account can be marked. A caller can check it. */
  lemma OverflowIsAtomicInAnyOrderIff(s: State, e: Entry, some: seq<u64>)
    requires OrderFor(e, some) && AppendLocked(s, e, some).1 == OverflowError
    ensures (forall order :: OrderFor(e, order) ==> AppendLocked(s, e, order) == (s.book, OverflowError))
            <==> AllUnmarked(s.book.accounts, PendingMap(e))
  {
    hide Entry.Valid, Authorized, GatesOpen, CommitAll, ApplyMoves, AllUnmarked;
    var pend := PendingMap(e);
    assert pend.Keys == ChargedAccounts(e);
    forall order | OrderFor(e, order)
      ensures AppendLocked(s, e, order) == (s.book, OverflowError)
              <==> CommitAll(s.book.accounts, pend, order, |order|) == (s.book.accounts, false)
    {
      var (m, ok) := ApplyAttribution(s.book, e, order);
      assert s.book.(accounts := m) == s.book <==> m == s.book.accounts;
    }
    OverflowLeavesNoMarkInAnyOrderIff(s.book.accounts, pend);
  }

  // ---------- does a revision go through? ----------

  /** A revision that is acceptable otherwise, first or not. */
  ghost predicate Acceptable(s: State, r: Entry, t: Entry)
  {
    && r.IsRevision() && r.target.Some? && s.book.Find(r.target.value) == Some(t)
    && IsConsumption(t.classification) && IsConsumption(r.classification)
    && !s.auth.shuttingDown && r.Valid() && r.id !in s.book.index && IsZero(r.usage) && Authorized(s, r)
  }

  /** It is refused for its bucket moves exactly when some bucket does not hold what
      the target once put there. */
  lemma RevisionFailsIff(s: State, r: Entry, t: Entry)
    requires AllWithin(s.book.accounts) && Acceptable(s, r, t)
    ensures AppendLocked(s, r, []).1 == ReconciliationFailure
            <==> !Backed(s.book.accounts, ClassOf(t.classification), ClassOf(r.classification), Split(t))
  {
    hide Entry.Valid, Authorized, MoveShares, Split, Backed, AllWithin;
    BackedMovesComplete(s.book.accounts, ClassOf(t.classification), ClassOf(r.classification), Split(t));
  }

  /** In every run, after overflows and failed revisions too: an otherwise acceptable
      revision fails exactly when a bucket is short, and never because the bucket it
      moves to would overflow. */
  lemma EveryRunRevisionFailsIff(id: u64, ops: Run, r: Entry, t: Entry)
    requires Acceptable(After(Initial(id), ops), r, t)
    ensures var s := After(Initial(id), ops);
            && (AppendLocked(s, r, []).1 == ReconciliationFailure
                <==> !Backed(s.book.accounts, ClassOf(t.classification), ClassOf(r.classification), Split(t)))
            && forall a, c, c', amount: Dims :: a in s.book.accounts && MoveOut(s.book.accounts[a], Bucket(c), amount, DIMS).1
                 ==> MoveIn(MoveOut(s.book.accounts[a], Bucket(c), amount, DIMS).0, Bucket(c'), amount, DIMS).1
  {
    hide After, AppendLocked, Backed, Split, MoveIn, MoveOut, Aggregate.Within, Surplus, Authorized, Entry.Valid;
    EveryRunIsGrounded(id, ops);
    var s := After(Initial(id), ops);
    RevisionFailsIff(s, r, t);
    forall a, c, c', amount: Dims | a in s.book.accounts && MoveOut(s.book.accounts[a], Bucket(c), amount, DIMS).1
      ensures MoveIn(MoveOut(s.book.accounts[a], Bucket(c), amount, DIMS).0, Bucket(c'), amount, DIMS).1
    {
      MoveInNeverOverflows(s.book.accounts[a], c, c', amount);
    }
  }

  // ---------- does a failed revision keep accounts closed? ----------

  /** Share `k` is the first to run short, in dimension `d`, and asks for nothing in
      the dimensions before `d`. */
  ghost predicate StopsClosed(m: AccountMap, c: Class, c': Class, s: seq<ShareOf>, k: nat, d: nat)
  {
    && ShortAt(m, c, c', s, k, d) && NeverShort(m, c, c', s, k)
    && forall j: nat :: j < d ==> s[k].physical[j] == 0
  }

  lemma {:induction false} FirstShort(m: AccountMap, c: Class, c': Class, s: seq<ShareOf>, n: nat) returns (k: nat)
    requires n <= |s| && !MoveShares(m, Bucket(c), Bucket(c'), s, n).1
    ensures k < n && MoveShares(m, Bucket(c), Bucket(c'), s, k).1 && !MoveShares(m, Bucket(c), Bucket(c'), s, k + 1).1
  {
    hide MoveShare;
    if MoveShares(m, Bucket(c), Bucket(c'), s, n - 1).1 {
      k := n - 1;
    } else {
      k := FirstShort(m, c, c', s, n - 1);
    }
  }

  lemma HalfMovedClosedIff(x: Aggregate, c: Class, amount: Dims, d: nat, y: Aggregate)
    requires x.Closed() && d < DIMS && OutUpTo(x, Bucket(c), amount, d, y)
    ensures y.Closed() <==> forall j: nat :: j < d ==> amount[j] == 0
  {
    hide OutUpTo;
    forall j: nat | j < DIMS ensures y.ClosedAt(j) <==> (j < d ==> amount[j] == 0) {
      assert x.ClosedAt(j);
      OutLowersClassified(x, c, amount, d, y, j);
    }
    if y.Closed() {
      forall j: nat | j < d ensures amount[j] == 0 { assert y.ClosedAt(j); }
    }
  }

  /** The accounts after a failed move stay closed exactly when the move stopped
      before taking anything of the share it stopped at. */
  lemma FailedMovesClosedIff(m: AccountMap, c: Class, c': Class, s: seq<ShareOf>)
    requires AllClosed(m) && !MoveShares(m, Bucket(c), Bucket(c'), s, |s|).1
    ensures AllClosed(MoveShares(m, Bucket(c), Bucket(c'), s, |s|).0)
            <==> exists k: nat, d: nat :: StopsClosed(m, c, c', s, k, d)
  {
    hide MoveShares, AllClosed, AllWithin, StopsClosed, NeverShort, ShortAt, OutUpTo;
    ClosedIsWithin(m);
    var k, d, y := TheStop(m, c, c', s);
    ClosedAfterStop(m, c, c', s, k, d, y);
    if exists k': nat, d': nat :: StopsClosed(m, c, c', s, k', d') {
      var k': nat, d': nat :| StopsClosed(m, c, c', s, k', d');
      OneStop(m, c, c', s, k, d, k', d');
    }
  }

  lemma ClosedAfterStop(m: AccountMap, c: Class, c': Class, s: seq<ShareOf>, k: nat, d: nat, y: Aggregate)
    requires AllClosed(m) && k < |s| && ShortAt(m, c, c', s, k, d) && NeverShort(m, c, c', s, k)
    requires var (m1, ok) := MoveShares(m, Bucket(c), Bucket(c'), s, k);
             ok && s[k].account in m1 && OutUpTo(m1[s[k].account], Bucket(c), s[k].physical, d, y)
    ensures AllClosed(MoveShares(m, Bucket(c), Bucket(c'), s, k).0[s[k].account := y]) <==> StopsClosed(m, c, c', s, k, d)
  {
    hide MoveShares, Held, Aggregate.Closed, OutUpTo;
    MovesKeepClosed(m, c, c', s, k);
    var m1 := MoveShares(m, Bucket(c), Bucket(c'), s, k).0;
    var a := s[k].account;
    HalfMovedClosedIff(m1[a], c, s[k].physical, d, y);
    if AllClosed(m1[a := y]) {
      assert m1[a := y][a].Closed();
    }
  }

  /** Everything about the stop: where it is and what it leaves. */
  lemma TheStop(m: AccountMap, c: Class, c': Class, s: seq<ShareOf>) returns (k: nat, d: nat, y: Aggregate)
    requires AllWithin(m) && !MoveShares(m, Bucket(c), Bucket(c'), s, |s|).1
    ensures k < |s| && d < DIMS && ShortAt(m, c, c', s, k, d) && NeverShort(m, c, c', s, k)
    ensures forall j: nat :: j < d ==> !ShortAt(m, c, c', s, k, j)
    ensures var (m1, ok) := MoveShares(m, Bucket(c), Bucket(c'), s, k);
            && ok && s[k].account in m1 && OutUpTo(m1[s[k].account], Bucket(c), s[k].physical, d, y)
            && MoveShares(m, Bucket(c), Bucket(c'), s, |s|).0 == m1[s[k].account := y]
  {
    hide Held, Aggregate.Within, MoveOut, MoveIn, OutUpTo;
    k := FirstShort(m, c, c', s, |s|);
    MoveFailureSticks(m, Bucket(c), Bucket(c'), s, k + 1, |s|);
    MovesCompleteIff(m, c, c', s, k);
    MovesKeepWithin(m, c, c', s, k);
    MovesTouchOnlyBuckets(m, Bucket(c), Bucket(c'), s, k);
    var m1 := MoveShares(m, Bucket(c), Bucket(c'), s, k).0;
    d := FirstShortDim(m, c, c', s, k, m1);
    y := MoveAggregate(m1[s[k].account], Bucket(c), Bucket(c'), s[k].physical).0;
  }

  lemma FirstShortDim(m: AccountMap, c: Class, c': Class, s: seq<ShareOf>, k: nat, m1: AccountMap) returns (d: nat)
    requires k < |s| && MoveShares(m, Bucket(c), Bucket(c'), s, k) == (m1, true)
    requires m1.Keys == m.Keys && AllWithin(m1) && !MoveShares(m, Bucket(c), Bucket(c'), s, k + 1).1
    ensures s[k].account in m1 && ShortAt(m, c, c', s, k, d) && forall j: nat :: j < d ==> !ShortAt(m, c, c', s, k, j)
    ensures var x, y := m1[s[k].account], MoveAggregate(m1[s[k].account], Bucket(c), Bucket(c'), s[k].physical).0;
            OutUpTo(x, Bucket(c), s[k].physical, d, y)
  {
    hide Held, Aggregate.Within, MoveOut, MoveIn;
    var a := s[k].account;
    var x := m1[a];
    var amount := s[k].physical;
    d := MoveOutShape(x, Bucket(c), amount, DIMS);
    if d == DIMS {
      MoveInNeverOverflows(x, c, c', amount);
    }
    forall j: nat | j < DIMS ensures x.At(Bucket(c), j) as int == Held(m, c, c', s, k, a, j) {
      HeldAfterMoves(m, c, c', s, k, a, j);
    }
    var y := MoveOut(x, Bucket(c), amount, DIMS).0;
    forall j: nat | j < d ensures !ShortAt(m, c, c', s, k, j) {
      assert y.At(Bucket(c), j) as int == x.At(Bucket(c), j) as int - amount[j] as int;
    }
  }

  lemma OneStop(m: AccountMap, c: Class, c': Class, s: seq<ShareOf>, k: nat, d: nat, k': nat, d': nat)
    requires ShortAt(m, c, c', s, k, d) && NeverShort(m, c, c', s, k)
    requires forall j: nat :: j < d ==> !ShortAt(m, c, c', s, k, j)
    requires StopsClosed(m, c, c', s, k', d')
    ensures k' == k && StopsClosed(m, c, c', s, k, d)
  {
    hide Held;
    assert k == k';
    assert d <= d';
  }

  /** The shares before `k` have had no net effect. */
  ghost predicate NothingMovedYet(m: AccountMap, c: Class, c': Class, s: seq<ShareOf>, k: nat)
    requires k <= |s|
  {
    c == c' || forall a, d: nat :: a in m && d < DIMS ==> GivenTo(s[..k], a, Physical, d) == 0
  }

  lemma UntouchedAccounts(m: AccountMap, c: Class, c': Class, s: seq<ShareOf>, k: nat)
    requires k <= |s| && MoveShares(m, Bucket(c), Bucket(c'), s, k).1 && NothingMovedYet(m, c, c', s, k)
    ensures MoveShares(m, Bucket(c), Bucket(c'), s, k).0 == m
  {
    hide MoveShares, GivenTo;
    CompletedMoves(m, Bucket(c), Bucket(c'), s, k);
    var m1 := MoveShares(m, Bucket(c), Bucket(c'), s, k).0;
    forall a | a in m ensures m1[a] == m[a] {
      forall f, d: nat | d < DIMS ensures m1[a].At(f, d) == m[a].At(f, d) {
        assert CellMoved(m, Bucket(c), Bucket(c'), s[..k], m1, a, f, d);
      }
      SameCells(m1[a], m[a]);
    }
  }

  lemma TouchedAccounts(m: AccountMap, c: Class, c': Class, s: seq<ShareOf>, k: nat, d: nat, y: Aggregate)
    requires k < |s| && MoveShares(m, Bucket(c), Bucket(c'), s, k).1
    requires var m1 := MoveShares(m, Bucket(c), Bucket(c'), s, k).0;
             s[k].account in m1 && OutUpTo(m1[s[k].account], Bucket(c), s[k].physical, d, y) && m1[s[k].account := y] == m
    ensures NothingMovedYet(m, c, c', s, k)
  {
    hide MoveShares, GivenTo;
    CompletedMoves(m, Bucket(c), Bucket(c'), s, k);
    var m1 := MoveShares(m, Bucket(c), Bucket(c'), s, k).0;
    if c != c' {
      forall a, j: nat | a in m && j < DIMS ensures GivenTo(s[..k], a, Physical, j) == 0 {
        assert CellMoved(m, Bucket(c), Bucket(c'), s[..k], m1, a, Bucket(c'), j);
        assert a != s[k].account ==> m[a] == m1[a];
        assert y.At(Bucket(c'), j) == m1[s[k].account].At(Bucket(c'), j);
      }
    }
  }

  lemma HalfMovedNothing(x: Aggregate, c: Class, amount: Dims, d: nat, y: Aggregate)
    requires OutUpTo(x, Bucket(c), amount, d, y) && d < DIMS && forall j: nat :: j < d ==> amount[j] == 0
    ensures y == x
  {
    SameCells(y, x);
  }

  lemma NothingLeft(x: Aggregate, c: Class, amount: Dims, d: nat, y: Aggregate)
    requires OutUpTo(x, Bucket(c), amount, d, y) && d < DIMS && y == x
    ensures forall j: nat :: j < d ==> amount[j] == 0
  {
    forall j: nat | j < d ensures amount[j] == 0 {
      assert y.At(Bucket(c), j) as int == x.At(Bucket(c), j) as int - amount[j] as int;
    }
  }

  lemma StopIsClosed(m: AccountMap, c: Class, c': Class, s: seq<ShareOf>, k: nat, d: nat)
    requires ShortAt(m, c, c', s, k, d) && NeverShort(m, c, c', s, k) && forall j: nat :: j < d ==> s[k].physical[j] == 0
    ensures StopsClosed(m, c, c', s, k, d)
  {
  }

  lemma HarmlessStop(m: AccountMap, c: Class, c': Class, s: seq<ShareOf>, k: nat, d: nat, y: Aggregate)
    requires StopsClosed(m, c, c', s, k, d) && NothingMovedYet(m, c, c', s, k)
    requires var (m1, ok) := MoveShares(m, Bucket(c), Bucket(c'), s, k);
             ok && s[k].account in m1 && OutUpTo(m1[s[k].account], Bucket(c), s[k].physical, d, y)
    ensures MoveShares(m, Bucket(c), Bucket(c'), s, k).0[s[k].account := y] == m
  {
    hide MoveShares, NothingMovedYet, Held, OutUpTo, NeverShort;
    UntouchedAccounts(m, c, c', s, k);
    HalfMovedNothing(m[s[k].account], c, s[k].physical, d, y);
    assert m[s[k].account := m[s[k].account]] == m;
  }

  /** A failed move leaves the accounts as they were exactly when it stops before any
      amount has changed buckets. */
  lemma FailedMovesUnchangedIff(m: AccountMap, c: Class, c': Class, s: seq<ShareOf>)
    requires AllWithin(m) && !MoveShares(m, Bucket(c), Bucket(c'), s, |s|).1
    ensures MoveShares(m, Bucket(c), Bucket(c'), s, |s|).0 == m
            <==> exists k: nat, d: nat :: k < |s| && StopsClosed(m, c, c', s, k, d) && NothingMovedYet(m, c, c', s, k)
  {
    hide MoveShares, AllWithin, NothingMovedYet, ShortAt, StopsClosed, OutUpTo, NeverShort;
    var k, d, y := TheStop(m, c, c', s);
    if exists k': nat, d': nat :: k' < |s| && StopsClosed(m, c, c', s, k', d') && NothingMovedYet(m, c, c', s, k') {
      var k': nat, d': nat :| k' < |s| && StopsClosed(m, c, c', s, k', d') && NothingMovedYet(m, c, c', s, k');
      OneStop(m, c, c', s, k, d, k', d');
      HarmlessStop(m, c, c', s, k, d, y);
    }
    if MoveShares(m, Bucket(c), Bucket(c'), s, |s|).0 == m {
      TouchedAccounts(m, c, c', s, k, d, y);
      UntouchedAccounts(m, c, c', s, k);
      NothingLeft(m[s[k].account], c, s[k].physical, d, y);
      StopIsClosed(m, c, c', s, k, d);
    }
  }

  // ---------- is every useful entry backed by a publication? ----------

  /** In every reachable history a USEFUL entry without authoritative publication or
      reuse is a revision. */
  lemma UsefulIsAuthoritativeUnlessRevised(id: u64, ops: Run, i: nat)
    requires i < |After(Initial(id), ops).book.history|
    ensures var e := After(Initial(id), ops).book.history[i];
            e.classification == 0 && e.event != 35 ==> e.fences.publication != 0 || e.event in {16, 18, 21}
  {
    hide After, Agrees, Disciplined, Entry.Valid;
    EveryRunIsSound(id, ops);
    var h := After(Initial(id), ops).book.history;
    assert WellPlaced(h[..i], h[i]);
  }

  /** A USEFUL entry without authoritative publication or reuse is committed exactly
      when it is a revision that meets all the other conditions. */
  lemma UnauthoritativeUsefulIff(s: State, e: Entry, order: seq<u64>)
    requires OrderFor(e, order) && e.classification == 0 && e.fences.publication == 0 && e.event !in {16, 18, 21}
    ensures AppendLocked(s, e, order).1 == Ok <==>
            && e.event == 35 && !s.auth.shuttingDown && FencesCurrent(s.auth, e) && WorkerLive(s.auth, e)
            && e.Valid() && e.id !in s.book.index && AttemptOpen(s.book.attempts, e) && AdmitsRevision(s.book, e)
  {
    hide AppendLocked, Entry.Valid, FencesCurrent, WorkerLive, AttemptOpen, AdmitsRevision, Accepted;
    AppendAccepts(s, e, order);
  }

  // ---------- is there one outcome per attempt? ----------

  /** An entry carrying an outcome is turned away by the attempt checks exactly when
      an ordinary entry has already ended the attempt, or its publication is not newer
      than every ordinary one; outcomes on revisions do not count. */
  lemma OutcomeIsLateIff(b: Book, e: Entry)
    requires AttemptsAgree(b) && e.HasAttempt() && e.HasOutcome()
    ensures !AttemptOpen(b.attempts, e) <==>
            || (exists i :: Ends(b.history, i, e.attempt.id))
            || 0 < e.fences.publication <= LatestPublication(b.history, e.attempt.id)
  {
    var a := e.attempt.id;
    assert AttemptAgrees(b, a);
    if exists i :: Ends(b.history, i, a) {
      var i :| Ends(b.history, i, a);
      assert On(b.history[i], a);
      assert Touched(b.history, a);
    }
    if !Touched(b.history, a) {
      LatestPublicationUntouched(b.history, a);
    }
  }
}
