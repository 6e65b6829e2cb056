/** `load_history` against the live run: which histories it accepts, and what it
    rebuilds. */
module Replay {
  import opened Bytes
  import opened Entries
  import opened Attribution
  import opened Aggregates
  import opened Moves
  import opened Ledger
  import opened Identity
  import opened Totals
  import opened Runs

  /** Every fence the history sets has the value the replaying ledger has now. */
  ghost predicate FencesMatch(auth: Authority, h: seq<Entry>)
  {
    forall i :: 0 <= i < |h| ==> FencesCurrent(auth, h[i])
  }

  // ---------- what a committed entry meets again at replay ----------

  lemma {:induction false} LatestIsSome(h: seq<Entry>, a: u64) returns (k: nat)
    requires LatestPublication(h, a) != 0
    ensures k < |h| && On(h[k], a) && h[k].fences.publication == LatestPublication(h, a)
  {
    var n := |h| - 1;
    if LatestPublication(h, a) != LatestPublication(h[..n], a) {
      k := n;
    } else {
      k := LatestIsSome(h[..n], a);
    }
  }

  lemma AttemptStillOpen(h: seq<Entry>, n: nat, c: Book)
    requires n < |h| && TerminalIsFinal(h) && PublicationsIncrease(h) && AttemptsAgree(c) && c.history == h[..n]
    ensures AttemptOpen(c.attempts, h[n])
  {
    hide LatestPublication;
    var e, a := h[n], h[n].attempt.id;
    if e.HasAttempt() && a in c.attempts {
      assert AttemptAgrees(c, a);
      var st := c.attempts[a];
      if st.outcome != PENDING {
        var i :| Ends(c.history, i, a);
        assert Ends(h, i, a);
        assert Respects(h[i], h[n]);
      }
      if st.lastPublication != 0 && e.fences.publication != 0 {
        var k := LatestIsSome(c.history, a);
        assert On(h[k], a);
      }
    }
  }

  lemma GatesStillOpen(h: seq<Entry>, n: nat, c: Book)
    requires n < |h| && (forall g :: OncePerGate(h, g) && GateAgrees(c, g)) && c.history == h[..n]
    ensures GatesOpen(c, h[n])
  {
    hide Completes;
    forall g ensures GateOpen(c, h[n], g) {
      var id := Completes(h[n], g);
      assert OncePerGate(h, g) && GateAgrees(c, g);
      assert forall i :: 0 <= i < n ==> c.history[i] == h[i];
    }
  }

  lemma IdStillFresh(h: seq<Entry>, n: nat, c: Book)
    requires n < |h| && DistinctIds(h) && IndexAgrees(c) && c.history == h[..n]
    ensures h[n].id !in c.index
  {
    assert forall i :: 0 <= i < n ==> c.history[i] == h[i];
  }

  /** The recomputed totals of a prefix stay below those of the whole history. */
  lemma {:induction false} QuantitiesGrow(h: seq<Entry>, n: nat, k: Kind, a: u64, d: nat)
    requires n <= |h| && d < DIMS
    ensures 0 <= Expected(h[..n], Quantity(k), a, d) <= Expected(h, Quantity(k), a, d)
    decreases |h|
  {
    hide Delta, MovesAmounts;
    if h == [] {
      assert h[..n] == [];
    } else {
      var p, e := h[..|h| - 1], h[|h| - 1];
      assert h == p + [e];
      ExpectedStep(p, e, Quantity(k), a, d);
      if n < |h| {
        assert h[..n] == p[..n];
        QuantitiesGrow(p, n, k, a, d);
      } else {
        assert h[..n] == h && p[..|p|] == p;
        QuantitiesGrow(p, |p|, k, a, d);
      }
    }
  }

  /** An ordinary entry always fits at replay: the live ledger has held all of it, and
      in an exact book no bucket exceeds physical consumption. */
  lemma OrdinaryStillFits(live: Book, n: nat, c: Book)
    requires Grounded(live) && n < |live.history| && !live.history[n].IsRevision()
    requires Exact(c) && WellFormed(c.history) && c.history == live.history[..n]
    ensures Fits(c.accounts, PendingMap(live.history[n]))
  {
    hide Expected, Delta, AccountsOf, WellFormed, AllWithin, PendingMap;
    var e := live.history[n];
    var pend := PendingMap(e);
    ExactIsClosed(c);
    forall a, f, d: nat | a in pend && d < DIMS ensures FitsAt(c.accounts, pend, a, f, d) {
      PendingCell(e, a, f, d);
      if f.Quantity? {
        QuantityStillFits(live, n, c, f.kind, a, d);
      } else {
        QuantityStillFits(live, n, c, Physical, a, d);
        BucketBelow(c.accounts, e, f.class_, a, d);
      }
    }
  }

  lemma QuantityStillFits(live: Book, n: nat, c: Book, k: Kind, a: u64, d: nat)
    requires Grounded(live) && n < |live.history| && !live.history[n].IsRevision() && d < DIMS
    requires Exact(c) && c.history == live.history[..n]
    ensures Cell(c.accounts, a, Quantity(k), d) as int + Delta(live.history[n], a, Quantity(k), d) <= MAX64
  {
    hide Expected, Delta, AccountsOf, AllWithin;
    var h := live.history;
    assert Surplus(c, Quantity(k), a, d) == 0 && Surplus(live, Quantity(k), a, d) >= 0;
    assert h[..n + 1] == h[..n] + [h[n]];
    ExpectedStep(h[..n], h[n], Quantity(k), a, d);
    QuantitiesGrow(h, n + 1, k, a, d);
  }

  lemma BucketBelow(m: AccountMap, e: Entry, c: Class, a: u64, d: nat)
    requires AllClosed(m) && d < DIMS
    ensures Cell(m, a, Bucket(c), d) <= Cell(m, a, PHYSICAL, d)
    ensures Delta(e, a, Bucket(c), d) <= Delta(e, a, PHYSICAL, d)
  {
    hide Charged;
    if a in m {
      assert m[a].ClosedAt(d);
      BucketBelowPhysical(m[a], c, d);
    }
  }

  /** The exact book of the entries before a committed entry admits it again exactly
      when that entry, if it moves amounts, is paid for. */
  lemma AdmittedAgainIff(live: Book, n: nat, c: Book)
    requires Sound(live) && Grounded(live) && n < |live.history|
    requires Sound(c) && Exact(c) && c.history == live.history[..n]
    ensures Admits(c, live.history[n]) <==> Paid(c.history, live.history[n])
  {
    hide Entry.Valid, AttemptOpen, GatesOpen, Fits, Exact, Grounded, Consistency, Paid, ApplyMoves,
         IndexAgrees, AttemptsAgree, GateAgrees, OncePerGate, TerminalIsFinal, PublicationsIncrease;
    var h, e := live.history, live.history[n];
    SoundParts(live);
    SoundParts(c);
    IdStillFresh(h, n, c);
    AttemptStillOpen(h, n, c);
    assert WellPlaced(h[..n], e);
    if e.IsRevision() {
      TargetFound(c, e);
      RevisionAdmittedIff(c, e);
    } else {
      GatesStillOpen(h, n, c);
      OrdinaryStillFits(live, n, c);
      OrdinaryIsPaid(c.history, e);
    }
  }

  lemma OrdinaryIsPaid(p: seq<Entry>, e: Entry)
    requires !e.IsRevision()
    ensures Paid(p, e)
  {
  }

  lemma RevisionAdmittedIff(c: Book, e: Entry)
    requires Sound(c) && Exact(c) && e.IsRevision() && WellPlaced(c.history, e)
    requires c.Find(e.target.value) == TargetIn(c.history, e)
    ensures AdmitsRevision(c, e) <==> Paid(c.history, e)
  {
    hide Agrees, Disciplined, WellFormed, Exact, Entry.Valid, TargetIn, Paid, MoveShares, Split, Backed;
    if IsConsumption(e.classification) {
      ExactIsClosed(c);
      ClosedIsWithin(c.accounts);
      var t := TargetIn(c.history, e).value;
      BackedMovesComplete(c.accounts, ClassOf(t.classification), ClassOf(e.classification), Split(t));
      if Backed(c.accounts, ClassOf(t.classification), ClassOf(e.classification), Split(t)) {
        BackedIsPaid(c, e);
      }
      if Paid(c.history, e) {
        ExactCovers(c);
        PaidIsBacked(c, e);
      }
    } else {
      NothingToPay(c.history, e);
    }
  }

  lemma NothingToPay(p: seq<Entry>, e: Entry)
    requires !IsConsumption(e.classification)
    ensures Paid(p, e)
  {
  }

  // ---------- replay ----------

  /** Replaying the first `n` entries succeeds exactly when their fences match and
      their revisions are paid for, and then yields the one exact book with that
      history. Workers do not matter. */
  lemma {:induction false} ReplayPrefix(live: Book, auth: Authority, orders: seq<seq<u64>>, n: nat)
    requires Sound(live) && Grounded(live) && OrdersFor(live.history, orders) && n <= |live.history|
    requires auth.replaying && !auth.shuttingDown
    ensures var (b, code) := AppendMany(auth, EMPTY_BOOK, live.history, orders, n);
            && (code == Ok <==> FencesMatch(auth, live.history[..n]) && Replayable(live.history[..n]))
            && (code == Ok ==> Sound(b) && Exact(b) && b.history == live.history[..n])
  {
    hide AppendLocked, Sound, Exact, Grounded, Admits, Accepted, FencesCurrent, Replayable, Paid;
    var h := live.history;
    if n == 0 {
      EmptyIsExact();
      NothingToReplay();
    } else {
      ReplayPrefix(live, auth, orders, n - 1);
      assert h[..n] == h[..n - 1] + [h[n - 1]];
      ReplayableStep(h[..n - 1], h[n - 1]);
      assert FencesMatch(auth, h[..n]) <==> FencesMatch(auth, h[..n - 1]) && FencesCurrent(auth, h[n - 1]) by {
        assert forall i :: 0 <= i < n - 1 ==> h[..n][i] == h[..n - 1][i];
        assert h[..n][n - 1] == h[n - 1];
      }
      var (b, code) := AppendMany(auth, EMPTY_BOOK, h, orders, n - 1);
      if code == Ok {
        AdmittedAgainIff(live, n - 1, b);
        ReplayOne(auth, b, h[n - 1], orders[n - 1]);
      }
    }
  }

  lemma EmptyIsExact()
    ensures Sound(EMPTY_BOOK) && Exact(EMPTY_BOOK)
  {
    EmptyBookInvariants();
  }

  lemma NothingToReplay()
    ensures Replayable([])
  {
  }

  lemma ReplayOne(auth: Authority, b: Book, e: Entry, order: seq<u64>)
    requires OrderFor(e, order) && auth.replaying && !auth.shuttingDown && Sound(b) && Exact(b)
    ensures var (b', code) := AppendLocked(State(auth, b), e, order);
            && (code == Ok <==> FencesCurrent(auth, e) && Admits(b, e))
            && (code == Ok ==> Sound(b') && Exact(b') && b'.history == b.history + [e])
  {
    hide AppendLocked, Sound, Exact, Admits, Accepted, FencesCurrent;
    assert WorkerLive(auth, e);
    AppendAccepts(State(auth, b), e, order);
    var (b', code) := AppendLocked(State(auth, b), e, order);
    if code == Ok {
      AppendSound(State(auth, b), e, order);
      CommitExact(b, e, b');
      AcceptedHistory(b, e, b');
    }
  }

  /** What a load has rebuilt. */
  ghost predicate Rebuilt(live: Book, b: Book)
  {
    && b == live.(accounts := b.accounts)
    && Exact(b)
    && (Exact(live) ==> b == live)
    && (Covers(live) ==> forall a, f, d: nat :: d < DIMS ==> Cell(b.accounts, a, f, d) <= Cell(live.accounts, a, f, d))
  }

  /** Loading goes through: nothing to load, or the ledger is open, every set fence has
      its value and every revision is paid for. A check on history and authority. */
  ghost predicate CanLoad(auth: Authority, h: seq<Entry>)
  {
    h == [] || (!auth.shuttingDown && FencesMatch(auth, h) && Replayable(h))
  }

  /** Loading the history of a sound, grounded book succeeds if and only if it can be
      loaded. It then rebuilds the same history, index, attempts and gates, and accounts
      that are the exact recomputation: equal to the live ones when those were exact,
      and never above them when those held at least it. Hash-table orders, live and at
      load, are arbitrary. */
  lemma ReplayRebuilds(live: Book, s: State, orders: seq<seq<u64>>)
    requires Sound(live) && Grounded(live) && OrdersFor(live.history, orders)
    ensures var (s', code) := LoadHistory(s, live.history, orders);
            && (code == Ok <==> CanLoad(s.auth, live.history))
            && (code == Ok ==> s'.auth == s.auth.(replaying := false) && Rebuilt(live, s'.book))
  {
    hide AppendLocked, Sound, Exact, Grounded, FencesCurrent, Replayable, Rebuilt;
    var auth := s.auth.(replaying := true);
    var h := live.history;
    var (s', code) := LoadHistory(s, h, orders);
    assert h[..|h|] == h;
    assert FencesMatch(auth, h) <==> FencesMatch(s.auth, h) by { SameFences(auth, s.auth, h); }
    NothingToReplay();
    if !auth.shuttingDown {
      ReplayPrefix(live, auth, orders, |h|);
    } else if h == [] {
      EmptyIsExact();
    } else {
      ShutDownRejects(auth, h, orders, |h|);
    }
    if code == Ok {
      RebuiltBook(live, s'.book);
    }
  }

  /** Replay refines the live run, for every run of every operation, with overflows,
      failed and repeated revisions: its history loads into any ledger if and only if
      the fences match and the recomputation can pay for every revision. */
  lemma EveryRunReplays(id: u64, ops: Run, s: State, orders: seq<seq<u64>>)
    requires OrdersFor(After(Initial(id), ops).book.history, orders)
    ensures var live := After(Initial(id), ops).book;
            var (s', code) := LoadHistory(s, live.history, orders);
            && (code == Ok <==> CanLoad(s.auth, live.history))
            && (code == Ok ==> s'.auth == s.auth.(replaying := false) && Rebuilt(live, s'.book))
  {
    hide After, Sound, Grounded, CanLoad, Rebuilt, LoadHistory;
    EveryRunIsSound(id, ops);
    EveryRunIsGrounded(id, ops);
    ReplayRebuilds(After(Initial(id), ops).book, s, orders);
  }

  lemma SameFences(auth: Authority, auth': Authority, h: seq<Entry>)
    requires auth' == auth.(replaying := auth'.replaying)
    ensures FencesMatch(auth, h) <==> FencesMatch(auth', h)
  {
    forall i | 0 <= i < |h| ensures FencesCurrent(auth, h[i]) <==> FencesCurrent(auth', h[i]) { }
  }

  lemma RebuiltBook(live: Book, b: Book)
    requires Sound(live) && Sound(b) && Exact(b) && b.history == live.history
    ensures Rebuilt(live, b)
  {
    hide Agrees, Disciplined, WellFormed, Expected, AccountsOf;
    HistoryDetermines(b, live);
    if Exact(live) {
      SameAccounts(b, live);
    }
    if Covers(live) {
      forall a, f, d: nat | d < DIMS ensures Cell(b.accounts, a, f, d) <= Cell(live.accounts, a, f, d) {
        assert Surplus(live, f, a, d) >= 0 && Surplus(b, f, a, d) == 0;
      }
    }
  }

  lemma {:induction false} ShutDownRejects(auth: Authority, h: seq<Entry>, orders: seq<seq<u64>>, n: nat)
    requires OrdersFor(h, orders) && 0 < n <= |h| && auth.shuttingDown
    ensures AppendMany(auth, EMPTY_BOOK, h, orders, n).1 != Ok
  {
    hide AppendOrdinary, AppendRevision, Entry.Valid;
    if n > 1 {
      ShutDownRejects(auth, h, orders, n - 1);
    } else {
      assert AppendMany(auth, EMPTY_BOOK, h, orders, 0) == (EMPTY_BOOK, Ok);
    }
  }

  /** In two kinds of runs the recomputation can always pay: those without a partial
      failure, and those in which nothing is revised twice. */
  lemma RunsAreReplayable(id: u64, ops: Run)
    requires NoPartialFailure(Initial(id), ops) || NeverRevisedTwice(Initial(id), ops)
    ensures Replayable(After(Initial(id), ops).book.history)
  {
    hide After, Exact, Covers, Replayable, NoPartialFailure, NeverRevisedTwice, AllClosed, RevisedOnce, Agrees, WellFormed, Disciplined;
    if NoPartialFailure(Initial(id), ops) {
      CleanRunsAreExact(id, ops);
    } else {
      SingleRevisionRunsReconcile(id, ops);
      SoundParts(After(Initial(id), ops).book);
      RevisedOnceIsReplayable(After(Initial(id), ops).book.history);
    }
  }

  // ---------- terminal outcomes ----------

  predicate KeepsHistory(op: Op)
  {
    !op.Load? && !op.Restore?
  }

  lemma AppendExtends(s: State, e: Entry, order: seq<u64>)
    requires OrderFor(e, order)
    ensures s.book.history <= AppendLocked(s, e, order).0.history
  {
    hide AppendLocked, Accepted, Admits;
    AppendAccepts(s, e, order);
    if AppendLocked(s, e, order).1 == Ok {
      AcceptedHistory(s.book, e, AppendLocked(s, e, order).0);
    } else {
      RejectionLeavesHistory(s, e, order);
    }
  }

  lemma {:induction false} ManyExtends(auth: Authority, b: Book, entries: seq<Entry>, orders: seq<seq<u64>>, n: nat)
    requires OrdersFor(entries, orders) && n <= |entries|
    ensures b.history <= AppendMany(auth, b, entries, orders, n).0.history
  {
    hide AppendLocked;
    if n > 0 {
      ManyExtends(auth, b, entries, orders, n - 1);
      var (b', code) := AppendMany(auth, b, entries, orders, n - 1);
      if code == Ok {
        AppendExtends(State(auth, b'), entries[n - 1], orders[n - 1]);
      }
    }
  }

  /** The history is append-only under everything but a load. */
  lemma {:induction false} HistoryOnlyGrows(s: State, ops: Run)
    requires forall i :: 0 <= i < |ops| ==> KeepsHistory(ops[i])
    ensures s.book.history <= After(s, ops).book.history
  {
    hide AppendLocked, AppendMany;
    if ops != [] {
      var n := |ops| - 1;
      HistoryOnlyGrows(s, ops[..n]);
      var s1 := After(s, ops[..n]);
      match ops[n] {
        case Append(e, o) => AppendExtends(s1, e, o);
        case AppendAll(es, os) => ManyExtends(s1.auth, s1.book, es, os, |es|);
        case Reclassify(q) => AppendExtends(s1, RevisionOf(s1.book, q), []);
        case _ =>
      }
    }
  }

  /** A terminal outcome and its generation never change again, whatever happens
      afterwards short of loading another history. */
  lemma TerminalOutcomeNeverChanges(id: u64, ops: Run, more: Run, a: u64)
    requires forall i :: 0 <= i < |more| ==> KeepsHistory(more[i])
    requires var b := After(Initial(id), ops).book; a != 0 && a in b.attempts && b.attempts[a].outcome != PENDING
    ensures var b, b' := After(Initial(id), ops).book, After(After(Initial(id), ops), more).book;
            && a in b'.attempts
            && b'.attempts[a].outcome == b.attempts[a].outcome
            && b'.attempts[a].generation == b.attempts[a].generation
  {
    hide After, Disciplined, WellFormed, IndexAgrees;
    var s := After(Initial(id), ops);
    EveryRunIsSound(id, ops);
    HistoryOnlyGrows(s, more);
    AfterConcat(Initial(id), ops, more);
    EveryRunIsSound(id, ops + more);
    LaterBookKeepsOutcome(s.book, After(s, more).book, a);
  }

  lemma LaterBookKeepsOutcome(b: Book, b': Book, a: u64)
    requires AttemptsAgree(b) && AttemptsAgree(b') && b.history <= b'.history
    requires a != 0 && a in b.attempts && b.attempts[a].outcome != PENDING
    ensures a in b'.attempts && b'.attempts[a].outcome == b.attempts[a].outcome && b'.attempts[a].generation == b.attempts[a].generation
  {
    assert AttemptAgrees(b, a) && AttemptAgrees(b', a);
    var i :| Ends(b.history, i, a);
    assert b'.history[i] == b.history[i];
    assert Ends(b'.history, i, a);
    assert Touched(b'.history, a) by { assert On(b'.history[i], a); }
  }

  lemma {:induction false} AfterConcat(s: State, ops: Run, more: Run)
    ensures After(s, ops + more) == After(After(s, ops), more)
    decreases |more|
  {
    hide Step;
    if more == [] {
      assert ops + more == ops;
    } else {
      var n := |more| - 1;
      assert (ops + more)[..|ops + more| - 1] == ops + more[..n];
      AfterConcat(s, ops, more[..n]);
    }
  }

  /** At most one ordinary entry per attempt carries an outcome. */
  lemma OneOutcomePerAttempt(id: u64, ops: Run, i: nat, j: nat)
    requires var h := After(Initial(id), ops).book.history; i < j < |h| && h[i].attempt.id != 0 && h[i].attempt.id == h[j].attempt.id
    requires var h := After(Initial(id), ops).book.history; h[i].event != 35 && h[i].outcome != 0
    ensures var h := After(Initial(id), ops).book.history;
            h[j].outcome == 0 && h[j].event !in {2, 3, 4, 30, 31, 32, 33}
  {
    hide After, Agrees, WellFormed, PublicationsIncrease, OncePerGate;
    EveryRunIsSound(id, ops);
    var h := After(Initial(id), ops).book.history;
    assert Ends(h, i, h[j].attempt.id);
  }
}
