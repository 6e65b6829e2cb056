/** What the derived identity structures (index, gates, attempts) say about the
    history, and what the history itself can never contain. */
module Identity {
  import opened Bytes
  import opened Entries
  import opened Aggregates
  import opened Ledger

  // ---------- index ----------

  /** The index is exactly the map from ids to positions, so ids are distinct. */
  ghost predicate IndexAgrees(b: Book)
  {
    && (forall i :: 0 <= i < |b.history| ==>
          b.history[i].id != 0 && b.history[i].id in b.index && b.index[b.history[i].id] == i)
    && (forall id :: id in b.index ==> b.index[id] < |b.history| && b.history[b.index[id]].id == id)
  }

  ghost predicate DistinctIds(h: seq<Entry>)
  {
    forall i, j :: 0 <= i < j < |h| ==> h[i].id != h[j].id
  }

  lemma IndexMeansDistinct(b: Book)
    requires IndexAgrees(b)
    ensures DistinctIds(b.history)
  {
  }

  // ---------- gates ----------

  /** Some entry of the history completed `id` at gate `g`. */
  ghost predicate Completed(h: seq<Entry>, g: Gate, id: u64)
  {
    exists i :: 0 <= i < |h| && Completes(h[i], g) == id
  }

  ghost predicate GateAgrees(b: Book, g: Gate)
  {
    && 0 !in b.Passed(g)
    && forall id: u64 :: id != 0 ==> (id in b.Passed(g) <==> Completed(b.history, g, id))
  }

  /** Each id passes each gate at most once over the whole history. A recovery
      cannot both complete and fail, as the two events share one gate. */
  ghost predicate OncePerGate(h: seq<Entry>, g: Gate)
  {
    forall i, j :: 0 <= i < j < |h| && Completes(h[i], g) != 0 ==> Completes(h[j], g) != Completes(h[i], g)
  }

  // ---------- attempts ----------

  /** Entry `e` counts for attempt `a`; revisions never do. */
  predicate On(e: Entry, a: u64)
  {
    !e.IsRevision() && e.attempt.id == a
  }

  ghost predicate Touched(h: seq<Entry>, a: u64)
  {
    exists i :: 0 <= i < |h| && On(h[i], a)
  }

  /** Entry `i` gave attempt `a` its terminal outcome. */
  predicate Ends(h: seq<Entry>, i: int, a: u64)
  {
    0 <= i < |h| && On(h[i], a) && h[i].HasOutcome()
  }

  function LatestPublication(h: seq<Entry>, a: u64): nat
  {
    if h == [] then 0 else
      var p := LatestPublication(h[..|h| - 1], a);
      var e := h[|h| - 1];
      if On(e, a) && e.fences.publication > p then e.fences.publication else p
  }

  ghost predicate AttemptAgrees(b: Book, a: u64)
  {
    && (a in b.attempts <==> Touched(b.history, a))
    && (a in b.attempts ==>
          && b.attempts[a].lastPublication == LatestPublication(b.history, a)
          && (b.attempts[a].outcome == PENDING ==> b.attempts[a] == FRESH_ATTEMPT.(lastPublication := b.attempts[a].lastPublication))
          && (b.attempts[a].outcome != PENDING ==> exists i :: Ends(b.history, i, a))
          && (forall i :: Ends(b.history, i, a) ==>
                && b.attempts[a].outcome == b.history[i].outcome
                && b.attempts[a].generation == b.history[i].attempt.generation
                && b.attempts[a].authoritative))
  }

  ghost predicate AttemptsAgree(b: Book)
  {
    0 !in b.attempts && forall a: u64 :: a != 0 ==> AttemptAgrees(b, a)
  }

  /** Once an attempt is terminal, nothing committed later on it, revision or not,
      carries an outcome, signals completion or shows another generation. */
  ghost predicate TerminalIsFinal(h: seq<Entry>)
  {
    forall i, j :: 0 <= i < j < |h| && h[j].attempt.id != 0 && Ends(h, i, h[j].attempt.id) ==> Respects(h[i], h[j])
  }

  predicate Respects(terminal: Entry, later: Entry)
  {
    && !later.HasOutcome() && !IsSignal(later.event)
    && (terminal.attempt.generation != 0 && later.attempt.generation != 0
        ==> later.attempt.generation == terminal.attempt.generation)
  }

  /** Publications on one attempt strictly increase along the history. */
  ghost predicate PublicationsIncrease(h: seq<Entry>)
  {
    forall i, j :: 0 <= i < j < |h| && h[j].attempt.id != 0 && On(h[i], h[j].attempt.id)
                   && h[i].fences.publication != 0 && h[j].fences.publication != 0
                   ==> h[i].fences.publication < h[j].fences.publication
  }

  // ---------- what every reachable book satisfies ----------

  ghost predicate Agrees(b: Book)
  {
    && IndexAgrees(b)
    && (forall g :: GateAgrees(b, g))
    && AttemptsAgree(b)
  }

  ghost predicate Disciplined(h: seq<Entry>)
  {
    && (forall g :: OncePerGate(h, g))
    && TerminalIsFinal(h)
    && PublicationsIncrease(h)
  }

  lemma EmptyAgrees()
    ensures Agrees(EMPTY_BOOK) && Disciplined([])
  {
  }

  // ---------- preservation by a commit ----------

  lemma IndexStep(b: Book, e: Entry, b': Book)
    requires IndexAgrees(b) && e.id != 0 && e.id !in b.index
    requires b'.history == b.history + [e] && b'.index == b.index[e.id := |b.history|]
    ensures IndexAgrees(b')
  {
  }

  lemma GateStep(b: Book, e: Entry, b': Book, g: Gate)
    requires GateAgrees(b, g) && b'.history == b.history + [e]
    requires b'.Passed(g) == b.Passed(g) + if Completes(e, g) != 0 then {Completes(e, g)} else {}
    ensures GateAgrees(b', g)
  {
    var n := |b.history|;
    forall id: u64 | id != 0 ensures id in b'.Passed(g) <==> Completed(b'.history, g, id) {
      if Completed(b.history, g, id) {
        var i :| 0 <= i < n && Completes(b.history[i], g) == id;
        assert b'.history[i] == b.history[i];
      }
      if Completes(e, g) == id {
        assert b'.history[n] == e;
      }
      if Completed(b'.history, g, id) {
        var i :| 0 <= i < n + 1 && Completes(b'.history[i], g) == id;
        assert i < n ==> b'.history[i] == b.history[i];
      }
    }
  }

  lemma OnceStep(b: Book, e: Entry, g: Gate)
    requires GateAgrees(b, g) && OncePerGate(b.history, g) && GateOpen(b, e, g)
    ensures OncePerGate(b.history + [e], g)
  {
    var h := b.history + [e];
    forall i, j | 0 <= i < j < |h| && Completes(h[i], g) != 0 ensures Completes(h[j], g) != Completes(h[i], g) {
      assert Completed(b.history, g, Completes(h[i], g));
    }
  }

  lemma RevisionCompletesNothing(e: Entry, g: Gate)
    requires e.IsRevision()
    ensures Completes(e, g) == 0
  {
  }

  lemma RecordAttemptAt(attempts: map<u64, AttemptState>, e: Entry, a: u64)
    requires a != 0
    ensures var r := RecordAttempt(attempts, e);
            && (a in r <==> a in attempts || e.attempt.id == a)
            && (e.attempt.id != a && a in attempts ==> r[a] == attempts[a])
            && (e.attempt.id == a ==>
                  var old_ := if a in attempts then attempts[a] else FRESH_ATTEMPT;
                  && (e.HasOutcome() ==> r[a].outcome == e.outcome && r[a].generation == e.attempt.generation && r[a].authoritative)
                  && (!e.HasOutcome() ==> r[a] == old_.(lastPublication := r[a].lastPublication))
                  && r[a].lastPublication == if e.fences.publication > old_.lastPublication then e.fences.publication else old_.lastPublication)
  {
  }

  lemma {:induction false} LatestPublicationGrows(h: seq<Entry>, a: u64, i: nat)
    requires i < |h| && On(h[i], a)
    ensures h[i].fences.publication <= LatestPublication(h, a)
  {
    if i < |h| - 1 {
      LatestPublicationGrows(h[..|h| - 1], a, i);
    }
  }

  lemma {:induction false} LatestPublicationUntouched(h: seq<Entry>, a: u64)
    requires !Touched(h, a)
    ensures LatestPublication(h, a) == 0
  {
    if h != [] {
      var p := h[..|h| - 1];
      assert !On(h[|h| - 1], a);
      forall i | 0 <= i < |p| ensures !On(p[i], a) { assert !On(h[i], a); }
      LatestPublicationUntouched(p, a);
    }
  }

  lemma AttemptStep(b: Book, e: Entry, b': Book, a: u64)
    requires a != 0 && AttemptAgrees(b, a) && !e.IsRevision() && AttemptOpen(b.attempts, e)
    requires b'.history == b.history + [e] && b'.attempts == RecordAttempt(b.attempts, e)
    ensures AttemptAgrees(b', a)
  {
    hide RecordAttempt, LatestPublication;
    var n := |b.history|;
    var h, h' := b.history, b'.history;
    assert h'[..n] == h && h'[n] == e && forall i :: 0 <= i < n ==> h'[i] == h[i];
    RecordAttemptAt(b.attempts, e, a);
    if !Touched(h, a) { LatestPublicationUntouched(h, a); }
    LatestStep(h, e, a);
    assert Touched(h', a) <==> Touched(h, a) || On(e, a) by {
      if Touched(h, a) {
        var i :| 0 <= i < |h| && On(h[i], a);
        assert On(h'[i], a);
      }
      if On(e, a) { assert On(h'[n], a); }
    }
    assert forall i :: Ends(h', i, a) <==> Ends(h, i, a) || (i == n && On(e, a) && e.HasOutcome());
    if a in b'.attempts && b'.attempts[a].outcome != PENDING {
      if On(e, a) && e.HasOutcome() {
        assert Ends(h', n, a);
      } else {
        var i :| Ends(h, i, a);
        assert Ends(h', i, a);
      }
    }
  }

  lemma LatestStep(h: seq<Entry>, e: Entry, a: u64)
    ensures LatestPublication(h + [e], a)
         == if On(e, a) && e.fences.publication > LatestPublication(h, a) then e.fences.publication else LatestPublication(h, a)
  {
    assert (h + [e])[..|h|] == h;
  }

  lemma AttemptRevisionStep(b: Book, e: Entry, b': Book, a: u64)
    requires a != 0 && AttemptAgrees(b, a) && e.IsRevision()
    requires b'.history == b.history + [e] && b'.attempts == b.attempts
    ensures AttemptAgrees(b', a)
  {
    var n := |b.history|;
    var h, h' := b.history, b'.history;
    LatestStep(h, e, a);
    assert forall i :: 0 <= i < n ==> h'[i] == h[i];
    assert Touched(h', a) <==> Touched(h, a) by {
      if Touched(h, a) {
        var i :| 0 <= i < |h| && On(h[i], a);
        assert On(h'[i], a);
      }
    }
    assert forall i :: Ends(h', i, a) <==> Ends(h, i, a);
  }

  lemma TerminalStep(b: Book, e: Entry)
    requires AttemptsAgree(b) && TerminalIsFinal(b.history) && AttemptOpen(b.attempts, e)
    requires e.Valid()
    ensures TerminalIsFinal(b.history + [e])
  {
    hide Entry.Valid;
    var h, n := b.history + [e], |b.history|;
    forall i, j | 0 <= i < j < |h| && h[j].attempt.id != 0 && Ends(h, i, h[j].attempt.id) ensures Respects(h[i], h[j]) {
      var a := h[j].attempt.id;
      assert Ends(b.history, i, a);
      assert AttemptAgrees(b, a);
      assert Touched(b.history, a) by { assert On(b.history[i], a); }
    }
  }

  lemma PublicationStep(b: Book, e: Entry)
    requires AttemptsAgree(b) && PublicationsIncrease(b.history) && AttemptOpen(b.attempts, e)
    ensures PublicationsIncrease(b.history + [e])
  {
    var h, n := b.history + [e], |b.history|;
    forall i, j | 0 <= i < j < |h| && h[j].attempt.id != 0 && On(h[i], h[j].attempt.id)
                  && h[i].fences.publication != 0 && h[j].fences.publication != 0
      ensures h[i].fences.publication < h[j].fences.publication
    {
      var a := h[j].attempt.id;
      assert b.history[i] == h[i];
      if j == n {
        LatestPublicationGrows(b.history, a, i);
        assert AttemptAgrees(b, a);
        assert Touched(b.history, a);
      } else {
        assert b.history[j] == h[j];
      }
    }
  }

  lemma GatesStep(b: Book, e: Entry, b': Book)
    requires forall g :: GateAgrees(b, g) && OncePerGate(b.history, g) && GateOpen(b, e, g)
    requires b'.history == b.history + [e]
    requires forall g :: b'.Passed(g) == b.Passed(g) + if Completes(e, g) != 0 then {Completes(e, g)} else {}
    ensures forall g :: GateAgrees(b', g) && OncePerGate(b'.history, g)
  {
    hide GateAgrees, OncePerGate, GateOpen;
    forall g ensures GateAgrees(b', g) && OncePerGate(b'.history, g) {
      GateStep(b, e, b', g);
      OnceStep(b, e, g);
    }
  }

  lemma AttemptsStep(b: Book, e: Entry, b': Book)
    requires AttemptsAgree(b) && AttemptOpen(b.attempts, e) && b'.history == b.history + [e]
    requires b'.attempts == if e.IsRevision() then b.attempts else RecordAttempt(b.attempts, e)
    ensures AttemptsAgree(b')
  {
    hide AttemptAgrees, AttemptOpen;
    forall a: u64 | a != 0 ensures AttemptAgrees(b', a) {
      if e.IsRevision() {
        AttemptRevisionStep(b, e, b', a);
      } else {
        AttemptStep(b, e, b', a);
      }
    }
    NoZeroAttempt(b.attempts, e);
  }

  lemma GatesAfter(b: Book, e: Entry, b': Book)
    requires Admits(b, e) && Accepted(b, e, b')
    ensures forall g :: GateOpen(b, e, g) && b'.Passed(g) == b.Passed(g) + if Completes(e, g) != 0 then {Completes(e, g)} else {}
  {
    hide Entry.Valid, AttemptOpen, RecordAttempt, Added, Consistency, Fits, AdmitsRevision, ApplyMoves;
    forall g ensures GateOpen(b, e, g) && b'.Passed(g) == b.Passed(g) + if Completes(e, g) != 0 then {Completes(e, g)} else {} {
      if e.IsRevision() {
        RevisionCompletesNothing(e, g);
      }
    }
  }

  /** Every committed entry keeps the agreement and the discipline of the history. */
  lemma CommitAgrees(b: Book, e: Entry, b': Book)
    requires Agrees(b) && Disciplined(b.history) && Admits(b, e) && Accepted(b, e, b')
    ensures Agrees(b') && Disciplined(b'.history) && b'.history == b.history + [e]
  {
    hide AttemptOpen, AdmitsRevision, RecordAttempt, Added, Consistency, Fits, TerminalIsFinal, PublicationsIncrease,
         OncePerGate, GateAgrees, AttemptsAgree, IndexAgrees, GateOpen, Completes, ApplyMoves;
    IndexStep(b, e, b');
    TerminalStep(b, e);
    PublicationStep(b, e);
    GatesAfter(b, e, b');
    GatesStep(b, e, b');
    AttemptsStep(b, e, b');
  }

  lemma NoZeroAttempt(attempts: map<u64, AttemptState>, e: Entry)
    requires 0 !in attempts
    ensures 0 !in RecordAttempt(attempts, e)
  {
  }

  // ---------- the history determines the rest ----------

  /** Index, gates and attempts are functions of the history. */
  lemma HistoryDetermines(b: Book, c: Book)
    requires Agrees(b) && Agrees(c) && b.history == c.history
    ensures b == c.(accounts := b.accounts)
  {
    assert b.index == c.index by { SameIndex(b, c); }
    SameGate(b, c, Transfer);
    SameGate(b, c, Reservation);
    SameGate(b, c, Allocation);
    SameGate(b, c, Recovery);
    assert b.attempts == c.attempts by {
      assert b.attempts.Keys == c.attempts.Keys by {
        forall a ensures a in b.attempts <==> a in c.attempts {
          if a != 0 { assert AttemptAgrees(b, a) && AttemptAgrees(c, a); }
        }
      }
      forall a | a in b.attempts ensures b.attempts[a] == c.attempts[a] {
        assert AttemptAgrees(b, a) && AttemptAgrees(c, a);
        SameAttempt(b, c, a);
      }
    }
  }

  lemma SameIndex(b: Book, c: Book)
    requires IndexAgrees(b) && IndexAgrees(c) && b.history == c.history
    ensures b.index == c.index
  {
    forall id | id in b.index ensures id in c.index && b.index[id] == c.index[id] {
      assert c.history[b.index[id]].id in c.index;
    }
    forall id | id in c.index ensures id in b.index {
      assert b.history[c.index[id]].id in b.index;
    }
  }

  lemma SameGate(b: Book, c: Book, g: Gate)
    requires GateAgrees(b, g) && GateAgrees(c, g) && b.history == c.history
    ensures b.Passed(g) == c.Passed(g)
  {
  }

  lemma SameAttempt(b: Book, c: Book, a: u64)
    requires AttemptAgrees(b, a) && AttemptAgrees(c, a) && b.history == c.history && a in b.attempts
    ensures a in c.attempts && b.attempts[a] == c.attempts[a]
  {
    var x, y := b.attempts[a], c.attempts[a];
    if x.outcome != PENDING {
      var i :| Ends(b.history, i, a);
      assert Ends(c.history, i, a);
    }
  }
}
