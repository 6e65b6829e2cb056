/** Account totals recomputed from the history, and how the incrementally kept
    accounts relate to them. */
module Totals {
  import opened Bytes
  import opened Entries
  import opened Attribution
  import opened Aggregates
  import opened Moves
  import opened Ledger
  import opened Identity

  // ---------- recomputation ----------

  function Lookup(h: seq<Entry>, id: u64): Option<Entry>
  {
    if h == [] then None
    else if h[|h| - 1].id == id then Some(h[|h| - 1])
    else Lookup(h[..|h| - 1], id)
  }

  /** The entry a revision reinterprets, among those committed before it. */
  function TargetIn(h: seq<Entry>, r: Entry): Option<Entry>
  {
    if r.IsRevision() && r.target.Some? then Lookup(h, r.target.value) else None
  }

  predicate MovesAmounts(h: seq<Entry>, r: Entry)
  {
    && TargetIn(h, r).Some?
    && IsConsumption(TargetIn(h, r).value.classification) && IsConsumption(r.classification)
  }

  /** What a revision takes out of, and puts into, one cell: the target's shares
      leave the bucket of the target's original class. */
  function Leaves(h: seq<Entry>, r: Entry, f: Field, a: u64, d: nat): nat
    requires d < DIMS
  {
    if MovesAmounts(h, r) && f == Bucket(ClassOf(TargetIn(h, r).value.classification))
    then Charged(TargetIn(h, r).value, a, Physical, d) else 0
  }

  function Enters(h: seq<Entry>, r: Entry, f: Field, a: u64, d: nat): nat
    requires d < DIMS
  {
    if MovesAmounts(h, r) && f == Bucket(ClassOf(r.classification))
    then Charged(TargetIn(h, r).value, a, Physical, d) else 0
  }

  /** Shares of the ordinary entries. */
  function Original(h: seq<Entry>, f: Field, a: u64, d: nat): nat
    requires d < DIMS
  {
    if h == [] then 0 else
      Original(h[..|h| - 1], f, a, d) + if h[|h| - 1].IsRevision() then 0 else Delta(h[|h| - 1], a, f, d)
  }

  function MovedOut(h: seq<Entry>, f: Field, a: u64, d: nat): nat
    requires d < DIMS
  {
    if h == [] then 0 else MovedOut(h[..|h| - 1], f, a, d) + Leaves(h[..|h| - 1], h[|h| - 1], f, a, d)
  }

  function MovedIn(h: seq<Entry>, f: Field, a: u64, d: nat): nat
    requires d < DIMS
  {
    if h == [] then 0 else MovedIn(h[..|h| - 1], f, a, d) + Enters(h[..|h| - 1], h[|h| - 1], f, a, d)
  }

  /** The total a cell should hold: shares of the entries originally in the class,
      plus the target shares of revisions to it, minus those of revisions whose
      target was originally in it. Physical, avoided and stranded are plain sums. */
  function Expected(h: seq<Entry>, f: Field, a: u64, d: nat): int
    requires d < DIMS
  {
    Original(h, f, a, d) + MovedIn(h, f, a, d) - MovedOut(h, f, a, d)
  }

  function AccountsOf(h: seq<Entry>): set<u64>
  {
    if h == [] then {} else
      AccountsOf(h[..|h| - 1]) + if h[|h| - 1].IsRevision() then {} else ChargedAccounts(h[|h| - 1])
  }

  // ---------- relations between accounts and history ----------

  function Surplus(b: Book, f: Field, a: u64, d: nat): int
    requires d < DIMS
  {
    Cell(b.accounts, a, f, d) as int - Expected(b.history, f, a, d)
  }

  /** The accounts are exactly the recomputation. */
  ghost predicate Exact(b: Book)
  {
    && b.accounts.Keys == AccountsOf(b.history)
    && forall a, f, d: nat :: d < DIMS ==> Surplus(b, f, a, d) == 0
  }

  /** The accounts hold at least the recomputation (an overflow stopped midway may
      have left more). */
  ghost predicate Covers(b: Book)
  {
    && AccountsOf(b.history) <= b.accounts.Keys
    && forall a, f, d: nat :: d < DIMS ==> Surplus(b, f, a, d) >= 0
  }

  lemma ExactCovers(b: Book)
    requires Exact(b)
    ensures Covers(b)
  {
  }

  lemma SameAccounts(b: Book, c: Book)
    requires Exact(b) && Exact(c) && b.history == c.history
    ensures b.accounts == c.accounts
  {
    forall a | a in b.accounts ensures b.accounts[a] == c.accounts[a] {
      forall f, d: nat | d < DIMS ensures b.accounts[a].At(f, d) == c.accounts[a].At(f, d) {
        assert Surplus(b, f, a, d) == 0 && Surplus(c, f, a, d) == 0;
      }
      SameCells(b.accounts[a], c.accounts[a]);
    }
  }

  // ---------- committed histories ----------

  /** What a committed entry satisfied against the entries before it. */
  predicate WellPlaced(h: seq<Entry>, e: Entry)
  {
    && e.Valid()
    && if e.IsRevision() then
         && IsZero(e.usage) && e.target.Some? && TargetIn(h, e).Some?
         && IsConsumption(TargetIn(h, e).value.classification) == IsConsumption(e.classification)
       else Consistency(e) == Ok
  }

  ghost predicate WellFormed(h: seq<Entry>)
  {
    forall i :: 0 <= i < |h| ==> WellPlaced(h[..i], h[i])
  }

  lemma WellFormedStep(h: seq<Entry>, e: Entry)
    requires WellFormed(h) && WellPlaced(h, e)
    ensures WellFormed(h + [e])
  {
    var h' := h + [e];
    forall i | 0 <= i < |h'| ensures WellPlaced(h'[..i], h'[i]) {
      assert i < |h| ==> h'[..i] == h[..i] && h'[i] == h[i];
      assert i == |h| ==> h'[..i] == h;
    }
  }

  lemma WellFormedPrefix(h: seq<Entry>, n: nat)
    requires WellFormed(h) && n <= |h|
    ensures WellFormed(h[..n])
  {
    forall i | 0 <= i < n ensures WellPlaced(h[..n][..i], h[..n][i]) {
      assert h[..n][..i] == h[..i];
    }
  }

  lemma {:induction false} LookupFinds(h: seq<Entry>, id: u64)
    ensures Lookup(h, id).Some? ==> exists i :: 0 <= i < |h| && h[i] == Lookup(h, id).value && h[i].id == id
    ensures (exists i :: 0 <= i < |h| && h[i].id == id) ==> Lookup(h, id).Some?
  {
    if h != [] && h[|h| - 1].id != id {
      var p := h[..|h| - 1];
      LookupFinds(p, id);
      assert forall i :: 0 <= i < |p| ==> p[i] == h[i];
    }
  }

  /** The index finds the same entry as a search of the history. */
  lemma FindIsLookup(b: Book, id: u64)
    requires IndexAgrees(b)
    ensures b.Find(id) == Lookup(b.history, id)
  {
    LookupFinds(b.history, id);
    IndexMeansDistinct(b);
  }

  lemma {:induction false} AccountsInclude(h: seq<Entry>, i: nat)
    requires i < |h| && !h[i].IsRevision()
    ensures ChargedAccounts(h[i]) <= AccountsOf(h)
  {
    if i < |h| - 1 {
      AccountsInclude(h[..|h| - 1], i);
    }
  }

  // ---------- one more entry ----------

  lemma ExpectedStep(h: seq<Entry>, e: Entry, f: Field, a: u64, d: nat)
    requires d < DIMS
    ensures Expected(h + [e], f, a, d) == Expected(h, f, a, d)
            + (if e.IsRevision() then Enters(h, e, f, a, d) - Leaves(h, e, f, a, d) else Delta(e, a, f, d))
  {
    hide Delta, TargetIn;
    var h' := h + [e];
    assert h'[..|h'| - 1] == h && h'[|h'| - 1] == e;
    if !e.IsRevision() {
      OrdinaryMovesNothing(h, e);
    }
  }

  lemma OrdinaryMovesNothing(h: seq<Entry>, e: Entry)
    requires !e.IsRevision()
    ensures !MovesAmounts(h, e)
  {
  }

  lemma PendingCell(e: Entry, a: u64, f: Field, d: nat)
    requires d < DIMS
    ensures Cell(PendingMap(e), a, f, d) == Delta(e, a, f, d)
  {
    if a !in ChargedAccounts(e) {
      GivenToNobody(Split(e), a, if f.Quantity? then f.kind else Physical, d);
    }
  }

  lemma AcceptedIsWellPlaced(b: Book, e: Entry, b': Book)
    requires IndexAgrees(b) && Admits(b, e) && Accepted(b, e, b')
    ensures WellPlaced(b.history, e)
  {
    if e.IsRevision() {
      FindIsLookup(b, e.target.value);
    }
  }

  /** A revision that went through moved exactly the target's shares. */
  lemma RevisionSurplus(b: Book, e: Entry, b': Book, f: Field, a: u64, d: nat)
    requires IndexAgrees(b) && e.IsRevision() && Accepted(b, e, b') && d < DIMS
    requires AccountsOf(b.history) <= b.accounts.Keys && WellFormed(b.history)
    ensures Surplus(b', f, a, d) == Surplus(b, f, a, d)
    ensures b'.accounts.Keys == b.accounts.Keys
  {
    FindIsLookup(b, e.target.value);
    ExpectedStep(b.history, e, f, a, d);
    if IsConsumption(e.classification) {
      var t := b.Find(e.target.value).value;
      var from, to := Bucket(ClassOf(t.classification)), Bucket(ClassOf(e.classification));
      var s := Split(t);
      CompletedMoves(b.accounts, from, to, s, |s|);
      assert s[..|s|] == s;
      if a in b.accounts {
        assert CellMoved(b.accounts, from, to, s, b'.accounts, a, f, d);
      } else {
        NotCharged(b, t, a, d);
      }
    }
  }

  lemma NotCharged(b: Book, t: Entry, a: u64, d: nat)
    requires d < DIMS && a !in b.accounts && AccountsOf(b.history) <= b.accounts.Keys && WellFormed(b.history)
    requires Lookup(b.history, t.id) == Some(t)
    ensures Charged(t, a, Physical, d) == 0
  {
    LookupFinds(b.history, t.id);
    var i :| 0 <= i < |b.history| && b.history[i] == t;
    if t.IsRevision() {
      assert WellPlaced(b.history[..i], b.history[i]);
      ZeroCharges(t, a, Physical, d);
    } else {
      AccountsInclude(b.history, i);
      GivenToNobody(Split(t), a, Physical, d);
    }
  }

  lemma OrdinarySurplus(b: Book, e: Entry, b': Book, f: Field, a: u64, d: nat)
    requires !e.IsRevision() && Accepted(b, e, b') && d < DIMS
    ensures Surplus(b', f, a, d) == Surplus(b, f, a, d)
  {
    ExpectedStep(b.history, e, f, a, d);
    PendingCell(e, a, f, d);
  }

  lemma AccountsStep(h: seq<Entry>, e: Entry)
    ensures AccountsOf(h + [e]) == AccountsOf(h) + if e.IsRevision() then {} else ChargedAccounts(e)
  {
    assert (h + [e])[..|h|] == h;
  }

  /** A commit changes every cell by exactly what the recomputation changes. */
  lemma CommitKeepsSurplus(b: Book, e: Entry, b': Book)
    requires IndexAgrees(b) && Accepted(b, e, b') && WellFormed(b.history)
    requires AccountsOf(b.history) <= b.accounts.Keys
    ensures forall a, f, d: nat :: d < DIMS ==> Surplus(b', f, a, d) == Surplus(b, f, a, d)
    ensures AccountsOf(b'.history) <= b'.accounts.Keys
    ensures b.accounts.Keys == AccountsOf(b.history) ==> b'.accounts.Keys == AccountsOf(b'.history)
  {
    hide Surplus, Charged, ChargedAccounts, ApplyMoves, AdmitsRevision;
    AccountsStep(b.history, e);
    forall a, f, d: nat | d < DIMS ensures Surplus(b', f, a, d) == Surplus(b, f, a, d) {
      if e.IsRevision() {
        RevisionSurplus(b, e, b', f, a, d);
      } else {
        OrdinarySurplus(b, e, b', f, a, d);
      }
    }
    if e.IsRevision() {
      RevisionSurplus(b, e, b', PHYSICAL, 0, 0);
    }
  }

  // ---------- closure of the recomputation ----------

  function Gap(h: seq<Entry>, a: u64, d: nat): int
    requires d < DIMS
  {
    Expected(h, PHYSICAL, a, d) - Expected(h, Bucket(Useful), a, d) - Expected(h, Bucket(Overhead), a, d)
    - Expected(h, Bucket(Waste), a, d) - Expected(h, Bucket(Unknown), a, d)
  }

  lemma OrdinaryDeltaCloses(e: Entry, a: u64, d: nat)
    requires d < DIMS && Consistency(e) == Ok && e.classification <= UNKNOWN
    ensures Delta(e, a, PHYSICAL, d) == Delta(e, a, Bucket(Useful), d) + Delta(e, a, Bucket(Overhead), d)
                                        + Delta(e, a, Bucket(Waste), d) + Delta(e, a, Bucket(Unknown), d)
  {
    if !IsConsumption(e.classification) {
      ZeroCharges(e, a, Physical, d);
    }
  }

  lemma RevisionMovesClose(h: seq<Entry>, r: Entry, a: u64, d: nat)
    requires d < DIMS
    ensures Enters(h, r, PHYSICAL, a, d) == 0 == Leaves(h, r, PHYSICAL, a, d)
    ensures Enters(h, r, Bucket(Useful), a, d) + Enters(h, r, Bucket(Overhead), a, d)
            + Enters(h, r, Bucket(Waste), a, d) + Enters(h, r, Bucket(Unknown), a, d)
         == Leaves(h, r, Bucket(Useful), a, d) + Leaves(h, r, Bucket(Overhead), a, d)
            + Leaves(h, r, Bucket(Waste), a, d) + Leaves(h, r, Bucket(Unknown), a, d)
  {
    hide Charged, TargetIn;
  }

  /** In the recomputation of any committed history, physical consumption is exactly
      the sum of the class buckets, for every account and dimension. */
  lemma {:induction false} RecomputationCloses(h: seq<Entry>, a: u64, d: nat)
    requires WellFormed(h) && d < DIMS
    ensures Gap(h, a, d) == 0
  {
    hide Enters, Leaves, Delta;
    if h != [] {
      var p, e := h[..|h| - 1], h[|h| - 1];
      assert h == p + [e];
      WellFormedPrefix(h, |h| - 1);
      RecomputationCloses(p, a, d);
      assert WellPlaced(h[..|h| - 1], h[|h| - 1]);
      GapStep(p, e, a, d);
    }
  }

  lemma GapStep(p: seq<Entry>, e: Entry, a: u64, d: nat)
    requires d < DIMS && WellPlaced(p, e)
    ensures Gap(p + [e], a, d) == Gap(p, a, d)
  {
    hide Enters, Leaves, Delta, Expected, TargetIn;
    ExpectedStep(p, e, PHYSICAL, a, d);
    ExpectedStep(p, e, Bucket(Useful), a, d);
    ExpectedStep(p, e, Bucket(Overhead), a, d);
    ExpectedStep(p, e, Bucket(Waste), a, d);
    ExpectedStep(p, e, Bucket(Unknown), a, d);
    if e.IsRevision() {
      RevisionMovesClose(p, e, a, d);
    } else {
      OrdinaryDeltaCloses(e, a, d);
    }
  }

  lemma ExactIsClosed(b: Book)
    requires Exact(b) && WellFormed(b.history)
    ensures AllClosed(b.accounts)
  {
    forall a | a in b.accounts ensures b.accounts[a].Closed() {
      forall d: nat | d < DIMS ensures b.accounts[a].ClosedAt(d) {
        RecomputationCloses(b.history, a, d);
        assert Surplus(b, PHYSICAL, a, d) == 0 && Surplus(b, Bucket(Useful), a, d) == 0;
        assert Surplus(b, Bucket(Overhead), a, d) == 0 && Surplus(b, Bucket(Waste), a, d) == 0;
        assert Surplus(b, Bucket(Unknown), a, d) == 0;
      }
    }
  }

  // ---------- first revisions are always backed ----------

  function RevisedIds(h: seq<Entry>): set<u64>
  {
    set i | 0 <= i < |h| && h[i].IsRevision() && h[i].target.Some? :: h[i].target.value
  }

  /** No entry is revised twice. */
  ghost predicate RevisedOnce(h: seq<Entry>)
  {
    forall i, j :: 0 <= i < j < |h| && h[i].IsRevision() && h[j].IsRevision() && h[i].target.Some? ==> h[j].target != h[i].target
  }

  /** Shares still sitting in the bucket of their original class. */
  function Unrevised(h: seq<Entry>, revised: set<u64>, c: Class, a: u64, d: nat): nat
    requires d < DIMS
  {
    if h == [] then 0 else
      Unrevised(h[..|h| - 1], revised, c, a, d) + Stays(h[|h| - 1], revised, c, a, d)
  }

  function Stays(e: Entry, revised: set<u64>, c: Class, a: u64, d: nat): nat
    requires d < DIMS
  {
    if !e.IsRevision() && e.id !in revised && e.classification == ClassByte(c) then Charged(e, a, Physical, d) else 0
  }

  lemma {:induction false} UnrevisedIncludes(h: seq<Entry>, revised: set<u64>, c: Class, a: u64, d: nat, i: nat)
    requires d < DIMS && i < |h|
    ensures Stays(h[i], revised, c, a, d) <= Unrevised(h, revised, c, a, d)
  {
    hide Stays;
    if i < |h| - 1 {
      UnrevisedIncludes(h[..|h| - 1], revised, c, a, d, i);
    }
  }

  lemma {:induction false} UnrevisedIrrelevant(h: seq<Entry>, revised: set<u64>, id: u64, c: Class, a: u64, d: nat)
    requires d < DIMS && forall i :: 0 <= i < |h| ==> h[i].id != id
    ensures Unrevised(h, revised + {id}, c, a, d) == Unrevised(h, revised, c, a, d)
  {
    if h != [] {
      var p := h[..|h| - 1];
      assert forall i :: 0 <= i < |p| ==> p[i] == h[i];
      UnrevisedIrrelevant(p, revised, id, c, a, d);
    }
  }

  /** Marking one entry revised takes out its own contribution and nothing else. */
  lemma {:induction false} UnrevisedDrops(h: seq<Entry>, revised: set<u64>, t: Entry, c: Class, a: u64, d: nat)
    requires d < DIMS && DistinctIds(h) && t in h && t.id !in revised
    ensures Unrevised(h, revised + {t.id}, c, a, d) == Unrevised(h, revised, c, a, d) - Stays(t, revised, c, a, d)
  {
    var p, e := h[..|h| - 1], h[|h| - 1];
    assert forall i :: 0 <= i < |p| ==> p[i] == h[i];
    if e == t {
      forall i | 0 <= i < |p| ensures p[i].id != t.id { assert h[i].id != h[|h| - 1].id; }
      UnrevisedIrrelevant(p, revised, t.id, c, a, d);
    } else {
      assert t in p;
      var i :| 0 <= i < |p| && p[i] == t;
      assert h[i].id != h[|h| - 1].id;
      UnrevisedDrops(p, revised, t, c, a, d);
    }
  }

  lemma RevisedStep(h: seq<Entry>, e: Entry)
    ensures RevisedIds(h + [e]) == RevisedIds(h) + if e.IsRevision() && e.target.Some? then {e.target.value} else {}
  {
    var h' := h + [e];
    assert forall i :: 0 <= i < |h| ==> h'[i] == h[i];
    forall id | id in RevisedIds(h) ensures id in RevisedIds(h') {
      var i :| 0 <= i < |h| && h[i].IsRevision() && h[i].target.Some? && h[i].target.value == id;
      assert h'[i] == h[i];
    }
    if e.IsRevision() && e.target.Some? {
      assert h'[|h|] == e;
    }
  }

  /** If no entry is revised twice, every bucket of the recomputation still holds
      the shares of all the unrevised entries of its class. */
  lemma {:induction false} BucketHoldsUnrevised(h: seq<Entry>, c: Class, a: u64, d: nat)
    requires d < DIMS && WellFormed(h) && DistinctIds(h) && RevisedOnce(h)
    ensures Expected(h, Bucket(c), a, d) >= Unrevised(h, RevisedIds(h), c, a, d)
  {
    hide Expected, Unrevised, RevisedIds;
    if h == [] {
      NothingExpected(c, a, d);
    } else {
      var p, e := h[..|h| - 1], h[|h| - 1];
      assert h == p + [e];
      WellFormedPrefix(h, |h| - 1);
      assert WellPlaced(h[..|h| - 1], h[|h| - 1]);
      BucketHoldsUnrevised(p, c, a, d);
      BucketStep(p, e, c, a, d);
    }
  }

  lemma NothingExpected(c: Class, a: u64, d: nat)
    requires d < DIMS
    ensures Expected([], Bucket(c), a, d) == 0 == Unrevised([], RevisedIds([]), c, a, d)
  {
  }

  lemma BucketStep(p: seq<Entry>, e: Entry, c: Class, a: u64, d: nat)
    requires d < DIMS && WellFormed(p) && WellPlaced(p, e) && DistinctIds(p + [e]) && RevisedOnce(p + [e])
    requires Expected(p, Bucket(c), a, d) >= Unrevised(p, RevisedIds(p), c, a, d)
    ensures Expected(p + [e], Bucket(c), a, d) >= Unrevised(p + [e], RevisedIds(p + [e]), c, a, d)
  {
    hide Expected, RevisedIds, WellFormed, Charged;
    var h := p + [e];
    assert h[..|p|] == p && h[|p|] == e;
    assert DistinctIds(p) by { assert forall i :: 0 <= i < |p| ==> h[i] == p[i]; }
    ExpectedStep(p, e, Bucket(c), a, d);
    RevisedStep(p, e);
    if e.IsRevision() {
      var t := Lookup(p, e.target.value).value;
      LookupFinds(p, e.target.value);
      assert t in p && t.id == e.target.value;
      NotYetRevised(p, e);
      UnrevisedDrops(p, RevisedIds(p), t, c, a, d);
      RevisionLeavesOwn(p, e, t, c, a, d);
    } else {
      assert RevisedIds(h) == RevisedIds(p);
      OrdinaryStays(p, e, c, a, d);
    }
  }

  lemma NotYetRevised(p: seq<Entry>, e: Entry)
    requires e.IsRevision() && e.target.Some? && RevisedOnce(p + [e])
    ensures e.target.value !in RevisedIds(p)
  {
    var h := p + [e];
    forall i | 0 <= i < |p| && p[i].IsRevision() && p[i].target.Some? ensures p[i].target.value != e.target.value {
      assert h[i] == p[i] && h[|p|] == e;
    }
  }

  lemma RevisionLeavesOwn(p: seq<Entry>, e: Entry, t: Entry, c: Class, a: u64, d: nat)
    requires d < DIMS && e.IsRevision() && WellFormed(p) && WellPlaced(p, e) && t in p
    requires TargetIn(p, e) == Some(t) && t.id !in RevisedIds(p)
    ensures Leaves(p, e, Bucket(c), a, d) <= Stays(t, RevisedIds(p), c, a, d)
  {
    if t.IsRevision() {
      var i :| 0 <= i < |p| && p[i] == t;
      assert WellPlaced(p[..i], p[i]);
      ZeroCharges(t, a, Physical, d);
    }
  }

  lemma OrdinaryStays(p: seq<Entry>, e: Entry, c: Class, a: u64, d: nat)
    requires d < DIMS && !e.IsRevision()
    ensures Stays(e, RevisedIds(p), c, a, d) <= Delta(e, a, Bucket(c), d)
  {
  }

  /** A first revision finds what it needs in the recomputed bucket. */
  lemma FirstRevisionPaid(p: seq<Entry>, r: Entry, a: u64, d: nat)
    requires d < DIMS && WellFormed(p) && DistinctIds(p) && RevisedOnce(p + [r]) && MovesAmounts(p, r)
    ensures PaidFor(p, r, a, d)
  {
    hide Expected, Unrevised, RevisedIds, Split;
    var t := TargetIn(p, r).value;
    var c := ClassOf(t.classification);
    LookupFinds(p, r.target.value);
    var i :| 0 <= i < |p| && p[i] == t && t.id == r.target.value;
    NotYetRevised(p, r);
    assert RevisedOnce(p) by {
      assert forall k :: 0 <= k < |p| ==> (p + [r])[k] == p[k];
    }
    AskedAtMostGiven(Split(t), t.classification == r.classification, a, d);
    BucketHoldsUnrevised(p, c, a, d);
    if t.IsRevision() {
      assert WellPlaced(p[..i], p[i]);
      ZeroCharges(t, a, Physical, d);
    } else {
      UnrevisedIncludes(p, RevisedIds(p), c, a, d, i);
    }
  }

  // ---------- which histories can be replayed ----------

  /** The recomputed bucket of the entries `p` holds what revision `r` needs of account
      `a`: all its shares of the target, or the largest when the class stays. */
  predicate PaidFor(p: seq<Entry>, r: Entry, a: u64, d: nat)
    requires d < DIMS && MovesAmounts(p, r)
  {
    var t := TargetIn(p, r).value;
    Asked(Split(t), t.classification == r.classification, a, d) <= Expected(p, Bucket(ClassOf(t.classification)), a, d)
  }

  ghost predicate Paid(p: seq<Entry>, r: Entry)
  {
    MovesAmounts(p, r) ==> forall a: u64, d: nat :: d < DIMS ==> PaidFor(p, r, a, d)
  }

  /** Every revision that moves amounts finds them in the recomputation of the entries
      before it. A condition on the history alone. */
  ghost predicate Replayable(h: seq<Entry>)
  {
    forall i :: 0 <= i < |h| ==> Paid(h[..i], h[i])
  }

  lemma ReplayableStep(h: seq<Entry>, e: Entry)
    ensures Replayable(h + [e]) <==> Replayable(h) && Paid(h, e)
  {
    hide Paid;
    var h' := h + [e];
    assert h'[..|h|] == h && h'[|h|] == e;
    forall i | 0 <= i < |h| ensures h'[..i] == h[..i] && h'[i] == h[i] { }
  }

  /** Histories in which nothing is revised twice can be replayed. */
  lemma {:induction false} RevisedOnceIsReplayable(h: seq<Entry>)
    requires WellFormed(h) && DistinctIds(h) && RevisedOnce(h)
    ensures Replayable(h)
  {
    hide WellPlaced, MovesAmounts, PaidFor;
    if h != [] {
      var p, e := h[..|h| - 1], h[|h| - 1];
      assert h == p + [e];
      assert forall k :: 0 <= k < |p| ==> h[k] == p[k];
      WellFormedPrefix(h, |p|);
      RevisedOnceIsReplayable(p);
      if MovesAmounts(p, e) {
        forall a: u64, d: nat | d < DIMS ensures PaidFor(p, e, a, d) { FirstRevisionPaid(p, e, a, d); }
      }
      ReplayableStep(p, e);
    }
  }

  lemma TargetFound(b: Book, e: Entry)
    requires IndexAgrees(b) && e.IsRevision() && e.target.Some?
    ensures b.Find(e.target.value) == TargetIn(b.history, e)
  {
    FindIsLookup(b, e.target.value);
  }

  /** Accounts that hold at least the recomputation back every paid revision. */
  lemma PaidIsBacked(b: Book, e: Entry)
    requires Covers(b) && MovesAmounts(b.history, e) && Paid(b.history, e)
    ensures var t := TargetIn(b.history, e).value;
            Backed(b.accounts, ClassOf(t.classification), ClassOf(e.classification), Split(t))
  {
    hide Expected, AccountsOf, Asked, Split, TargetIn;
    var t := TargetIn(b.history, e).value;
    var c, c' := ClassOf(t.classification), ClassOf(e.classification);
    forall a, d: nat | a in b.accounts && d < DIMS ensures BackedAt(b.accounts, c, c', Split(t), a, d) {
      assert PaidFor(b.history, e, a, d);
      assert Surplus(b, Bucket(c), a, d) >= 0;
    }
  }

  /** Accounts that are the recomputation back exactly the paid ones. */
  lemma BackedIsPaid(b: Book, e: Entry)
    requires Exact(b) && WellFormed(b.history) && MovesAmounts(b.history, e)
    requires var t := TargetIn(b.history, e).value;
             Backed(b.accounts, ClassOf(t.classification), ClassOf(e.classification), Split(t))
    ensures Paid(b.history, e)
  {
    hide Expected, Asked, Split;
    var t := TargetIn(b.history, e).value;
    var c, c' := ClassOf(t.classification), ClassOf(e.classification);
    LookupFinds(b.history, e.target.value);
    forall a: u64, d: nat | d < DIMS ensures PaidFor(b.history, e, a, d) {
      assert Surplus(b, Bucket(c), a, d) == 0;
      if a in b.accounts {
        assert BackedAt(b.accounts, c, c', Split(t), a, d);
      } else {
        NotCharged(b, t, a, d);
        AskedAtMostGiven(Split(t), t.classification == e.classification, a, d);
      }
    }
  }
}
