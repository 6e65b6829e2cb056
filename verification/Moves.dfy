/** The bucket moves of `apply_reclassify_locked`: for each share of the target, out
    of the bucket of its original class and into the bucket of the new one, all
    sixteen dimensions out before the first one in. */
module Moves {
  import opened Bytes
  import opened Apportion
  import opened Entries
  import opened Attribution
  import opened Aggregates

  /** The first `n` dimensions of `move_out`. */
  function MoveOut(x: Aggregate, f: Field, amount: Dims, n: nat): (Aggregate, bool)
    requires n <= DIMS
  {
    if n == 0 then (x, true) else
      var (y, ok) := MoveOut(x, f, amount, n - 1);
      if !ok then (y, false) else
        var v := CheckedSub(y.At(f, n - 1), amount[n - 1]);
        if v.Overflow? then (y, false) else (y.Set(f, n - 1, v.v), true)
  }

  /** The first `n` dimensions of `move_in`. */
  function MoveIn(x: Aggregate, f: Field, amount: Dims, n: nat): (Aggregate, bool)
    requires n <= DIMS
  {
    if n == 0 then (x, true) else
      var (y, ok) := MoveIn(x, f, amount, n - 1);
      if !ok then (y, false) else
        var v := CheckedAdd(y.At(f, n - 1), amount[n - 1]);
        if v.Overflow? then (y, false) else (y.Set(f, n - 1, v.v), true)
  }

  function MoveAggregate(x: Aggregate, from: Field, to: Field, amount: Dims): (Aggregate, bool)
  {
    var (y, ok) := MoveOut(x, from, amount, DIMS);
    if !ok then (y, false) else MoveIn(y, to, amount, DIMS)
  }

  /** One share; an account the ledger does not know is skipped. */
  function MoveShare(m: AccountMap, from: Field, to: Field, s: ShareOf): (AccountMap, bool)
  {
    if s.account !in m then (m, true) else
      var (x, ok) := MoveAggregate(m[s.account], from, to, s.physical);
      (m[s.account := x], ok)
  }

  /** The first `n` shares; stops at the first failure. */
  function MoveShares(m: AccountMap, from: Field, to: Field, s: seq<ShareOf>, n: nat): (AccountMap, bool)
    requires n <= |s|
  {
    if n == 0 then (m, true) else
      var (m', ok) := MoveShares(m, from, to, s, n - 1);
      if !ok then (m', false) else MoveShare(m', from, to, s[n - 1])
  }

  // ---------- one account ----------

  /** The amounts before dimension `n` have left row `f`; nothing else has changed. */
  ghost predicate OutUpTo(x: Aggregate, f: Field, amount: Dims, n: nat, y: Aggregate)
  {
    forall g, d: nat :: d < DIMS ==>
      y.At(g, d) as int == x.At(g, d) as int - if g == f && d < n then amount[d] as int else 0
  }

  lemma OutOneMore(x: Aggregate, f: Field, amount: Dims, d: nat, y: Aggregate)
    requires d < DIMS && OutUpTo(x, f, amount, d, y)
    ensures y.At(f, d) == x.At(f, d)
    ensures amount[d] <= x.At(f, d) ==> OutUpTo(x, f, amount, d + 1, y.Set(f, d, x.At(f, d) - amount[d]))
  {
    assert y.At(f, d) == x.At(f, d);
  }

  /** Wherever `move_out` stops, exactly the dimensions before have left, and it stops
      only at one that is short. */
  lemma {:induction false} MoveOutShape(x: Aggregate, f: Field, amount: Dims, n: nat) returns (m: nat)
    requires n <= DIMS
    ensures var (y, ok) := MoveOut(x, f, amount, n);
            && m <= n && (ok <==> m == n) && OutUpTo(x, f, amount, m, y)
            && (m < n ==> amount[m] > x.At(f, m))
  {
    hide OutUpTo;
    if n == 0 {
      m := 0;
      OutNone(x, f, amount);
    } else {
      m := MoveOutShape(x, f, amount, n - 1);
      if m == n - 1 {
        OutOneMore(x, f, amount, n - 1, MoveOut(x, f, amount, n - 1).0);
        m := if MoveOut(x, f, amount, n).1 then n else n - 1;
      }
    }
  }

  lemma OutNone(x: Aggregate, f: Field, amount: Dims)
    ensures OutUpTo(x, f, amount, 0, x)
  {
  }

  /** The amounts before dimension `n` have entered row `f`; nothing else has changed. */
  ghost predicate InUpTo(x: Aggregate, f: Field, amount: Dims, n: nat, y: Aggregate)
  {
    forall g, d: nat :: d < DIMS ==>
      y.At(g, d) as int == x.At(g, d) as int + if g == f && d < n then amount[d] as int else 0
  }

  lemma InOneMore(x: Aggregate, f: Field, amount: Dims, d: nat, y: Aggregate)
    requires d < DIMS && InUpTo(x, f, amount, d, y)
    ensures y.At(f, d) == x.At(f, d)
    ensures x.At(f, d) as int + amount[d] as int <= MAX64 ==> InUpTo(x, f, amount, d + 1, y.Set(f, d, x.At(f, d) + amount[d]))
  {
    assert y.At(f, d) == x.At(f, d);
  }

  /** Wherever `move_in` stops, exactly the dimensions before have entered, and it stops
      only at one that has no room. */
  lemma {:induction false} MoveInShape(x: Aggregate, f: Field, amount: Dims, n: nat) returns (m: nat)
    requires n <= DIMS
    ensures var (y, ok) := MoveIn(x, f, amount, n);
            && m <= n && (ok <==> m == n) && InUpTo(x, f, amount, m, y)
            && (m < n ==> x.At(f, m) as int + amount[m] as int > MAX64)
  {
    hide InUpTo;
    if n == 0 {
      m := 0;
      InNone(x, f, amount);
    } else {
      m := MoveInShape(x, f, amount, n - 1);
      if m == n - 1 {
        InOneMore(x, f, amount, n - 1, MoveIn(x, f, amount, n - 1).0);
        m := if MoveIn(x, f, amount, n).1 then n else n - 1;
      }
    }
  }

  lemma InNone(x: Aggregate, f: Field, amount: Dims)
    ensures InUpTo(x, f, amount, 0, x)
  {
  }

  /** What a completed move did to each cell. */
  ghost predicate Moved(x: Aggregate, from: Field, to: Field, amount: Dims, y: Aggregate)
  {
    forall f, d: nat :: d < DIMS ==>
      y.At(f, d) as int + (if f == from then amount[d] as int else 0)
      == x.At(f, d) as int + (if f == to then amount[d] as int else 0)
  }

  lemma MoveAggregateShape(x: Aggregate, from: Field, to: Field, amount: Dims)
    ensures var (y, ok) := MoveAggregate(x, from, to, amount);
            && (forall f, d: nat :: d < DIMS && f != from && f != to ==> y.At(f, d) == x.At(f, d))
            && (ok ==> Moved(x, from, to, amount, y))
            && (ok ==> forall d: nat :: d < DIMS ==> amount[d] <= x.At(from, d))
  {
    var m := MoveOutShape(x, from, amount, DIMS);
    var y := MoveOut(x, from, amount, DIMS).0;
    var _ := MoveInShape(y, to, amount, DIMS);
    forall d: nat | d < m ensures amount[d] <= x.At(from, d) {
      assert y.At(from, d) as int == x.At(from, d) as int - amount[d] as int;
    }
  }

  /** While buckets do not exceed physical consumption, what has left one bucket is
      room for the other: after a complete `move_out` the `move_in` cannot overflow. */
  lemma MoveInNeverOverflows(x: Aggregate, c: Class, c': Class, amount: Dims)
    requires x.Within() && MoveOut(x, Bucket(c), amount, DIMS).1
    ensures MoveIn(MoveOut(x, Bucket(c), amount, DIMS).0, Bucket(c'), amount, DIMS).1
  {
    hide MoveOut, MoveIn;
    var m := MoveOutShape(x, Bucket(c), amount, DIMS);
    var y := MoveOut(x, Bucket(c), amount, DIMS).0;
    var n := MoveInShape(y, Bucket(c'), amount, DIMS);
    forall d: nat | d < DIMS ensures amount[d] as int + y.At(Bucket(c'), d) as int <= MAX64 {
      assert x.WithinAt(d);
      BucketPairBelowPhysical(x, c, c', d);
      assert y.At(Bucket(c), d) as int == x.At(Bucket(c), d) as int - amount[d] as int;
    }
  }

  lemma BucketPairBelowPhysical(x: Aggregate, c: Class, c': Class, d: nat)
    requires d < DIMS && x.WithinAt(d)
    ensures x.At(Bucket(c), d) as int + (if c == c' then 0 else x.At(Bucket(c'), d) as int) <= x.At(PHYSICAL, d) as int
  {
  }

  /** So one share moves exactly when the bucket holds it. */
  lemma MoveAggregateIff(x: Aggregate, c: Class, c': Class, amount: Dims)
    requires x.Within()
    ensures MoveAggregate(x, Bucket(c), Bucket(c'), amount).1 <==> forall d: nat :: d < DIMS ==> amount[d] <= x.At(Bucket(c), d)
  {
    hide MoveOut, MoveIn, Aggregate.Within;
    var m := MoveOutShape(x, Bucket(c), amount, DIMS);
    MoveAggregateShape(x, Bucket(c), Bucket(c'), amount);
    if m == DIMS {
      MoveInNeverOverflows(x, c, c', amount);
    }
  }

  /** A move, complete or not, never lifts the buckets above physical consumption. */
  lemma MoveKeepsWithin(x: Aggregate, c: Class, c': Class, amount: Dims)
    requires x.Within()
    ensures MoveAggregate(x, Bucket(c), Bucket(c'), amount).0.Within()
  {
    hide MoveOut, MoveIn;
    var m := MoveOutShape(x, Bucket(c), amount, DIMS);
    var y := MoveAggregate(x, Bucket(c), Bucket(c'), amount).0;
    if m == DIMS {
      MoveInNeverOverflows(x, c, c', amount);
      MoveAggregateShape(x, Bucket(c), Bucket(c'), amount);
    }
    forall d: nat | d < DIMS ensures y.WithinAt(d) {
      assert x.WithinAt(d);
      if m == DIMS {
        MovedKeepsClassified(x, c, c', amount, y, d);
      } else {
        OutLowersClassified(x, c, amount, m, y, d);
      }
    }
  }

  lemma MovedKeepsClassified(x: Aggregate, c: Class, c': Class, amount: Dims, y: Aggregate, d: nat)
    requires d < DIMS && Moved(x, Bucket(c), Bucket(c'), amount, y)
    ensures y.Classified(d) == x.Classified(d) && y.At(PHYSICAL, d) == x.At(PHYSICAL, d)
  {
  }

  lemma OutLowersClassified(x: Aggregate, c: Class, amount: Dims, n: nat, y: Aggregate, d: nat)
    requires d < DIMS && OutUpTo(x, Bucket(c), amount, n, y)
    ensures y.Classified(d) == x.Classified(d) - if d < n then amount[d] as int else 0
    ensures y.At(PHYSICAL, d) == x.At(PHYSICAL, d)
  {
    assert y.At(PHYSICAL, d) == x.At(PHYSICAL, d);
    match c
    case Useful =>
    case Overhead =>
    case Waste =>
    case Unknown =>
  }

  lemma MovedKeepsClosed(x: Aggregate, c: Class, c': Class, amount: Dims, y: Aggregate)
    requires x.Closed() && Moved(x, Bucket(c), Bucket(c'), amount, y)
    ensures y.Closed()
  {
    forall d: nat | d < DIMS ensures y.ClosedAt(d) {
      assert x.ClosedAt(d);
      MovedKeepsClassified(x, c, c', amount, y, d);
    }
  }

  // ---------- all shares ----------

  /** Whatever happens, accounts are neither created nor dropped and the physical,
      avoided and stranded rows, and the buckets of other classes, do not move. */
  lemma {:induction false} MovesTouchOnlyBuckets(m: AccountMap, from: Field, to: Field, s: seq<ShareOf>, n: nat)
    requires n <= |s|
    ensures var m' := MoveShares(m, from, to, s, n).0;
            && m'.Keys == m.Keys
            && forall a, f, d: nat :: a in m && d < DIMS && f != from && f != to ==> m'[a].At(f, d) == m[a].At(f, d)
  {
    hide MoveAggregate;
    if n > 0 {
      MovesTouchOnlyBuckets(m, from, to, s, n - 1);
      var (m1, ok) := MoveShares(m, from, to, s, n - 1);
      if ok && s[n - 1].account in m1 {
        MoveAggregateShape(m1[s[n - 1].account], from, to, s[n - 1].physical);
      }
    }
  }

  /** The effect of completed moves on every cell. */
  ghost predicate AllMoved(m: AccountMap, from: Field, to: Field, s: seq<ShareOf>, m': AccountMap)
  {
    && m'.Keys == m.Keys
    && forall a, f, d: nat :: a in m && d < DIMS ==> CellMoved(m, from, to, s, m', a, f, d)
  }

  predicate CellMoved(m: AccountMap, from: Field, to: Field, s: seq<ShareOf>, m': AccountMap, a: u64, f: Field, d: nat)
    requires a in m && a in m' && d < DIMS
  {
    m'[a].At(f, d) as int + (if f == from then GivenTo(s, a, Physical, d) else 0)
    == m[a].At(f, d) as int + (if f == to then GivenTo(s, a, Physical, d) else 0)
  }

  lemma MoveOneMore(m: AccountMap, from: Field, to: Field, s: seq<ShareOf>, n: nat, m1: AccountMap)
    requires 0 < n <= |s| && AllMoved(m, from, to, s[..n - 1], m1)
    requires MoveShare(m1, from, to, s[n - 1]).1
    ensures AllMoved(m, from, to, s[..n], MoveShare(m1, from, to, s[n - 1]).0)
  {
    hide MoveAggregate;
    var sh := s[n - 1];
    var m' := MoveShare(m1, from, to, sh).0;
    if sh.account in m1 {
      MoveAggregateShape(m1[sh.account], from, to, sh.physical);
    }
    forall a, f, d: nat | a in m && d < DIMS ensures CellMoved(m, from, to, s[..n], m', a, f, d) {
      assert CellMoved(m, from, to, s[..n - 1], m1, a, f, d);
      assert s[..n][..n - 1] == s[..n - 1] && s[..n][n - 1] == sh;
      assert sh.Of(Physical) == sh.physical;
    }
  }

  lemma {:induction false} CompletedMoves(m: AccountMap, from: Field, to: Field, s: seq<ShareOf>, n: nat)
    requires n <= |s| && MoveShares(m, from, to, s, n).1
    ensures AllMoved(m, from, to, s[..n], MoveShares(m, from, to, s, n).0)
  {
    hide AllMoved, MoveShare;
    if n == 0 {
      NothingMoved(m, from, to);
    } else {
      CompletedMoves(m, from, to, s, n - 1);
      MoveOneMore(m, from, to, s, n, MoveShares(m, from, to, s, n - 1).0);
    }
  }

  lemma NothingMoved(m: AccountMap, from: Field, to: Field)
    ensures AllMoved(m, from, to, [], m)
  {
    forall a, f, d: nat | a in m && d < DIMS ensures CellMoved(m, from, to, [], m, a, f, d) { }
  }

  /** Moves between class buckets that complete keep every account closed. */
  lemma {:induction false} MovesKeepClosed(m: AccountMap, c: Class, c': Class, s: seq<ShareOf>, n: nat)
    requires n <= |s| && AllClosed(m) && MoveShares(m, Bucket(c), Bucket(c'), s, n).1
    ensures AllClosed(MoveShares(m, Bucket(c), Bucket(c'), s, n).0)
  {
    hide MoveAggregate, Aggregate.Closed, Moved;
    if n > 0 {
      MovesKeepClosed(m, c, c', s, n - 1);
      var m1 := MoveShares(m, Bucket(c), Bucket(c'), s, n - 1).0;
      var sh := s[n - 1];
      if sh.account in m1 {
        MoveAggregateShape(m1[sh.account], Bucket(c), Bucket(c'), sh.physical);
        MovedKeepsClosed(m1[sh.account], c, c', sh.physical, MoveAggregate(m1[sh.account], Bucket(c), Bucket(c'), sh.physical).0);
      }
    }
  }

  /** Moves, complete or not, keep every account's buckets within physical consumption. */
  lemma {:induction false} MovesKeepWithin(m: AccountMap, c: Class, c': Class, s: seq<ShareOf>, n: nat)
    requires n <= |s| && AllWithin(m)
    ensures AllWithin(MoveShares(m, Bucket(c), Bucket(c'), s, n).0)
  {
    hide MoveAggregate, Aggregate.Within;
    if n > 0 {
      MovesKeepWithin(m, c, c', s, n - 1);
      var (m1, ok) := MoveShares(m, Bucket(c), Bucket(c'), s, n - 1);
      if ok && s[n - 1].account in m1 {
        MoveKeepsWithin(m1[s[n - 1].account], c, c', s[n - 1].physical);
      }
    }
  }

  // ---------- when do moves complete? ----------

  /** What the bucket still holds for account `a` when share `k` is reached. Between
      different classes earlier shares of the same account have already left. */
  function Held(m: AccountMap, c: Class, c': Class, s: seq<ShareOf>, k: nat, a: u64, d: nat): int
    requires k <= |s| && a in m && d < DIMS
  {
    m[a].At(Bucket(c), d) as int - if c == c' then 0 else GivenTo(s[..k], a, Physical, d)
  }

  predicate ShortAt(m: AccountMap, c: Class, c': Class, s: seq<ShareOf>, k: nat, d: nat)
  {
    k < |s| && d < DIMS && s[k].account in m && s[k].physical[d] > Held(m, c, c', s, k, s[k].account, d)
  }

  ghost predicate NeverShort(m: AccountMap, c: Class, c': Class, s: seq<ShareOf>, n: nat)
  {
    forall k: nat, d: nat :: k < n ==> !ShortAt(m, c, c', s, k, d)
  }

  lemma HeldAfterMoves(m: AccountMap, c: Class, c': Class, s: seq<ShareOf>, k: nat, a: u64, d: nat)
    requires k <= |s| && a in m && d < DIMS && MoveShares(m, Bucket(c), Bucket(c'), s, k).1
    ensures var m1 := MoveShares(m, Bucket(c), Bucket(c'), s, k).0;
            a in m1 && m1[a].At(Bucket(c), d) as int == Held(m, c, c', s, k, a, d)
  {
    hide MoveShares;
    CompletedMoves(m, Bucket(c), Bucket(c'), s, k);
    assert CellMoved(m, Bucket(c), Bucket(c'), s[..k], MoveShares(m, Bucket(c), Bucket(c'), s, k).0, a, Bucket(c), d);
  }

  lemma MoveShareIff(m: AccountMap, c: Class, c': Class, s: seq<ShareOf>, k: nat)
    requires k < |s| && AllWithin(m) && MoveShares(m, Bucket(c), Bucket(c'), s, k).1
    ensures MoveShares(m, Bucket(c), Bucket(c'), s, k + 1).1 <==> forall d: nat :: !ShortAt(m, c, c', s, k, d)
  {
    hide Held, MoveAggregate, Aggregate.Within;
    MovesKeepWithin(m, c, c', s, k);
    MovesTouchOnlyBuckets(m, Bucket(c), Bucket(c'), s, k);
    var m1 := MoveShares(m, Bucket(c), Bucket(c'), s, k).0;
    var a := s[k].account;
    if a in m {
      forall d: nat | d < DIMS ensures ShortAt(m, c, c', s, k, d) <==> s[k].physical[d] > m1[a].At(Bucket(c), d) {
        HeldAfterMoves(m, c, c', s, k, a, d);
      }
      MoveAggregateIff(m1[a], c, c', s[k].physical);
    }
  }

  /** While buckets do not exceed physical consumption, the first `n` moves complete
      exactly when none of them finds its bucket short. */
  lemma {:induction false} MovesCompleteIff(m: AccountMap, c: Class, c': Class, s: seq<ShareOf>, n: nat)
    requires n <= |s| && AllWithin(m)
    ensures MoveShares(m, Bucket(c), Bucket(c'), s, n).1 <==> NeverShort(m, c, c', s, n)
  {
    hide ShortAt, AllWithin, MoveShare;
    if n > 0 {
      MovesCompleteIff(m, c, c', s, n - 1);
      if MoveShares(m, Bucket(c), Bucket(c'), s, n - 1).1 {
        MoveShareIff(m, c, c', s, n - 1);
      }
    }
  }

  /** The largest single share of account `a`. */
  function Largest(s: seq<ShareOf>, a: u64, d: nat): nat
    requires d < DIMS
  {
    if s == [] then 0 else
      var n := |s| - 1;
      var x := Largest(s[..n], a, d);
      if s[n].account == a && s[n].physical[d] > x then s[n].physical[d] else x
  }

  /** The most a list of moves needs in the bucket of account `a`: all its shares
      when they change class, the largest one when each comes straight back. */
  function Asked(s: seq<ShareOf>, same: bool, a: u64, d: nat): nat
    requires d < DIMS
  {
    if same then Largest(s, a, d) else GivenTo(s, a, Physical, d)
  }

  lemma {:induction false} AskedAtMostGiven(s: seq<ShareOf>, same: bool, a: u64, d: nat)
    requires d < DIMS
    ensures Asked(s, same, a, d) <= GivenTo(s, a, Physical, d)
  {
    if same && s != [] {
      AskedAtMostGiven(s[..|s| - 1], same, a, d);
      assert s[|s| - 1].Of(Physical) == s[|s| - 1].physical;
    }
  }

  lemma {:induction false} LargestIsLargest(s: seq<ShareOf>, a: u64, d: nat, k: nat)
    requires d < DIMS && k < |s| && s[k].account == a
    ensures s[k].physical[d] <= Largest(s, a, d)
  {
    if k < |s| - 1 {
      LargestIsLargest(s[..|s| - 1], a, d, k);
    }
  }

  predicate BackedAt(m: AccountMap, c: Class, c': Class, s: seq<ShareOf>, a: u64, d: nat)
    requires a in m && d < DIMS
  {
    Asked(s, c == c', a, d) <= m[a].At(Bucket(c), d)
  }

  /** Every account's bucket holds what it is asked for. */
  ghost predicate Backed(m: AccountMap, c: Class, c': Class, s: seq<ShareOf>)
  {
    forall a, d: nat :: a in m && d < DIMS ==> BackedAt(m, c, c', s, a, d)
  }

  lemma BackedNeverShort(m: AccountMap, c: Class, c': Class, s: seq<ShareOf>, k: nat, d: nat)
    requires Backed(m, c, c', s)
    ensures !ShortAt(m, c, c', s, k, d)
  {
    if k < |s| && d < DIMS && s[k].account in m {
      var a := s[k].account;
      assert BackedAt(m, c, c', s, a, d);
      LargestIsLargest(s, a, d, k);
      GivenToPrefix(s, k + 1, a, Physical, d);
      assert s[..k + 1][..k] == s[..k] && s[..k + 1][k] == s[k] && s[k].Of(Physical) == s[k].physical;
    }
  }

  lemma {:induction false} NeverShortHolds(m: AccountMap, c: Class, c': Class, s: seq<ShareOf>, n: nat, a: u64, d: nat)
    requires n <= |s| && NeverShort(m, c, c', s, n) && a in m && d < DIMS
    ensures Asked(s[..n], c == c', a, d) <= m[a].At(Bucket(c), d)
  {
    if n > 0 {
      NeverShortHolds(m, c, c', s, n - 1, a, d);
      assert !ShortAt(m, c, c', s, n - 1, d);
      assert s[..n][..n - 1] == s[..n - 1] && s[..n][n - 1] == s[n - 1] && s[n - 1].Of(Physical) == s[n - 1].physical;
    }
  }

  /** The whole list of moves completes exactly when it is backed, account by account. */
  lemma BackedMovesComplete(m: AccountMap, c: Class, c': Class, s: seq<ShareOf>)
    requires AllWithin(m)
    ensures MoveShares(m, Bucket(c), Bucket(c'), s, |s|).1 <==> Backed(m, c, c', s)
  {
    hide MoveShares, AllWithin, ShortAt, Asked;
    MovesCompleteIff(m, c, c', s, |s|);
    if Backed(m, c, c', s) {
      forall k: nat, d: nat | k < |s| ensures !ShortAt(m, c, c', s, k, d) { BackedNeverShort(m, c, c', s, k, d); }
    }
    if NeverShort(m, c, c', s, |s|) {
      assert s[..|s|] == s;
      forall a, d: nat | a in m && d < DIMS ensures BackedAt(m, c, c', s, a, d) {
        NeverShortHolds(m, c, c', s, |s|, a, d);
      }
    }
  }

  lemma {:induction false} MoveFailureSticks(m: AccountMap, from: Field, to: Field, s: seq<ShareOf>, n: nat, k: nat)
    requires n <= k <= |s| && !MoveShares(m, from, to, s, n).1
    ensures MoveShares(m, from, to, s, k) == MoveShares(m, from, to, s, n)
    decreases k
  {
    hide MoveShare;
    if n < k {
      MoveFailureSticks(m, from, to, s, n, k - 1);
    }
  }
}
