/** Per-account totals and the two ways src/ledger.cpp changes them: committing the
    pending totals of an entry cell by cell (`apply_attribution`) and moving a
    target's shares between class buckets (`apply_reclassify_locked`). Both stop at
    the first failing cell and keep what they changed before it. */
module Aggregates {
  import opened Bytes
  import opened Apportion
  import opened Entries
  import opened Attribution

  datatype Class = Useful | Overhead | Waste | Unknown

  /** The seven rows of an account. */
  datatype Field = Quantity(kind: Kind) | Bucket(class_: Class)

  const PHYSICAL: Field := Quantity(Physical)

  /** The order in which the commit loop visits the rows of one dimension. */
  const FIELDS: seq<Field> := [Quantity(Physical), Quantity(Avoided), Quantity(Stranded),
                               Bucket(Useful), Bucket(Overhead), Bucket(Waste), Bucket(Unknown)]

  function Ord(f: Field): (i: nat)
    ensures i < 7 && FIELDS[i] == f
  {
    match f
    case Quantity(Physical) => 0
    case Quantity(Avoided) => 1
    case Quantity(Stranded) => 2
    case Bucket(Useful) => 3
    case Bucket(Overhead) => 4
    case Bucket(Waste) => 5
    case Bucket(Unknown) => 6
  }

  function ClassByte(c: Class): Byte
  {
    match c
    case Useful => USEFUL
    case Overhead => OVERHEAD
    case Waste => WASTE
    case Unknown => UNKNOWN
  }

  function ClassOf(b: Byte): (c: Class)
    requires IsConsumption(b)
    ensures ClassByte(c) == b
  {
    if b == USEFUL then Useful else if b == OVERHEAD then Overhead else if b == WASTE then Waste else Unknown
  }

  datatype Aggregate = Aggregate(physical: Dims, useful: Dims, overhead: Dims, waste: Dims, unknown: Dims,
                                 avoided: Dims, stranded: Dims)
  {
    function Row(f: Field): Dims
    {
      match f
      case Quantity(Physical) => physical
      case Quantity(Avoided) => avoided
      case Quantity(Stranded) => stranded
      case Bucket(Useful) => useful
      case Bucket(Overhead) => overhead
      case Bucket(Waste) => waste
      case Bucket(Unknown) => unknown
    }

    function WithRow(f: Field, r: Dims): Aggregate
    {
      match f
      case Quantity(Physical) => this.(physical := r)
      case Quantity(Avoided) => this.(avoided := r)
      case Quantity(Stranded) => this.(stranded := r)
      case Bucket(Useful) => this.(useful := r)
      case Bucket(Overhead) => this.(overhead := r)
      case Bucket(Waste) => this.(waste := r)
      case Bucket(Unknown) => this.(unknown := r)
    }

    function At(f: Field, d: nat): u64
      requires d < DIMS
    {
      Row(f)[d]
    }

    function Set(f: Field, d: nat, v: u64): (x: Aggregate)
      requires d < DIMS
      ensures forall g, c: nat :: c < DIMS ==> x.At(g, c) == if g == f && c == d then v else At(g, c)
    {
      WithRow(f, Row(f)[d := v])
    }

    /** Physical consumption is exactly the four class buckets, as integers. */
    ghost predicate Closed()
    {
      forall d: nat :: d < DIMS ==> ClosedAt(d)
    }

    predicate ClosedAt(d: nat)
      requires d < DIMS
    {
      At(PHYSICAL, d) as int == Classified(d)
    }

    /** The class buckets together never exceed physical consumption. */
    ghost predicate Within()
    {
      forall d: nat :: d < DIMS ==> WithinAt(d)
    }

    predicate WithinAt(d: nat)
      requires d < DIMS
    {
      Classified(d) <= At(PHYSICAL, d) as int
    }

    function Classified(d: nat): nat
      requires d < DIMS
    {
      At(Bucket(Useful), d) as int + At(Bucket(Overhead), d) as int + At(Bucket(Waste), d) as int + At(Bucket(Unknown), d) as int
    }
  }

  type AccountMap = map<u64, Aggregate>

  ghost predicate AllClosed(m: AccountMap)
  {
    forall a :: a in m ==> m[a].Closed()
  }

  ghost predicate AllWithin(m: AccountMap)
  {
    forall a :: a in m ==> m[a].Within()
  }

  lemma ClosedIsWithin(m: AccountMap)
    requires AllClosed(m)
    ensures AllWithin(m)
  {
    forall a | a in m ensures m[a].Within() {
      forall d: nat | d < DIMS ensures m[a].WithinAt(d) { assert m[a].ClosedAt(d); }
    }
  }

  const EMPTY_AGGREGATE := Aggregate(ZERO, ZERO, ZERO, ZERO, ZERO, ZERO, ZERO)

  /** The cell of an account; an absent account counts as zero. */
  function Cell(m: AccountMap, a: u64, f: Field, d: nat): u64
    requires d < DIMS
  {
    if a in m then m[a].At(f, d) else 0
  }

  lemma SameCells(x: Aggregate, y: Aggregate)
    requires forall f, d: nat :: d < DIMS ==> x.At(f, d) == y.At(f, d)
    ensures x == y
  {
    forall f ensures x.Row(f) == y.Row(f) {
      forall d | 0 <= d < DIMS ensures x.Row(f)[d] == y.Row(f)[d] { assert x.At(f, d) == y.At(f, d); }
    }
    assert x.Row(Quantity(Physical)) == y.Row(Quantity(Physical));
    assert x.Row(Quantity(Avoided)) == y.Row(Quantity(Avoided));
    assert x.Row(Quantity(Stranded)) == y.Row(Quantity(Stranded));
    assert x.Row(Bucket(Useful)) == y.Row(Bucket(Useful));
    assert x.Row(Bucket(Overhead)) == y.Row(Bucket(Overhead));
    assert x.Row(Bucket(Waste)) == y.Row(Bucket(Waste));
    assert x.Row(Bucket(Unknown)) == y.Row(Bucket(Unknown));
  }

  // ---------- what an entry adds ----------

  /** The amount entry `e` adds to one cell of account `a`. */
  function Delta(e: Entry, a: u64, f: Field, d: nat): nat
    requires d < DIMS
  {
    match f
    case Quantity(k) => Charged(e, a, k, d)
    case Bucket(c) => if ClassByte(c) == e.classification then Charged(e, a, Physical, d) else 0
  }

  lemma DeltaFits(e: Entry, a: u64, f: Field, d: nat)
    requires d < DIMS
    ensures Delta(e, a, f, d) <= MAX64
  {
    var k := if f.Quantity? then f.kind else Physical;
    PendingNeverOverflows(e, 0, a, k, d);
  }

  function DeltaRow(e: Entry, a: u64, f: Field): (r: Dims)
    ensures forall d :: 0 <= d < DIMS ==> r[d] == Delta(e, a, f, d)
  {
    assert forall d: nat :: d < DIMS ==> Delta(e, a, f, d) <= MAX64 by {
      forall d: nat | d < DIMS ensures Delta(e, a, f, d) <= MAX64 { DeltaFits(e, a, f, d); }
    }
    seq(DIMS, d requires 0 <= d < DIMS => Delta(e, a, f, d))
  }

  /** The pending totals of account `a`. */
  function Pending(e: Entry, a: u64): (x: Aggregate)
    ensures forall f, d: nat :: d < DIMS ==> x.At(f, d) == Delta(e, a, f, d)
  {
    hide Delta;
    Aggregate(DeltaRow(e, a, Quantity(Physical)), DeltaRow(e, a, Bucket(Useful)), DeltaRow(e, a, Bucket(Overhead)),
              DeltaRow(e, a, Bucket(Waste)), DeltaRow(e, a, Bucket(Unknown)),
              DeltaRow(e, a, Quantity(Avoided)), DeltaRow(e, a, Quantity(Stranded)))
  }

  function PendingMap(e: Entry): AccountMap
  {
    map a | a in ChargedAccounts(e) :: Pending(e, a)
  }

  // ---------- committing one account ----------

  /** Cell `i` of the commit loop: dimension i/7, row i%7. */
  function CommitCell(x: Aggregate, add: Aggregate, i: nat): (Aggregate, bool)
    requires i < 7 * DIMS
  {
    var f, d := FIELDS[i % 7], i / 7;
    var sum := CheckedAdd(x.At(f, d), add.At(f, d));
    if sum.Overflow? then (x, false) else (x.Set(f, d, sum.v), true)
  }

  /** The first `n` cells of the commit loop. */
  function CommitCells(dst: Aggregate, add: Aggregate, n: nat): (Aggregate, bool)
    requires n <= 7 * DIMS
  {
    if n == 0 then (dst, true) else
      var (x, ok) := CommitCells(dst, add, n - 1);
      if !ok then (x, false) else CommitCell(x, add, n - 1)
  }

  function Commit(dst: Aggregate, add: Aggregate): (Aggregate, bool)
  {
    CommitCells(dst, add, 7 * DIMS)
  }

  function Place(f: Field, d: nat): nat
  {
    7 * d + Ord(f)
  }

  /** After a commit, successful or not, a prefix of the visiting order has been
      added and the rest is untouched; it stops before the end only at a cell that
      would overflow. */
  ghost predicate AddedUpTo(dst: Aggregate, add: Aggregate, x: Aggregate, m: nat)
  {
    forall f, d: nat :: d < DIMS ==>
      x.At(f, d) as int == dst.At(f, d) as int + if Place(f, d) < m then add.At(f, d) as int else 0
  }

  lemma PlaceOfCell(i: nat)
    requires i < 7 * DIMS
    ensures i / 7 < DIMS && Place(FIELDS[i % 7], i / 7) == i
    ensures forall f, d: nat :: Place(f, d) == i ==> f == FIELDS[i % 7] && d == i / 7
  {
    assert Ord(FIELDS[i % 7]) == i % 7;
    forall f, d: nat | Place(f, d) == i ensures f == FIELDS[i % 7] && d == i / 7 {
      assert Ord(f) == i % 7 && d == i / 7;
    }
  }

  /** The cell at which a commit stopped would have overflowed. */
  predicate FullAt(dst: Aggregate, add: Aggregate, i: nat)
    requires i < 7 * DIMS
  {
    dst.At(FIELDS[i % 7], i / 7) as int + add.At(FIELDS[i % 7], i / 7) as int > MAX64
  }

  lemma AddOneMore(dst: Aggregate, add: Aggregate, x: Aggregate, i: nat)
    requires i < 7 * DIMS && AddedUpTo(dst, add, x, i)
    ensures var (y, ok) := CommitCell(x, add, i);
            && (ok ==> AddedUpTo(dst, add, y, i + 1))
            && (!ok ==> y == x && FullAt(dst, add, i))
  {
    PlaceOfCell(i);
    var f, d := FIELDS[i % 7], i / 7;
    assert Place(f, d) == i;
    assert x.At(f, d) == dst.At(f, d);
    var (y, ok) := CommitCell(x, add, i);
    if ok {
      forall g, c: nat | c < DIMS
        ensures y.At(g, c) as int == dst.At(g, c) as int + if Place(g, c) < i + 1 then add.At(g, c) as int else 0
      {
        assert Place(g, c) == i ==> g == f && c == d;
      }
    }
  }

  lemma AddedNone(dst: Aggregate, add: Aggregate)
    ensures AddedUpTo(dst, add, dst, 0)
  {
  }

  lemma {:induction false} CommitShape(dst: Aggregate, add: Aggregate, n: nat) returns (m: nat)
    requires n <= 7 * DIMS
    ensures var (x, ok) := CommitCells(dst, add, n);
            && m <= n && (ok <==> m == n) && AddedUpTo(dst, add, x, m)
            && (m < n ==> FullAt(dst, add, m))
  {
    hide AddedUpTo, FullAt, CommitCell;
    if n == 0 {
      m := 0;
      AddedNone(dst, add);
    } else {
      m := CommitShape(dst, add, n - 1);
      if m == n - 1 {
        AddOneMore(dst, add, CommitCells(dst, add, n - 1).0, n - 1);
        m := if CommitCells(dst, add, n).1 then n else n - 1;
      }
    }
  }

  /** Consumption entries add nothing to avoided and stranded; the others add
      nothing physical. This is what `check_classification_consistency` secures. */
  ghost predicate OneSided(add: Aggregate)
  {
    || (forall d: nat :: d < DIMS ==> add.At(Quantity(Avoided), d) == 0 && add.At(Quantity(Stranded), d) == 0)
    || (forall d: nat :: d < DIMS ==> add.At(PHYSICAL, d) == 0)
  }

  /** Closure survives a commit that fails anywhere in the middle. */
  lemma CommitKeepsClosed(dst: Aggregate, add: Aggregate)
    requires dst.Closed() && add.Closed() && OneSided(add)
    ensures Commit(dst, add).0.Closed()
  {
    var m := CommitShape(dst, add, 7 * DIMS);
    var x := Commit(dst, add).0;
    forall d: nat | d < DIMS ensures x.ClosedAt(d) {
      assert dst.ClosedAt(d) && add.ClosedAt(d);
      PrefixKeepsClosed(dst, add, x, m, d);
    }
  }

  lemma PrefixKeepsClosed(dst: Aggregate, add: Aggregate, x: Aggregate, m: nat, d: nat)
    requires d < DIMS && m <= 7 * DIMS && AddedUpTo(dst, add, x, m)
    requires m < 7 * DIMS ==> FullAt(dst, add, m)
    requires dst.ClosedAt(d) && add.ClosedAt(d) && OneSided(add)
    ensures x.ClosedAt(d)
  {
    assert Place(PHYSICAL, d) == 7 * d && Place(Bucket(Useful), d) == 7 * d + 3 && Place(Bucket(Overhead), d) == 7 * d + 4;
    assert Place(Bucket(Waste), d) == 7 * d + 5 && Place(Bucket(Unknown), d) == 7 * d + 6;
    if 7 * d < m < 7 * d + 7 {
      assert m / 7 == d && m % 7 == m - 7 * d;
      assert x.At(PHYSICAL, d) as int == dst.At(PHYSICAL, d) as int + add.At(PHYSICAL, d) as int;
      if m - 7 * d >= 3 {
        assert FIELDS[m % 7].Bucket?;
        BucketBelowPhysical(dst, FIELDS[m % 7].class_, d);
        BucketBelowPhysical(add, FIELDS[m % 7].class_, d);
        assert false;
      }
    }
  }

  /** The same for buckets that do not exceed physical consumption: it is added first. */
  lemma CommitKeepsWithin(dst: Aggregate, add: Aggregate)
    requires dst.Within() && add.Within()
    ensures Commit(dst, add).0.Within()
  {
    var m := CommitShape(dst, add, 7 * DIMS);
    var x := Commit(dst, add).0;
    forall d: nat | d < DIMS ensures x.WithinAt(d) {
      assert dst.WithinAt(d) && add.WithinAt(d);
      PrefixKeepsWithin(dst, add, x, m, d);
    }
  }

  lemma PrefixKeepsWithin(dst: Aggregate, add: Aggregate, x: Aggregate, m: nat, d: nat)
    requires d < DIMS && AddedUpTo(dst, add, x, m) && dst.WithinAt(d) && add.WithinAt(d)
    ensures x.WithinAt(d)
  {
    assert Place(PHYSICAL, d) == 7 * d && Place(Bucket(Useful), d) == 7 * d + 3 && Place(Bucket(Overhead), d) == 7 * d + 4;
    assert Place(Bucket(Waste), d) == 7 * d + 5 && Place(Bucket(Unknown), d) == 7 * d + 6;
  }

  lemma BucketBelowPhysical(x: Aggregate, c: Class, d: nat)
    requires d < DIMS && x.WithinAt(d)
    ensures x.At(Bucket(c), d) <= x.At(PHYSICAL, d)
  {
  }

  // ---------- committing all accounts, in hash-table order ----------

  /** One round of the commit loop. */
  function CommitAccount(m: AccountMap, pend: AccountMap, a: u64): (AccountMap, bool)
    requires a in pend
  {
    if a !in m then (m[a := pend[a]], true) else
      var (x, ok) := Commit(m[a], pend[a]);
      (m[a := x], ok)
  }

  /** The first `n` accounts in iteration order; stops at the first failure. */
  function CommitAll(m: AccountMap, pend: AccountMap, order: seq<u64>, n: nat): (AccountMap, bool)
    requires n <= |order| && forall a :: a in order ==> a in pend
  {
    if n == 0 then (m, true) else
      var (m', ok) := CommitAll(m, pend, order, n - 1);
      if !ok then (m', false) else CommitAccount(m', pend, order[n - 1])
  }

  /** An iteration order of an unordered map: every key once. */
  ghost predicate IsOrder(order: seq<u64>, keys: set<u64>)
  {
    && (forall a :: a in order <==> a in keys)
    && (forall i, j :: 0 <= i < j < |order| ==> order[i] != order[j])
  }

  /** Some order of a finite set. */
  ghost function ListOf(s: set<u64>): (o: seq<u64>)
    ensures IsOrder(o, s)
  {
    if s == {} then [] else
      var a :| a in s;
      var rest := ListOf(s - {a});
      assert forall x :: x in [a] + rest <==> x in s;
      [a] + rest
  }

  ghost predicate Fits(m: AccountMap, pend: AccountMap)
  {
    forall a, f, d: nat :: a in pend && d < DIMS ==> FitsAt(m, pend, a, f, d)
  }

  predicate FitsAt(m: AccountMap, pend: AccountMap, a: u64, f: Field, d: nat)
    requires a in pend && d < DIMS
  {
    Cell(m, a, f, d) as int + pend[a].At(f, d) as int <= MAX64
  }

  lemma {:induction false} CommitKeys(m: AccountMap, pend: AccountMap, order: seq<u64>, n: nat)
    requires n <= |order| && forall a :: a in order ==> a in pend
    ensures m.Keys <= CommitAll(m, pend, order, n).0.Keys <= m.Keys + pend.Keys
    ensures CommitAll(m, pend, order, n).1 ==> forall i :: 0 <= i < n ==> order[i] in CommitAll(m, pend, order, n).0
  {
    if n > 0 {
      CommitKeys(m, pend, order, n - 1);
      assert order[n - 1] in order;
    }
  }

  /** Committing never lowers a cell, whether or not it completes. */
  lemma {:induction false} CommitOnlyAdds(m: AccountMap, pend: AccountMap, order: seq<u64>, n: nat, a: u64, f: Field, d: nat)
    requires n <= |order| && (forall a :: a in order ==> a in pend) && d < DIMS
    ensures Cell(m, a, f, d) <= Cell(CommitAll(m, pend, order, n).0, a, f, d)
  {
    if n > 0 {
      CommitOnlyAdds(m, pend, order, n - 1, a, f, d);
      var (m', ok) := CommitAll(m, pend, order, n - 1);
      var b := order[n - 1];
      if ok && b in m' && a == b {
        var k := CommitShape(m'[b], pend[b], 7 * DIMS);
      }
    }
  }

  lemma {:induction false} CommitAllKeepsClosed(m: AccountMap, pend: AccountMap, order: seq<u64>, n: nat)
    requires n <= |order| && forall a :: a in order ==> a in pend
    requires AllClosed(m) && AllClosed(pend) && forall a :: a in pend ==> OneSided(pend[a])
    ensures AllClosed(CommitAll(m, pend, order, n).0)
  {
    hide Commit, Aggregate.Closed, OneSided;
    if n > 0 {
      CommitAllKeepsClosed(m, pend, order, n - 1);
      var (m', ok) := CommitAll(m, pend, order, n - 1);
      var b := order[n - 1];
      if ok && b in m' {
        assert b in order;
        CommitKeepsClosed(m'[b], pend[b]);
      }
    }
  }

  lemma {:induction false} CommitAllKeepsWithin(m: AccountMap, pend: AccountMap, order: seq<u64>, n: nat)
    requires n <= |order| && (forall a :: a in order ==> a in pend) && AllWithin(m) && AllWithin(pend)
    ensures AllWithin(CommitAll(m, pend, order, n).0)
  {
    hide Commit, Aggregate.Within;
    if n > 0 {
      CommitAllKeepsWithin(m, pend, order, n - 1);
      var (m', ok) := CommitAll(m, pend, order, n - 1);
      var b := order[n - 1];
      assert b in order;
      if ok && b in m' {
        CommitKeepsWithin(m'[b], pend[b]);
      }
    }
  }

  /** The accounts `done` have been committed in full, the others not at all. */
  ghost predicate AddedSome(m: AccountMap, pend: AccountMap, done: set<u64>, after: AccountMap)
  {
    && after.Keys == m.Keys + done
    && forall a, f, d: nat :: d < DIMS ==>
         Cell(after, a, f, d) as int == Cell(m, a, f, d) as int + if a in done then Cell(pend, a, f, d) as int else 0
  }

  /** The accounts after a commit that went through. */
  ghost predicate Added(m: AccountMap, pend: AccountMap, after: AccountMap)
  {
    AddedSome(m, pend, pend.Keys, after)
  }

  function Taken(order: seq<u64>, n: nat): set<u64>
    requires n <= |order|
  {
    set a | a in order[..n]
  }

  lemma TakeOne(order: seq<u64>, n: nat)
    requires 0 < n <= |order| && forall i, j :: 0 <= i < j < |order| ==> order[i] != order[j]
    ensures Taken(order, n) == Taken(order, n - 1) + {order[n - 1]} && order[n - 1] !in Taken(order, n - 1)
  {
    assert order[..n] == order[..n - 1] + [order[n - 1]];
  }

  lemma CommitNext(m: AccountMap, m1: AccountMap, pend: AccountMap, done: set<u64>, b: u64)
    requires b in pend && b !in done && AddedSome(m, pend, done, m1)
    ensures var (m', ok) := CommitAccount(m1, pend, b);
            && (ok ==> AddedSome(m, pend, done + {b}, m'))
            && (ok <==> forall f, d: nat :: d < DIMS ==> FitsAt(m, pend, b, f, d))
  {
    forall f, d: nat | d < DIMS ensures Cell(m1, b, f, d) == Cell(m, b, f, d) { }
    if b in m1 {
      var k := CommitShape(m1[b], pend[b], 7 * DIMS);
      var x := Commit(m1[b], pend[b]).0;
      if k == 7 * DIMS {
        forall f, d: nat | d < DIMS
          ensures x.At(f, d) as int == Cell(m, b, f, d) as int + pend[b].At(f, d) as int && FitsAt(m, pend, b, f, d)
        {
          assert Place(f, d) < 7 * DIMS;
        }
      } else {
        assert !FitsAt(m, pend, b, FIELDS[k % 7], k / 7);
      }
    } else {
      forall f, d: nat | d < DIMS ensures FitsAt(m, pend, b, f, d) { }
    }
  }

  /** As long as the commit goes on, the accounts taken so far are done; it goes on
      exactly while their cells fit. */
  lemma {:induction false} CommitPrefix(m: AccountMap, pend: AccountMap, order: seq<u64>, n: nat)
    requires n <= |order| && IsOrder(order, pend.Keys)
    ensures var (m', ok) := CommitAll(m, pend, order, n);
            && (ok ==> AddedSome(m, pend, Taken(order, n), m'))
            && (ok <==> forall a, f, d: nat :: a in Taken(order, n) && d < DIMS ==> FitsAt(m, pend, a, f, d))
  {
    hide CommitAccount, AddedSome, FitsAt;
    if n == 0 {
      AddedNobody(m, pend);
      assert Taken(order, 0) == {};
    } else {
      CommitPrefix(m, pend, order, n - 1);
      TakeOne(order, n);
      assert order[n - 1] in order;
      var (m1, ok1) := CommitAll(m, pend, order, n - 1);
      if ok1 {
        CommitNext(m, m1, pend, Taken(order, n - 1), order[n - 1]);
      }
    }
  }

  lemma AddedNobody(m: AccountMap, pend: AccountMap)
    ensures AddedSome(m, pend, {}, m)
  {
  }

  /** Order does not matter: whatever the hash table's order, the commit goes through
      exactly when every cell fits, and then every order leaves the same accounts. */
  lemma CommitSucceeds(m: AccountMap, pend: AccountMap, order: seq<u64>)
    requires IsOrder(order, pend.Keys)
    ensures CommitAll(m, pend, order, |order|).1 <==> Fits(m, pend)
    ensures CommitAll(m, pend, order, |order|).1 ==> Added(m, pend, CommitAll(m, pend, order, |order|).0)
  {
    hide CommitAll, AddedSome, FitsAt;
    CommitPrefix(m, pend, order, |order|);
    assert order[..|order|] == order;
    assert Taken(order, |order|) == pend.Keys;
  }

  lemma {:induction false} CommitFailureSticks(m: AccountMap, pend: AccountMap, o: seq<u64>, n: nat, k: nat)
    requires n <= k <= |o| && (forall a :: a in o ==> a in pend) && !CommitAll(m, pend, o, n).1
    ensures CommitAll(m, pend, o, k) == CommitAll(m, pend, o, n)
    decreases k
  {
    if n < k {
      CommitFailureSticks(m, pend, o, n, k - 1);
    }
  }
}
