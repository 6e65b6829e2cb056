/** Who is charged what, on the records' own fields and with the numbers of the classes
    spelled out: the shares of an entry, the rows of an account that an append raises and
    a revision moves, and the order in which a commit fills them. */
module Charges {
  import opened Bytes
  import opened Apportion
  import opened Entries
  import opened Attribution
  import opened Aggregates
  import opened Moves
  import opened Ledger
  import opened Totals
  import opened Runs

  // ---------- the shares of an entry ----------

  /** `share` is amount*weight/total, rounded down or up. */
  predicate Rounded(share: nat, amount: nat, weight: nat, total: nat)
  {
    share * total < amount * weight + total && amount * weight < share * total + total
  }

  function AvoidedOf(e: Entry, d: nat): u64
    requires d < 16
  {
    if e.avoidedWork.Some? then e.avoidedWork.value[d] else 0
  }

  function StrandedOf(e: Entry, d: nat): u64
    requires d < 16
  {
    if e.strandedCapacity.Some? then e.strandedCapacity.value[d] else 0
  }

  lemma RoundedShare(amount: u64, weights: seq<u64>, i: nat)
    requires i < |weights| && 0 < Sum(weights) <= MAX64
    ensures Rounded(Shares(amount, weights)[i], amount, weights[i], Sum(weights)) && Residual(amount, weights) == 0
  {
    hide Share;
    if amount == 0 {
      assert Shares(amount, weights)[i] == 0;
    } else {
      QuotaRule(amount, weights, i);
    }
  }

  lemma {:induction false} PositiveSum(w: seq<u64>)
    requires w != [] && forall i :: 0 <= i < |w| ==> w[i] > 0
    ensures Sum(w) > 0
  {
    SumAtLeast(w, 0);
  }

  /** Shared work: a valid nonempty list gets exactly one share per participant, in
      order, each the rounded quota of its weight in every dimension of every quantity. */
  lemma SharedSplit(e: Entry)
    requires e.shared.Some? && e.shared.value.participants != [] && ValidShared(e.shared.value)
    ensures var ps := e.shared.value.participants;
            |Split(e)| == |ps| && forall i :: 0 <= i < |ps| ==> Split(e)[i].account == ps[i].account
    ensures var ps := e.shared.value.participants;
            forall i, d: nat :: 0 <= i < |ps| && d < 16 ==>
              && Rounded(Split(e)[i].physical[d], e.usage[d], ps[i].weight, Sum(Weights(ps)))
              && Rounded(Split(e)[i].avoided[d], AvoidedOf(e, d), ps[i].weight, Sum(Weights(ps)))
              && Rounded(Split(e)[i].stranded[d], StrandedOf(e, d), ps[i].weight, Sum(Weights(ps)))
  {
    hide Shares, Residual, Rounded;
    var ps := e.shared.value.participants;
    var w := Weights(ps);
    PositiveSum(w);
    forall k, d: nat, i: nat | d < 16 && i < |ps|
      ensures Rounded(Shares(Amounts(e, k)[d], w)[i], Amounts(e, k)[d], ps[i].weight, Sum(w)) && Residual(Amounts(e, k)[d], w) == 0
    {
      RoundedShare(Amounts(e, k)[d], w, i);
    }
    forall k, d: nat | d < 16 ensures ResidualDims(e, k)[d] == 0 {
      assert Residual(Amounts(e, k)[d], w) == 0 by { RoundedShare(Amounts(e, k)[d], w, 0); }
    }
    assert !HasResidual(e);
    forall i, d: nat | 0 <= i < |ps| && d < 16
      ensures Rounded(Split(e)[i].physical[d], e.usage[d], ps[i].weight, Sum(w))
      ensures Rounded(Split(e)[i].avoided[d], AvoidedOf(e, d), ps[i].weight, Sum(w))
      ensures Rounded(Split(e)[i].stranded[d], StrandedOf(e, d), ps[i].weight, Sum(w))
    {
      SharedPart(e, i, d);
      assert Rounded(Shares(Amounts(e, Physical)[d], w)[i], Amounts(e, Physical)[d], ps[i].weight, Sum(w));
      assert Rounded(Shares(Amounts(e, Avoided)[d], w)[i], Amounts(e, Avoided)[d], ps[i].weight, Sum(w));
      assert Rounded(Shares(Amounts(e, Stranded)[d], w)[i], Amounts(e, Stranded)[d], ps[i].weight, Sum(w));
    }
  }

  lemma SharedPart(e: Entry, i: nat, d: nat)
    requires e.shared.Some? && i < |e.shared.value.participants| && d < 16
    ensures i < |Split(e)|
    ensures var w := Weights(e.shared.value.participants);
            && Split(e)[i].physical[d] == Shares(e.usage[d], w)[i]
            && Split(e)[i].avoided[d] == Shares(AvoidedOf(e, d), w)[i]
            && Split(e)[i].stranded[d] == Shares(StrandedOf(e, d), w)[i]
  {
    hide Shares, Residual;
    assert Split(e)[i] == PartShare(e, i);
  }

  lemma OneWeight(x: u64)
    ensures Shares(x, [1]) == [x] && Residual(x, [1]) == 0
  {
    Conservation(x, [1]);
    var s := Shares(x, [1]);
    assert Sum([1]) == 1;
    assert s == [s[0]];
    assert Sum(s[..0]) == 0;
  }

  /** Work without participants belongs to the owning account, all of it. */
  lemma OwnedSplit(e: Entry)
    requires (e.shared.None? || e.shared.value.participants == []) && e.account != 0
    ensures |Split(e)| == 1 && Split(e)[0].account == e.account && Split(e)[0].physical == e.usage
    ensures forall d: nat :: d < 16 ==> Split(e)[0].avoided[d] == AvoidedOf(e, d) && Split(e)[0].stranded[d] == StrandedOf(e, d)
  {
    hide Shares, Residual;
    assert Weights(Participants(e)) == [1];
    forall k, d: nat | d < 16
      ensures Shares(Amounts(e, k)[d], [1])[0] == Amounts(e, k)[d] && Residual(Amounts(e, k)[d], [1]) == 0
    {
      OneWeight(Amounts(e, k)[d]);
    }
    assert PartDims(e, Physical, 0) == e.usage;
  }

  /** Work that nobody owns goes to the residual account, all of it. */
  lemma OwnerlessSplit(e: Entry)
    requires (e.shared.None? || e.shared.value.participants == []) && e.account == 0
    ensures Split(e) == [] <==> forall d: nat :: d < 16 ==> e.usage[d] == 0 && AvoidedOf(e, d) == 0 && StrandedOf(e, d) == 0
    ensures Split(e) != [] ==>
              && |Split(e)| == 1 && Split(e)[0].account == 0xFFFF_FFFF_FFFF_FFFF && Split(e)[0].physical == e.usage
              && forall d: nat :: d < 16 ==> Split(e)[0].avoided[d] == AvoidedOf(e, d) && Split(e)[0].stranded[d] == StrandedOf(e, d)
  {
    assert Participants(e) == [];
    assert ResidualDims(e, Physical) == e.usage;
    forall d: nat | d < 16 ensures ResidualDims(e, Avoided)[d] == AvoidedOf(e, d) && ResidualDims(e, Stranded)[d] == StrandedOf(e, d) { }
  }

  // ---------- what an account is charged ----------

  function PhysicalTo(s: seq<ShareOf>, a: u64, d: nat): seq<nat>
    requires d < 16
  {
    seq(|s|, i requires 0 <= i < |s| => if s[i].account == a then s[i].physical[d] else 0)
  }

  function AvoidedTo(s: seq<ShareOf>, a: u64, d: nat): seq<nat>
    requires d < 16
  {
    seq(|s|, i requires 0 <= i < |s| => if s[i].account == a then s[i].avoided[d] else 0)
  }

  function StrandedTo(s: seq<ShareOf>, a: u64, d: nat): seq<nat>
    requires d < 16
  {
    seq(|s|, i requires 0 <= i < |s| => if s[i].account == a then s[i].stranded[d] else 0)
  }

  /** An account is charged the sum of its shares. */
  lemma {:induction false} ChargedIsSum(s: seq<ShareOf>, a: u64, d: nat)
    requires d < 16
    ensures GivenTo(s, a, Physical, d) == Sum(PhysicalTo(s, a, d))
    ensures GivenTo(s, a, Avoided, d) == Sum(AvoidedTo(s, a, d))
    ensures GivenTo(s, a, Stranded, d) == Sum(StrandedTo(s, a, d))
  {
    if s != [] {
      var p := s[..|s| - 1];
      ChargedIsSum(p, a, d);
      assert PhysicalTo(s, a, d)[..|p|] == PhysicalTo(p, a, d);
      assert AvoidedTo(s, a, d)[..|p|] == AvoidedTo(p, a, d);
      assert StrandedTo(s, a, d)[..|p|] == StrandedTo(p, a, d);
    }
  }

  // ---------- the rows an append raises ----------

  /** An account as the ledger has it, or an empty one. */
  function AccountIn(m: AccountMap, a: u64): Aggregate
  {
    if a in m then m[a] else EMPTY_AGGREGATE
  }

  lemma UnknownAccountIsEmpty(m: AccountMap, a: u64, d: nat)
    requires a !in m && d < 16
    ensures var x := AccountIn(m, a);
            x.physical[d] == x.useful[d] == x.overhead[d] == x.waste[d] == x.unknown[d] == x.avoided[d] == x.stranded[d] == 0
  {
  }

  lemma RowsAreFields(m: AccountMap, a: u64, d: nat)
    requires d < 16
    ensures var x := AccountIn(m, a);
            && Cell(m, a, Quantity(Physical), d) == x.physical[d] && Cell(m, a, Quantity(Avoided), d) == x.avoided[d]
            && Cell(m, a, Quantity(Stranded), d) == x.stranded[d] && Cell(m, a, Bucket(Useful), d) == x.useful[d]
            && Cell(m, a, Bucket(Overhead), d) == x.overhead[d] && Cell(m, a, Bucket(Waste), d) == x.waste[d]
            && Cell(m, a, Bucket(Unknown), d) == x.unknown[d]
  {
  }

  lemma RowRaised(b: Book, e: Entry, b': Book, f: Field, a: u64, d: nat)
    requires !e.IsRevision() && Accepted(b, e, b') && d < 16
    ensures Cell(b'.accounts, a, f, d) as int == Cell(b.accounts, a, f, d) as int + Delta(e, a, f, d)
  {
    hide Delta, AdmitsRevision;
    PendingCell(e, a, f, d);
  }

  /** A committed ordinary entry raises physical, avoided and stranded by what it
      attributes to the account; class 0 raises useful, 1 overhead, 2 waste and 5 unknown
      by the physical amount, and no other row moves. */
  lemma AppendRaisesRows(s: State, e: Entry, order: seq<u64>, a: u64, d: nat)
    requires OrderFor(e, order) && e.event != 35 && AppendLocked(s, e, order).1 == Ok && d < 16
    ensures var x, y := AccountIn(s.book.accounts, a), AccountIn(AppendLocked(s, e, order).0.accounts, a);
            var amount := Sum(PhysicalTo(Split(e), a, d));
            && y.physical[d] as int == x.physical[d] as int + amount
            && y.avoided[d] as int == x.avoided[d] as int + Sum(AvoidedTo(Split(e), a, d))
            && y.stranded[d] as int == x.stranded[d] as int + Sum(StrandedTo(Split(e), a, d))
            && y.useful[d] as int == x.useful[d] as int + (if e.classification == 0 then amount else 0)
            && y.overhead[d] as int == x.overhead[d] as int + (if e.classification == 1 then amount else 0)
            && y.waste[d] as int == x.waste[d] as int + (if e.classification == 2 then amount else 0)
            && y.unknown[d] as int == x.unknown[d] as int + (if e.classification == 5 then amount else 0)
  {
    hide AppendLocked, Accepted, Admits, Split, AccountIn, Cell;
    var b := AppendLocked(s, e, order).0;
    AppendAccepts(s, e, order);
    RowsAreFields(s.book.accounts, a, d);
    RowsAreFields(b.accounts, a, d);
    ChargedIsSum(Split(e), a, d);
    RowRaised(s.book, e, b, Quantity(Physical), a, d);
    RowRaised(s.book, e, b, Quantity(Avoided), a, d);
    RowRaised(s.book, e, b, Quantity(Stranded), a, d);
    RowRaised(s.book, e, b, Bucket(Useful), a, d);
    RowRaised(s.book, e, b, Bucket(Overhead), a, d);
    RowRaised(s.book, e, b, Bucket(Waste), a, d);
    RowRaised(s.book, e, b, Bucket(Unknown), a, d);
  }

  /** The accounts after it are those before it and those of its shares. */
  lemma AppendOpensAccounts(s: State, e: Entry, order: seq<u64>, a: u64)
    requires OrderFor(e, order) && e.event != 35 && AppendLocked(s, e, order).1 == Ok
    ensures a in AppendLocked(s, e, order).0.accounts <==>
            a in s.book.accounts || exists i :: 0 <= i < |Split(e)| && Split(e)[i].account == a
  {
    hide AppendLocked, Admits, Split, Fits;
    AppendAccepts(s, e, order);
    assert PendingMap(e).Keys == ChargedAccounts(e);
    assert a in ChargedAccounts(e) <==> exists i :: 0 <= i < |Split(e)| && Split(e)[i].account == a;
  }

  // ---------- the rows a revision moves ----------

  /** A committed revision of an entry of class 0, 1, 2 or 5 takes the shares of that
      entry out of the row of its class and puts them into the row of the new one. */
  lemma RevisionMovesRows(s: State, r: Entry, t: Entry, a: u64, d: nat)
    requires r.event == 35 && AppendLocked(s, r, []).1 == Ok && d < 16 && a in s.book.accounts
    requires r.target.Some? && r.target.value in s.book.index && s.book.index[r.target.value] < |s.book.history|
    requires t == s.book.history[s.book.index[r.target.value]] && t.classification in {0, 1, 2, 5}
    ensures a in AppendLocked(s, r, []).0.accounts
    ensures var x, y := s.book.accounts[a], AppendLocked(s, r, []).0.accounts[a];
            var amount := Sum(PhysicalTo(Split(t), a, d));
            && r.classification in {0, 1, 2, 5}
            && y.physical[d] == x.physical[d] && y.avoided[d] == x.avoided[d] && y.stranded[d] == x.stranded[d]
            && y.useful[d] as int + (if t.classification == 0 then amount else 0) == x.useful[d] as int + (if r.classification == 0 then amount else 0)
            && y.overhead[d] as int + (if t.classification == 1 then amount else 0) == x.overhead[d] as int + (if r.classification == 1 then amount else 0)
            && y.waste[d] as int + (if t.classification == 2 then amount else 0) == x.waste[d] as int + (if r.classification == 2 then amount else 0)
            && y.unknown[d] as int + (if t.classification == 5 then amount else 0) == x.unknown[d] as int + (if r.classification == 5 then amount else 0)
  {
    hide AppendLocked, Admits, Split, MoveShares, Entry.Valid;
    AppendAccepts(s, r, []);
    var m, sh := s.book.accounts, Split(t);
    var from, to := Bucket(ClassOf(t.classification)), Bucket(ClassOf(r.classification));
    CompletedMoves(m, from, to, sh, |sh|);
    assert sh[..|sh|] == sh;
    ChargedIsSum(sh, a, d);
    MovedRows(m, from, to, sh, AppendLocked(s, r, []).0.accounts, a, d);
  }

  lemma MovedRows(m: AccountMap, from: Field, to: Field, s: seq<ShareOf>, m': AccountMap, a: u64, d: nat)
    requires AllMoved(m, from, to, s, m') && a in m && d < 16 && from.Bucket? && to.Bucket?
    ensures a in m'
    ensures var x, y, g := m[a], m'[a], GivenTo(s, a, Physical, d);
            && y.physical[d] == x.physical[d] && y.avoided[d] == x.avoided[d] && y.stranded[d] == x.stranded[d]
            && y.useful[d] as int + (if from == Bucket(Useful) then g else 0) == x.useful[d] as int + (if to == Bucket(Useful) then g else 0)
            && y.overhead[d] as int + (if from == Bucket(Overhead) then g else 0) == x.overhead[d] as int + (if to == Bucket(Overhead) then g else 0)
            && y.waste[d] as int + (if from == Bucket(Waste) then g else 0) == x.waste[d] as int + (if to == Bucket(Waste) then g else 0)
            && y.unknown[d] as int + (if from == Bucket(Unknown) then g else 0) == x.unknown[d] as int + (if to == Bucket(Unknown) then g else 0)
  {
    hide GivenTo;
    assert CellMoved(m, from, to, s, m', a, Quantity(Physical), d) && CellMoved(m, from, to, s, m', a, Quantity(Avoided), d);
    assert CellMoved(m, from, to, s, m', a, Quantity(Stranded), d) && CellMoved(m, from, to, s, m', a, Bucket(Useful), d);
    assert CellMoved(m, from, to, s, m', a, Bucket(Overhead), d) && CellMoved(m, from, to, s, m', a, Bucket(Waste), d);
    assert CellMoved(m, from, to, s, m', a, Bucket(Unknown), d);
  }

  // ---------- the order of a commit ----------

  function Plus(n: nat, place: nat, old_: u64, add: u64): int
  {
    old_ as int + if place < n then add as int else 0
  }

  /** A commit of one account fills dimension by dimension, in each physical, avoided,
      stranded, useful, overhead, waste, unknown, and stops at the first cell that would
      overflow: `n` cells have been added, 112 when it completes. */
  lemma CommitOrder(dst: Aggregate, add: Aggregate) returns (n: nat)
    ensures n <= 112 && (Commit(dst, add).1 <==> n == 112)
    ensures var x := Commit(dst, add).0;
            forall d: nat :: d < 16 ==>
              && x.physical[d] == Plus(n, 7 * d, dst.physical[d], add.physical[d])
              && x.avoided[d] == Plus(n, 7 * d + 1, dst.avoided[d], add.avoided[d])
              && x.stranded[d] == Plus(n, 7 * d + 2, dst.stranded[d], add.stranded[d])
              && x.useful[d] == Plus(n, 7 * d + 3, dst.useful[d], add.useful[d])
              && x.overhead[d] == Plus(n, 7 * d + 4, dst.overhead[d], add.overhead[d])
              && x.waste[d] == Plus(n, 7 * d + 5, dst.waste[d], add.waste[d])
              && x.unknown[d] == Plus(n, 7 * d + 6, dst.unknown[d], add.unknown[d])
    ensures n < 112 ==> Full(dst, add, n / 7, n % 7)
  {
    hide Commit;
    n := CommitShape(dst, add, 7 * DIMS);
    var x := CommitCells(dst, add, 7 * DIMS).0;
    assert x == Commit(dst, add).0 by { CommitIsCells(dst, add); }
    CommitIsCells(dst, add);
    forall d: nat | d < 16
      ensures x.physical[d] == Plus(n, 7 * d, dst.physical[d], add.physical[d])
      ensures x.avoided[d] == Plus(n, 7 * d + 1, dst.avoided[d], add.avoided[d])
      ensures x.stranded[d] == Plus(n, 7 * d + 2, dst.stranded[d], add.stranded[d])
      ensures x.useful[d] == Plus(n, 7 * d + 3, dst.useful[d], add.useful[d])
      ensures x.overhead[d] == Plus(n, 7 * d + 4, dst.overhead[d], add.overhead[d])
      ensures x.waste[d] == Plus(n, 7 * d + 5, dst.waste[d], add.waste[d])
      ensures x.unknown[d] == Plus(n, 7 * d + 6, dst.unknown[d], add.unknown[d])
    {
      CellsAdded(dst, add, x, n, d);
    }
    if n < 112 {
      FullHere(dst, add, n);
    }
  }

  lemma CommitIsCells(dst: Aggregate, add: Aggregate)
    ensures Commit(dst, add) == CommitCells(dst, add, 112)
  {
  }

  lemma CellsAdded(dst: Aggregate, add: Aggregate, x: Aggregate, n: nat, d: nat)
    requires AddedUpTo(dst, add, x, n) && d < 16
    ensures x.physical[d] == Plus(n, 7 * d, dst.physical[d], add.physical[d])
    ensures x.avoided[d] == Plus(n, 7 * d + 1, dst.avoided[d], add.avoided[d])
    ensures x.stranded[d] == Plus(n, 7 * d + 2, dst.stranded[d], add.stranded[d])
    ensures x.useful[d] == Plus(n, 7 * d + 3, dst.useful[d], add.useful[d])
    ensures x.overhead[d] == Plus(n, 7 * d + 4, dst.overhead[d], add.overhead[d])
    ensures x.waste[d] == Plus(n, 7 * d + 5, dst.waste[d], add.waste[d])
    ensures x.unknown[d] == Plus(n, 7 * d + 6, dst.unknown[d], add.unknown[d])
  {
    assert x.At(Quantity(Physical), d) == x.physical[d] && x.At(Quantity(Avoided), d) == x.avoided[d];
    assert x.At(Quantity(Stranded), d) == x.stranded[d] && x.At(Bucket(Useful), d) == x.useful[d];
    assert x.At(Bucket(Overhead), d) == x.overhead[d] && x.At(Bucket(Waste), d) == x.waste[d] && x.At(Bucket(Unknown), d) == x.unknown[d];
  }

  /** The cell at row `j` of dimension `d` has no room. */
  predicate Full(dst: Aggregate, add: Aggregate, d: nat, j: nat)
  {
    && d < 16 && j < 7
    && (j == 0 ==> dst.physical[d] as int + add.physical[d] as int > MAX64)
    && (j == 1 ==> dst.avoided[d] as int + add.avoided[d] as int > MAX64)
    && (j == 2 ==> dst.stranded[d] as int + add.stranded[d] as int > MAX64)
    && (j == 3 ==> dst.useful[d] as int + add.useful[d] as int > MAX64)
    && (j == 4 ==> dst.overhead[d] as int + add.overhead[d] as int > MAX64)
    && (j == 5 ==> dst.waste[d] as int + add.waste[d] as int > MAX64)
    && (j == 6 ==> dst.unknown[d] as int + add.unknown[d] as int > MAX64)
  }

  lemma FullHere(dst: Aggregate, add: Aggregate, n: nat)
    requires n < 112 && FullAt(dst, add, n)
    ensures Full(dst, add, n / 7, n % 7)
  {
  }
}
