/** `EfficiencyLedger::reconcile`: cross-account sums and closure, in wrapping 64-bit
    arithmetic, walking the hash table in whatever order it has. */
module Reconcile {
  import opened Bytes
  import opened Entries
  import opened Attribution
  import opened Aggregates
  import opened Ledger
  import Runs

  function Wrap(x: nat): u64 { x % MODULUS }

  predicate ClosesWrapped(x: Aggregate, d: nat)
    requires d < DIMS
  {
    Wrap(x.Classified(d)) == x.At(PHYSICAL, d)
  }

  /** What one account contributes to a cross-account sum. */
  datatype Column = Row(f: Field) | Classified

  function Contribution(x: Aggregate, c: Column, d: nat): nat
    requires d < DIMS
  {
    match c
    case Row(f) => x.At(f, d)
    case Classified => x.Classified(d)
  }

  /** The true cross-account sum, independent of any order. */
  ghost function Grand(m: AccountMap, keys: set<u64>, c: Column, d: nat): nat
    requires d < DIMS && keys <= m.Keys
  {
    if keys == {} then 0 else
      var a :| a in keys;
      Contribution(m[a], c, d) + Grand(m, keys - {a}, c, d)
  }

  /** Any account may be taken out of the sum first. */
  lemma {:induction false} GrandTakes(m: AccountMap, keys: set<u64>, c: Column, d: nat, a: u64)
    requires d < DIMS && keys <= m.Keys && a in keys
    ensures Grand(m, keys, c, d) == Contribution(m[a], c, d) + Grand(m, keys - {a}, c, d)
  {
    hide Contribution;
    var b :| b in keys && Grand(m, keys, c, d) == Contribution(m[b], c, d) + Grand(m, keys - {b}, c, d);
    if a != b {
      GrandTakes(m, keys - {b}, c, d, a);
      GrandTakes(m, keys - {a}, c, d, b);
      assert keys - {b} - {a} == keys - {a} - {b};
    }
  }

  /** What the sums add up, field by field, one account at a time. */
  lemma GrandByFields(m: AccountMap, keys: set<u64>, d: nat, a: u64)
    requires d < DIMS && keys <= m.Keys && a in keys
    ensures Grand(m, keys, Row(PHYSICAL), d) == m[a].physical[d] as int + Grand(m, keys - {a}, Row(PHYSICAL), d)
    ensures Grand(m, keys, Row(Quantity(Avoided)), d) == m[a].avoided[d] as int + Grand(m, keys - {a}, Row(Quantity(Avoided)), d)
    ensures Grand(m, keys, Row(Quantity(Stranded)), d) == m[a].stranded[d] as int + Grand(m, keys - {a}, Row(Quantity(Stranded)), d)
    ensures Grand(m, keys, Classified, d)
         == m[a].useful[d] as int + m[a].overhead[d] as int + m[a].waste[d] as int + m[a].unknown[d] as int
            + Grand(m, keys - {a}, Classified, d)
    ensures Grand(m, {}, Row(PHYSICAL), d) == Grand(m, {}, Row(Quantity(Avoided)), d) == Grand(m, {}, Row(Quantity(Stranded)), d)
         == Grand(m, {}, Classified, d) == 0
  {
    GrandTakes(m, keys, Row(PHYSICAL), d, a);
    GrandTakes(m, keys, Row(Quantity(Avoided)), d, a);
    GrandTakes(m, keys, Row(Quantity(Stranded)), d, a);
    GrandTakes(m, keys, Classified, d, a);
  }

  /** If every account closes, so do the sums, even when they wrap. */
  lemma {:induction false} SumsCloseTogether(m: AccountMap, keys: set<u64>, d: nat)
    requires d < DIMS && keys <= m.Keys && forall a :: a in keys ==> ClosesWrapped(m[a], d)
    ensures Wrap(Grand(m, keys, Row(PHYSICAL), d)) == Wrap(Grand(m, keys, Classified, d))
  {
    hide Aggregate.Classified, Wrap;
    if keys != {} {
      var a :| a in keys;
      SumsCloseTogether(m, keys - {a}, d);
      GrandTakes(m, keys, Row(PHYSICAL), d, a);
      GrandTakes(m, keys, Classified, d, a);
      WrapCongruent(m[a].Classified(d), m[a].At(PHYSICAL, d),
                    Grand(m, keys - {a}, Classified, d), Grand(m, keys - {a}, Row(PHYSICAL), d));
    }
  }

  lemma WrapCongruent(x: nat, x': u64, y: nat, y': nat)
    requires Wrap(x) == x' && Wrap(y) == Wrap(y')
    ensures Wrap(x + y) == Wrap(x' + y')
  {
    WrapAdds(x, y);
    WrapAdds(x', y');
  }

  lemma WrapAdds(x: nat, y: nat)
    ensures Wrap(x + y) == Wrap(Wrap(x) + Wrap(y))
  {
  }

  datatype Report = Report(closed: bool, perDimension: seq<bool>, physical: seq<u64>, classified: seq<u64>,
                           unclassified: seq<u64>, avoided: seq<u64>, stranded: seq<u64>, entryCount: nat)

  /** One column of the cross-account sums. */
  method SumColumn(m: AccountMap, c: Column) returns (sums: seq<u64>)
    ensures |sums| == DIMS && forall d: nat :: d < DIMS ==> sums[d] == Wrap(Grand(m, m.Keys, c, d))
  {
    hide Contribution, Wrap;
    sums := ZERO;
    var rest := m.Keys;
    ghost var done: set<u64> := {};
    assert forall d: nat :: d < DIMS ==> Grand(m, {}, c, d) == 0;
    ZeroWraps();
    while rest != {}
      invariant rest <= m.Keys && done == m.Keys - rest && |sums| == DIMS
      invariant forall d: nat :: d < DIMS ==> sums[d] == Wrap(Grand(m, done, c, d))
      decreases rest
    {
      var a :| a in rest;
      var d := 0;
      ghost var next := done + {a};
      assert next - {a} == done;
      ghost var before := sums;
      while d < DIMS
        invariant 0 <= d <= DIMS && |sums| == DIMS
        invariant forall k: nat :: k < d ==> sums[k] == Wrap(Grand(m, next, c, k))
        invariant forall k: nat :: d <= k < DIMS ==> sums[k] == before[k]
      {
        GrandTakes(m, next, c, d, a);
        WrapSum(Grand(m, done, c, d), Contribution(m[a], c, d));
        sums := sums[d := Wrap(sums[d] + Contribution(m[a], c, d))];
        d := d + 1;
      }
      rest := rest - {a};
      done := next;
      assert done == m.Keys - rest;
    }
    assert done == m.Keys;
  }

  lemma ZeroWraps()
    ensures Wrap(0) == 0
  {
  }

  lemma WrapSum(x: nat, y: nat)
    ensures Wrap(x + y) == Wrap(Wrap(x) + y)
  {
  }

  /** `reconcile`. A dimension is reported closed exactly when every account closes
      there in 64-bit arithmetic, and the ledger exactly when every dimension is; the
      comparison of the cross-account sums never adds a failure of its own. */
  method Reconcile(m: AccountMap, entryCount: nat) returns (r: Report)
    ensures r.entryCount == entryCount && |r.perDimension| == DIMS
    ensures forall d: nat :: d < DIMS ==> (r.perDimension[d] <==> forall a :: a in m ==> ClosesWrapped(m[a], d))
    ensures r.closed <==> forall d: nat, a :: d < DIMS && a in m ==> ClosesWrapped(m[a], d)
    ensures |r.physical| == |r.classified| == |r.avoided| == |r.stranded| == |r.unclassified| == DIMS
    ensures forall d: nat :: d < DIMS ==>
              && r.physical[d] == Wrap(Grand(m, m.Keys, Row(PHYSICAL), d))
              && r.classified[d] == Wrap(Grand(m, m.Keys, Classified, d))
              && r.avoided[d] == Wrap(Grand(m, m.Keys, Row(Quantity(Avoided)), d))
              && r.stranded[d] == Wrap(Grand(m, m.Keys, Row(Quantity(Stranded)), d))
    ensures forall d: nat :: d < DIMS ==> Wrap(r.unclassified[d] as int + r.classified[d] as int) == r.physical[d]
  {
    hide ClosesWrapped, Wrap, Grand;
    var physical := SumColumn(m, Row(PHYSICAL));
    var classified := SumColumn(m, Classified);
    var avoided := SumColumn(m, Row(Quantity(Avoided)));
    var stranded := SumColumn(m, Row(Quantity(Stranded)));
    var closed, perDim := CompareSums(physical, classified);
    var unclassified := Differences(physical, classified);
    ghost var sumsAgree := perDim;
    closed, perDim := CheckAccounts(m, closed, perDim);
    forall d: nat | d < DIMS
      ensures perDim[d] <==> forall a :: a in m ==> ClosesWrapped(m[a], d)
      ensures perDim[d] ==> physical[d] == classified[d]
    {
      if forall a :: a in m ==> ClosesWrapped(m[a], d) {
        SumsCloseTogether(m, m.Keys, d);
        assert sumsAgree[d];
      }
    }
    if forall d: nat, a :: d < DIMS && a in m ==> ClosesWrapped(m[a], d) {
      forall d: nat | d < DIMS ensures perDim[d] { }
    } else {
      var d: nat, a :| d < DIMS && a in m && !ClosesWrapped(m[a], d);
      assert !perDim[d];
    }
    r := Report(closed, perDim, physical, classified, unclassified, avoided, stranded, entryCount);
  }

  method CompareSums(physical: seq<u64>, classified: seq<u64>) returns (closed: bool, perDim: seq<bool>)
    requires |physical| == |classified| == DIMS
    ensures |perDim| == DIMS && forall d: nat :: d < DIMS ==> perDim[d] == (physical[d] == classified[d])
    ensures closed <==> forall d: nat :: d < DIMS ==> perDim[d]
  {
    closed, perDim := true, [];
    var d := 0;
    while d < DIMS
      invariant 0 <= d <= DIMS && |perDim| == d
      invariant forall k: nat :: k < d ==> perDim[k] == (physical[k] == classified[k])
      invariant closed <==> forall k: nat :: k < d ==> perDim[k]
    {
      perDim := perDim + [physical[d] == classified[d]];
      closed := closed && physical[d] == classified[d];
      d := d + 1;
    }
  }

  method Differences(physical: seq<u64>, classified: seq<u64>) returns (diff: seq<u64>)
    requires |physical| == |classified| == DIMS
    ensures |diff| == DIMS && forall d: nat :: d < DIMS ==> Wrap(diff[d] as int + classified[d] as int) == physical[d]
  {
    diff := [];
    var d := 0;
    while d < DIMS
      invariant 0 <= d <= DIMS && |diff| == d
      invariant forall k: nat :: k < d ==> Wrap(diff[k] as int + classified[k] as int) == physical[k]
    {
      diff := diff + [(physical[d] as int - classified[d] as int) % MODULUS];
      d := d + 1;
    }
  }

  /** The second loop: account by account, dimension by dimension. */
  method CheckAccounts(m: AccountMap, closed0: bool, perDim0: seq<bool>) returns (closed: bool, perDim: seq<bool>)
    requires |perDim0| == DIMS && (closed0 <==> forall d: nat :: d < DIMS ==> perDim0[d])
    ensures |perDim| == DIMS && (closed <==> forall d: nat :: d < DIMS ==> perDim[d])
    ensures forall d: nat :: d < DIMS ==> (perDim[d] <==> perDim0[d] && forall a :: a in m ==> ClosesWrapped(m[a], d))
  {
    closed, perDim := closed0, perDim0;
    var rest := m.Keys;
    while rest != {}
      invariant rest <= m.Keys && |perDim| == DIMS
      invariant closed <==> forall d: nat :: d < DIMS ==> perDim[d]
      invariant forall d: nat :: d < DIMS ==>
                  (perDim[d] <==> perDim0[d] && forall a :: a in m && a !in rest ==> ClosesWrapped(m[a], d))
      decreases rest
    {
      hide ClosesWrapped;
      var a :| a in rest;
      ghost var before := perDim;
      var d := 0;
      while d < DIMS
        invariant 0 <= d <= DIMS && |perDim| == DIMS
        invariant closed <==> forall k: nat :: k < DIMS ==> perDim[k]
        invariant forall k: nat :: k < d ==> (perDim[k] <==> before[k] && ClosesWrapped(m[a], k))
        invariant forall k: nat :: d <= k < DIMS ==> perDim[k] == before[k]
      {
        if !ClosesWrapped(m[a], d) {
          closed := false;
          perDim := perDim[d := false];
          assert !perDim[d];
        }
        d := d + 1;
      }
      rest := rest - {a};
    }
  }

  /** While buckets do not exceed physical consumption, 64-bit closure of an account is
      true closure. */
  lemma WrappedMeansClosed(m: AccountMap, a: u64, d: nat)
    requires AllWithin(m) && a in m && d < DIMS
    ensures ClosesWrapped(m[a], d) <==> m[a].ClosedAt(d)
  {
    assert m[a].Within();
    assert m[a].WithinAt(d);
  }

  /** The report is exact in every run, after overflows, repeated revisions and failed
      moves alike: a dimension of an account closes in the report's wrapping arithmetic
      exactly when it truly closes, and so does the ledger. */
  lemma ReportIsExact(id: u64, ops: Runs.Run)
    ensures var m := Runs.After(Initial(id), ops).book.accounts;
            && (forall a, d: nat :: a in m && d < DIMS ==> (ClosesWrapped(m[a], d) <==> m[a].ClosedAt(d)))
            && (AllClosed(m) <==> forall d: nat, a :: d < DIMS && a in m ==> ClosesWrapped(m[a], d))
  {
    hide Runs.After, ClosesWrapped, AllWithin, Aggregate.ClosedAt;
    Runs.EveryRunIsGrounded(id, ops);
    var m := Runs.After(Initial(id), ops).book.accounts;
    forall a, d: nat | a in m && d < DIMS ensures ClosesWrapped(m[a], d) <==> m[a].ClosedAt(d) {
      WrappedMeansClosed(m, a, d);
    }
    if AllClosed(m) {
      forall d: nat, a | d < DIMS && a in m ensures ClosesWrapped(m[a], d) { assert m[a].Closed(); }
    }
  }

  /** In every run in which nothing is revised twice it says closed. */
  lemma RunsReportClosed(id: u64, ops: Runs.Run)
    requires Runs.NeverRevisedTwice(Initial(id), ops)
    ensures var m := Runs.After(Initial(id), ops).book.accounts;
            forall d: nat, a :: d < DIMS && a in m ==> ClosesWrapped(m[a], d)
  {
    hide Runs.After, Runs.NeverRevisedTwice, ClosesWrapped, AllClosed;
    Runs.SingleRevisionRunsReconcile(id, ops);
    ReportIsExact(id, ops);
  }
}
