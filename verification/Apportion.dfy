/** Largest-remainder apportionment of one resource dimension: `mul_div` of
    include/efficiency_ledger/resource.hpp and `distribute_dim` of src/ledger.cpp. */
module Apportion {
  import opened Bytes

  function Sum(s: seq<nat>): (t: nat)
  {
    if s == [] then 0 else Sum(s[..|s| - 1]) + s[|s| - 1]
  }

  // ---------- the ideal quota ----------

  /** Participant `w` of `total` is owed amount*w/total; whole part and numerator
      of the fraction. */
  function Whole(amount: nat, w: nat, total: nat): nat
    requires total > 0
  {
    amount * w / total
  }

  function Fraction(amount: nat, w: nat, total: nat): nat
    requires total > 0
  {
    amount * w % total
  }

  function Wholes(amount: nat, weights: seq<u64>): (q: seq<nat>)
    requires Sum(weights) > 0
    ensures |q| == |weights|
  {
    seq(|weights|, i requires 0 <= i < |weights| => Whole(amount, weights[i], Sum(weights)))
  }

  function Fractions(amount: nat, weights: seq<u64>): (r: seq<nat>)
    requires Sum(weights) > 0
    ensures |r| == |weights|
  {
    seq(|weights|, i requires 0 <= i < |weights| => Fraction(amount, weights[i], Sum(weights)))
  }

  lemma QuotaSplit(amount: nat, w: nat, total: nat)
    requires total > 0
    ensures amount * w == Whole(amount, w, total) * total + Fraction(amount, w, total)
    ensures 0 <= Fraction(amount, w, total) < total
    ensures w <= total ==> Whole(amount, w, total) <= amount
  {
    var q, r := Whole(amount, w, total), Fraction(amount, w, total);
    assert amount * w == q * total + r;
    if w <= total {
      MulMonotone(amount, w, total);
      MulBelow(total, q, amount);
    }
  }

  lemma MulMonotone(a: nat, x: nat, y: nat)
    requires x <= y
    ensures a * x <= a * y && x * a <= y * a
  {
  }

  lemma MulBelow(t: nat, x: nat, y: nat)
    requires t > 0 && x * t <= y * t
    ensures x <= y
  {
  }

  lemma MulBelowStrict(t: nat, x: nat, y: nat)
    requires t * x < t * y
    ensures x < y
  {
  }

  /** The exact split is conserved before rounding:
      amount * (w0 + ... ) = total * (whole parts) + (numerators). */
  lemma {:induction false} QuotasConserve(amount: nat, weights: seq<nat>, total: nat, q: seq<nat>, r: seq<nat>)
    requires total > 0 && |q| == |r| == |weights|
    requires forall i :: 0 <= i < |weights| ==>
               q[i] == Whole(amount, weights[i], total) && r[i] == Fraction(amount, weights[i], total)
    ensures amount * Sum(weights) == total * Sum(q) + Sum(r)
  {
    if weights != [] {
      var n := |weights| - 1;
      QuotasConserve(amount, weights[..n], total, q[..n], r[..n]);
      QuotaSplit(amount, weights[n], total);
      hide Whole, Fraction;
      AddQuota(amount, Sum(weights[..n]), weights[n], total, Sum(q[..n]), q[n], Sum(r[..n]), r[n]);
    }
  }

  lemma AddQuota(amount: nat, ws: nat, w: nat, total: nat, qs: nat, q: nat, rs: nat, r: nat)
    requires amount * ws == total * qs + rs && amount * w == q * total + r
    ensures amount * (ws + w) == total * (qs + q) + (rs + r)
  {
    assert amount * (ws + w) == amount * ws + amount * w;
    assert total * (qs + q) == total * qs + q * total;
  }

  function CountNonzero(r: seq<nat>): nat
  {
    |NonzeroAt(r)|
  }

  function NonzeroAt(r: seq<nat>): set<nat>
  {
    set i: nat | i < |r| && r[i] != 0
  }

  /** `m` numbers that are all below `total` can add up to `sum`. */
  predicate BelowCap(sum: nat, m: nat, total: nat)
  {
    sum + m <= total * m
  }

  lemma {:induction false} FractionsBounded(r: seq<nat>, total: nat)
    requires total > 0 && forall i :: 0 <= i < |r| ==> r[i] < total
    ensures BelowCap(Sum(r), CountNonzero(r), total)
    ensures Sum(r) > 0 ==> CountNonzero(r) > 0
  {
    hide BelowCap;
    if r == [] {
      assert NonzeroAt(r) == {};
      EmptyCap(total);
    } else {
      var n := |r| - 1;
      FractionsBounded(r[..n], total);
      var before := NonzeroAt(r[..n]);
      if r[n] != 0 {
        assert NonzeroAt(r) == before + {n};
        AddFraction(Sum(r[..n]), r[n], |before|, total);
      } else {
        assert NonzeroAt(r) == before;
      }
    }
  }

  lemma EmptyCap(total: nat)
    ensures BelowCap(0, 0, total)
  {
  }

  lemma AddFraction(sum: nat, x: nat, m: nat, total: nat)
    requires BelowCap(sum, m, total) && x < total
    ensures BelowCap(sum + x, m + 1, total)
  {
    assert total * (m + 1) == total * m + total;
  }

  /** What the whole parts leave over is fewer units than there are participants
      with a fraction, so one round of extra units always finishes the split. */
  lemma LeftoverBound(amount: u64, weights: seq<u64>)
    requires Sum(weights) > 0
    ensures Sum(Wholes(amount, weights)) <= amount
    ensures var leftover := amount - Sum(Wholes(amount, weights));
            leftover > 0 ==> leftover < CountNonzero(Fractions(amount, weights))
  {
    var total := Sum(weights);
    var q, r := Wholes(amount, weights), Fractions(amount, weights);
    QuotasConserve(amount, weights, total, q, r);
    forall i | 0 <= i < |r| ensures r[i] < total { QuotaSplit(amount, weights[i], total); }
    FractionsBounded(r, total);
    LeftoverArithmetic(amount, total, Sum(q), Sum(r), CountNonzero(r));
  }

  lemma LeftoverArithmetic(amount: nat, total: nat, whole: nat, parts: nat, m: nat)
    requires total > 0 && amount * total == total * whole + parts
    requires BelowCap(parts, m, total) && (parts > 0 ==> m > 0)
    ensures whole <= amount
    ensures amount - whole > 0 ==> amount - whole < m
  {
    assert whole * total <= amount * total;
    MulBelow(total, whole, amount);
    var leftover := amount - whole;
    assert total * leftover == parts by { assert total * (amount - whole) == total * amount - total * whole; }
    if leftover > 0 {
      assert parts > 0 by { MulMonotone(total, 1, leftover); }
      MulBelowStrict(total, leftover, m);
    }
  }

  // ---------- who gets the leftover units ----------

  /** The comparator of the sort: larger fraction first, then lower index. */
  predicate Before(r: seq<nat>, j: nat, i: nat)
    requires i < |r| && j < |r|
  {
    r[j] > r[i] || (r[j] == r[i] && j < i)
  }

  /** The participants served before `i`. */
  function Ahead(r: seq<nat>, i: nat): set<nat>
    requires i < |r|
  {
    set j: nat | j < |r| && Before(r, j, i)
  }

  function Rank(r: seq<nat>, i: nat): nat
    requires i < |r|
  {
    |Ahead(r, i)|
  }

  /** The split itself, without any sorting: participant `i` gets its whole part,
      and one more unit when fewer than `leftover` participants are served before it.
      Degenerate inputs leave everything in the residual. */
  function Shares(amount: u64, weights: seq<u64>): (s: seq<u64>)
    ensures |s| == |weights|
  {
    if !Splittable(amount, weights) then seq(|weights|, i => 0) else
      seq(|weights|, i requires 0 <= i < |weights| => Share(amount, weights, i))
  }

  function Residual(amount: u64, weights: seq<u64>): u64
  {
    if Splittable(amount, weights) then 0 else amount
  }

  predicate Splittable(amount: u64, weights: seq<u64>)
  {
    weights != [] && amount != 0 && 0 < Sum(weights) <= MAX64
  }

  function Share(amount: u64, weights: seq<u64>, i: nat): (s: u64)
    requires Splittable(amount, weights) && i < |weights|
  {
    LeftoverBound(amount, weights);
    ShareBound(amount, weights, i);
    Wholes(amount, weights)[i] + Extra(amount, weights, i)
  }

  function Extra(amount: u64, weights: seq<u64>, i: nat): nat
    requires Sum(weights) > 0 && i < |weights|
  {
    if Rank(Fractions(amount, weights), i) < amount - Sum(Wholes(amount, weights)) then 1 else 0
  }

  lemma {:induction false} SumAtLeast(s: seq<nat>, i: nat)
    requires i < |s|
    ensures s[i] <= Sum(s)
  {
    if i < |s| - 1 {
      SumAtLeast(s[..|s| - 1], i);
    }
  }

  lemma ShareBound(amount: u64, weights: seq<u64>, i: nat)
    requires Splittable(amount, weights) && i < |weights|
    ensures Wholes(amount, weights)[i] + Extra(amount, weights, i) <= amount
  {
    LeftoverBound(amount, weights);
    SumAtLeast(Wholes(amount, weights), i);
  }

  // ---------- ranks are a numbering ----------

  predicate Distinct(o: seq<nat>)
  {
    forall i, j :: 0 <= i < j < |o| ==> o[i] != o[j]
  }

  predicate Ordered(r: seq<nat>, o: seq<nat>)
    requires forall k :: 0 <= k < |o| ==> o[k] < |r|
  {
    forall i, j :: 0 <= i < j < |o| ==> Before(r, o[i], o[j])
  }

  /** `o` lists every participant once, in the order the sort leaves them. */
  ghost predicate Ranking(r: seq<nat>, o: seq<nat>)
  {
    && |o| == |r|
    && (forall k :: 0 <= k < |o| ==> o[k] < |r|)
    && (forall i: nat :: i < |r| ==> i in o)
    && Ordered(r, o)
  }

  function Elements(o: seq<nat>): set<nat>
  {
    set k | k in o
  }

  lemma {:induction false} DistinctSize(o: seq<nat>)
    requires Distinct(o)
    ensures |Elements(o)| == |o|
  {
    if o == [] {
      assert Elements(o) == {};
    } else {
      var n := |o| - 1;
      DistinctSize(o[..n]);
      assert o[n] !in o[..n];
      assert Elements(o) == Elements(o[..n]) + {o[n]};
    }
  }

  /** The k-th participant in sorted order has exactly k participants before it. */
  lemma RankOfPosition(r: seq<nat>, o: seq<nat>, k: nat)
    requires Ranking(r, o) && k < |o|
    ensures Rank(r, o[k]) == k
  {
    var head := o[..k];
    assert Elements(head) == Ahead(r, o[k]) by {
      forall j: nat | j < |r| && Before(r, j, o[k]) ensures j in head {
        assert j in o;
        var m :| 0 <= m < |o| && o[m] == j;
        assert m < k && head[m] == j;
      }
      forall j | j in head ensures j < |r| && Before(r, j, o[k]) {
        var m :| 0 <= m < k && head[m] == j;
        assert Before(r, o[m], o[k]);
      }
    }
    assert Distinct(head) by {
      forall i, j | 0 <= i < j < |head| ensures head[i] != head[j] { assert Before(r, o[i], o[j]); }
    }
    DistinctSize(head);
  }

  /** Selecting the first `n` of a ranking is selecting the ranks below `n`. */
  lemma HeadIsLowRanks(r: seq<nat>, o: seq<nat>, n: nat, i: nat)
    requires Ranking(r, o) && n <= |o| && i < |r|
    ensures i in o[..n] <==> Rank(r, i) < n
  {
    assert i in o;
    var m :| 0 <= m < |o| && o[m] == i;
    RankOfPosition(r, o, m);
    if m < n {
      assert o[..n][m] == i;
    }
    if i in o[..n] {
      var k :| 0 <= k < n && o[..n][k] == i;
      RankOfPosition(r, o, k);
    }
  }

  /** Inserting into a sorted list of indices keeps it sorted. */
  function Insert(r: seq<nat>, o: seq<nat>, i: nat): (p: seq<nat>)
    requires i < |r| && forall k :: 0 <= k < |o| ==> o[k] < |r|
    ensures |p| == |o| + 1 && forall k :: 0 <= k < |p| ==> p[k] < |r|
    ensures forall x :: x in p <==> x in o || x == i
    ensures o != [] ==> p[|p| - 1] == o[|o| - 1] || p[|p| - 1] == i
    ensures Ordered(r, o) && i !in o ==> Ordered(r, p)
  {
    if o == [] then [i]
    else
      var n := |o| - 1;
      if Before(r, o[n], i) then o + [i]
      else
        assert o == o[..n] + [o[n]];
        Insert(r, o[..n], i) + [o[n]]
  }

  function SortedIndices(r: seq<nat>, n: nat): (o: seq<nat>)
    requires n <= |r|
    ensures |o| == n && forall k :: 0 <= k < |o| ==> o[k] < |r|
    ensures forall x: nat :: x in o <==> x < n
    ensures Ordered(r, o)
  {
    if n == 0 then [] else Insert(r, SortedIndices(r, n - 1), n - 1)
  }

  lemma RankingExists(r: seq<nat>)
    ensures Ranking(r, SortedIndices(r, |r|))
  {
  }

  // ---------- conservation ----------

  /** Bumping the listed, distinct positions by one adds their number to the sum. */
  function Bump(q: seq<nat>, at: set<nat>): (s: seq<nat>)
    ensures |s| == |q|
  {
    seq(|q|, i requires 0 <= i < |q| => q[i] + if i in at then 1 else 0)
  }

  lemma {:induction false} SumBump(q: seq<nat>, at: set<nat>)
    requires forall i :: i in at ==> i < |q|
    ensures Sum(Bump(q, at)) == Sum(q) + |at|
  {
    if q == [] {
      assert at == {};
    } else {
      hide Bump;
      var n := |q| - 1;
      var rest := at - {n};
      SumBump(q[..n], rest);
      BumpLast(q, at);
      if n in at {
        assert at == rest + {n};
      } else {
        assert at == rest;
      }
    }
  }

  lemma BumpLast(q: seq<nat>, at: set<nat>)
    requires q != []
    ensures var n := |q| - 1;
            Bump(q, at)[..n] == Bump(q[..n], at - {n}) && Bump(q, at)[n] == q[n] + if n in at then 1 else 0
  {
    var n := |q| - 1;
    assert Bump(q, at)[..n] == Bump(q[..n], at - {n});
  }

  lemma {:induction false} SumZeros(s: seq<nat>)
    requires forall i :: 0 <= i < |s| ==> s[i] == 0
    ensures Sum(s) == 0
  {
    if s != [] {
      SumZeros(s[..|s| - 1]);
    }
  }

  lemma CountNonzeroBound(r: seq<nat>)
    ensures CountNonzero(r) <= |r|
  {
    var all := Elements(SortedIndices(r, |r|));
    RankingExists(r);
    OrderedDistinct(r, SortedIndices(r, |r|));
    DistinctSize(SortedIndices(r, |r|));
    assert NonzeroAt(r) <= all;
    SubsetSize(NonzeroAt(r), all);
  }

  lemma OrderedDistinct(r: seq<nat>, o: seq<nat>)
    requires (forall k :: 0 <= k < |o| ==> o[k] < |r|) && Ordered(r, o)
    ensures Distinct(o)
  {
    forall i, j | 0 <= i < j < |o| ensures o[i] != o[j] { assert Before(r, o[i], o[j]); }
  }

  lemma {:induction false} SubsetSize(a: set<nat>, b: set<nat>)
    requires a <= b
    ensures |a| <= |b|
  {
    if a != {} {
      var x :| x in a;
      SubsetSize(a - {x}, b - {x});
    }
  }

  /** Largest-remainder conservation: for every amount and every weight vector the
      shares and the residual add up to the amount. */
  lemma Conservation(amount: u64, weights: seq<u64>)
    ensures Sum(Shares(amount, weights)) + Residual(amount, weights) == amount
  {
    if Splittable(amount, weights) {
      var q, r := Wholes(amount, weights), Fractions(amount, weights);
      LeftoverBound(amount, weights);
      CountNonzeroBound(r);
      var leftover := amount - Sum(q);
      RankingExists(r);
      var o := SortedIndices(r, |r|);
      var at := Elements(o[..leftover]);
      OrderedDistinct(r, o);
      DistinctSize(o[..leftover]);
      SumBump(q, at);
      forall i | 0 <= i < |weights| ensures Bump(q, at)[i] == Shares(amount, weights)[i] {
        HeadIsLowRanks(r, o, leftover, i);
      }
      assert Bump(q, at) == Shares(amount, weights);
    } else {
      SumZeros(Shares(amount, weights));
    }
  }

  lemma ShareParts(amount: u64, weights: seq<u64>, i: nat)
    requires Splittable(amount, weights) && i < |weights|
    ensures Shares(amount, weights)[i] == Whole(amount, weights[i], Sum(weights)) + Extra(amount, weights, i)
  {
  }

  // ---------- fairness ----------

  /** Only participants with a fraction are ever rounded up. */
  lemma ExtraNeedsFraction(amount: u64, weights: seq<u64>, i: nat)
    requires Splittable(amount, weights) && i < |weights|
    ensures Fraction(amount, weights[i], Sum(weights)) == 0 ==> Extra(amount, weights, i) == 0
    ensures Extra(amount, weights, i) <= 1
  {
    var r := Fractions(amount, weights);
    LeftoverBound(amount, weights);
    if r[i] == 0 {
      assert NonzeroAt(r) <= Ahead(r, i);
      SubsetSize(NonzeroAt(r), Ahead(r, i));
    }
  }

  /** `s` misses owed/total by less than one, on either side. */
  predicate FloorOrCeiling(s: nat, owed: nat, total: nat)
  {
    s * total < owed + total && owed < s * total + total
  }

  /** The quota rule: every share is the floor or the ceiling of amount*w/total,
      that is, it misses the exact quota by less than one unit. */
  lemma QuotaRule(amount: u64, weights: seq<u64>, i: nat)
    requires Splittable(amount, weights) && i < |weights|
    ensures FloorOrCeiling(Shares(amount, weights)[i], amount * weights[i], Sum(weights))
  {
    hide Shares, Extra, Wholes, Fractions, FloorOrCeiling;
    var total := Sum(weights);
    QuotaSplit(amount, weights[i], total);
    ShareParts(amount, weights, i);
    ExtraNeedsFraction(amount, weights, i);
    RoundingArithmetic(amount * weights[i], total, Whole(amount, weights[i], total),
                       Fraction(amount, weights[i], total), Extra(amount, weights, i));
  }

  lemma RoundingArithmetic(owed: nat, total: nat, q: nat, r: nat, extra: nat)
    requires owed == q * total + r && r < total && extra <= 1 && (r == 0 ==> extra == 0)
    ensures FloorOrCeiling(q + extra, owed, total)
  {
    assert (q + extra) * total == q * total + extra * total;
  }

  lemma {:induction false} ProperSubsetSize(a: set<nat>, b: set<nat>)
    requires a < b
    ensures |a| < |b|
  {
    var x :| x in b && x !in a;
    SubsetSize(a, b - {x});
  }

  lemma RankMonotone(r: seq<nat>, i: nat, j: nat)
    requires i < |r| && j < |r| && Before(r, i, j)
    ensures Rank(r, i) < Rank(r, j)
  {
    assert i in Ahead(r, j) && i !in Ahead(r, i);
    assert Ahead(r, i) <= Ahead(r, j);
    ProperSubsetSize(Ahead(r, i), Ahead(r, j));
  }

  lemma DivModMonotone(a: nat, b: nat, t: nat)
    requires t > 0 && a <= b
    ensures a / t <= b / t
    ensures a / t == b / t ==> b % t - a % t == b - a
  {
    assert a == t * (a / t) + a % t && b == t * (b / t) + b % t;
    assert t * (a / t) < t * (b / t + 1);
    MulBelowStrict(t, a / t, b / t + 1);
  }

  lemma QuotaGrows(amount: nat, w: nat, v: nat, total: nat)
    requires total > 0 && amount > 0 && w < v
    ensures Whole(amount, w, total) <= Whole(amount, v, total)
    ensures Whole(amount, w, total) == Whole(amount, v, total) ==> Fraction(amount, w, total) < Fraction(amount, v, total)
  {
    MulMonotone(amount, w, v);
    assert amount * v - amount * w == amount * (v - w) > 0;
    DivModMonotone(amount * w, amount * v, total);
  }

  lemma ExtraAtMostOne(amount: u64, weights: seq<u64>, i: nat)
    requires Sum(weights) > 0 && i < |weights|
    ensures 0 <= Extra(amount, weights, i) <= 1
  {
  }

  /** A larger remainder is served first. */
  lemma ServedBefore(amount: u64, weights: seq<u64>, i: nat, j: nat)
    requires Sum(weights) > 0 && i < |weights| && j < |weights|
    requires Fraction(amount, weights[i], Sum(weights)) > Fraction(amount, weights[j], Sum(weights))
    ensures Extra(amount, weights, j) <= Extra(amount, weights, i)
  {
    hide Fraction, Whole, Sum, Rank;
    RankMonotone(Fractions(amount, weights), i, j);
  }

  /** A larger weight never receives less. */
  lemma LargerWeightNeverLess(amount: u64, weights: seq<u64>, i: nat, j: nat)
    requires Splittable(amount, weights) && i < |weights| && j < |weights|
    requires weights[i] < weights[j]
    ensures Shares(amount, weights)[i] <= Shares(amount, weights)[j]
  {
    hide Shares, Extra, Sum, Wholes;
    QuotaGrows(amount, weights[i], weights[j], Sum(weights));
    ShareParts(amount, weights, i);
    ShareParts(amount, weights, j);
    ExtraAtMostOne(amount, weights, i);
    if Whole(amount, weights[i], Sum(weights)) == Whole(amount, weights[j], Sum(weights)) {
      ServedBefore(amount, weights, j, i);
    }
  }

  /** The rule itself: whoever is rounded up, everyone with a larger remainder, or the
      same remainder and a lower index, is rounded up too. */
  lemma LargestRemainderFirst(amount: u64, weights: seq<u64>, i: nat, j: nat)
    requires Splittable(amount, weights) && i < |weights| && j < |weights|
    requires var t := Sum(weights);
             || amount * weights[i] % t > amount * weights[j] % t
             || (amount * weights[i] % t == amount * weights[j] % t && i < j)
    requires Shares(amount, weights)[j] == amount * weights[j] / Sum(weights) + 1
    ensures Shares(amount, weights)[i] == amount * weights[i] / Sum(weights) + 1
  {
    hide Shares, Wholes;
    ShareParts(amount, weights, i);
    ShareParts(amount, weights, j);
    RankMonotone(Fractions(amount, weights), i, j);
  }

  predicate AtMostOneAhead(s: seq<u64>, i: nat, j: nat)
    requires i < |s| && j < |s|
  {
    var a: int, b: int := s[i], s[j];
    b <= a <= b + 1
  }

  /** Equal weights differ by at most one unit, and the lower index is favoured. */
  lemma EqualWeightsNearlyEqual(amount: u64, weights: seq<u64>, i: nat, j: nat)
    requires Splittable(amount, weights) && i < |weights| && j < |weights|
    requires weights[i] == weights[j] && i < j
    ensures AtMostOneAhead(Shares(amount, weights), i, j)
  {
    hide Shares, Whole, Fraction, Fractions, Extra;
    ShareParts(amount, weights, i);
    ShareParts(amount, weights, j);
    EarlierIsServedFirst(amount, weights, i, j);
  }

  lemma EarlierIsServedFirst(amount: u64, weights: seq<u64>, i: nat, j: nat)
    requires Splittable(amount, weights) && i < |weights| && j < |weights|
    requires weights[i] == weights[j] && i < j
    ensures Extra(amount, weights, j) <= Extra(amount, weights, i) <= 1
  {
    hide Fraction;
    RankMonotone(Fractions(amount, weights), i, j);
  }

  // ---------- the code ----------

  datatype Checked = Overflow | Value(v: u64)

  function CheckedAdd(a: u64, b: u64): (r: Checked)
    ensures r.Value? <==> a + b <= MAX64
    ensures r.Value? ==> r.v == a + b
  {
    if a > MAX64 - b then Overflow else Value(a + b)
  }

  function CheckedSub(a: u64, b: u64): (r: Checked)
    ensures r.Value? <==> b <= a
    ensures r.Value? ==> r.v == a - b
  {
    if b > a then Overflow else Value(a - b)
  }

  /** Quotient and remainder of a 128-bit product; the quotient is cut to 64 bits. */
  method MulDiv(a: u64, b: u64, d: u64) returns (q: u64, rem: u64)
    requires d != 0
    ensures rem == Fraction(a, b, d) && q == Whole(a, b, d) % MODULUS
    ensures b <= d ==> q == Whole(a, b, d)
  {
    var p := a * b;
    QuotaSplit(a, b, d);
    rem := p % d;
    q := (p / d) % MODULUS;
  }

  /** std::sort over 0..n with the comparator of `distribute_dim`, as an insertion sort. */
  method SortOrder(rems: seq<u64>) returns (order: seq<nat>)
    ensures Ranking(rems, order)
  {
    hide Ordered;
    order := [];
    NothingToOrder(rems);
    var i := 0;
    while i < |rems|
      invariant 0 <= i <= |rems| && |order| == i
      invariant forall k :: 0 <= k < |order| ==> order[k] < |rems|
      invariant forall x: nat :: x in order <==> x < i
      invariant Ordered(rems, order)
    {
      var k := PlaceFor(rems, order, i);
      InsertKeepsOrder(rems, order, k, i);
      InsertedMembers(order, k, i, |rems|);
      order := order[..k] + [i] + order[k..];
      i := i + 1;
    }
  }

  lemma NothingToOrder(r: seq<nat>)
    ensures Ordered(r, [])
  {
  }

  /** How far the new index moves down. */
  method PlaceFor(rems: seq<u64>, order: seq<nat>, i: nat) returns (k: nat)
    requires i < |rems| && forall x: nat :: x in order <==> x < i
    requires forall k :: 0 <= k < |order| ==> order[k] < |rems|
    ensures k <= |order| && (k > 0 ==> Before(rems, order[k - 1], i))
    ensures forall m :: k <= m < |order| ==> Before(rems, i, order[m])
  {
    k := |order|;
    while k > 0 && !Before(rems, order[k - 1], i)
      invariant 0 <= k <= |order|
      invariant forall m :: k <= m < |order| ==> Before(rems, i, order[m])
    {
      assert order[k - 1] in order;
      k := k - 1;
    }
  }

  lemma InsertedMembers(o: seq<nat>, k: nat, i: nat, bound: nat)
    requires k <= |o| && i < bound && forall m :: 0 <= m < |o| ==> o[m] < bound
    ensures var p := o[..k] + [i] + o[k..];
            && |p| == |o| + 1 && (forall x: nat :: x in p <==> x in o || x == i)
            && forall m :: 0 <= m < |p| ==> p[m] < bound
  {
    assert o == o[..k] + o[k..];
  }

  lemma InsertKeepsOrder(r: seq<nat>, o: seq<nat>, k: nat, i: nat)
    requires i < |r| && k <= |o| && (forall m :: 0 <= m < |o| ==> o[m] < |r|) && Ordered(r, o)
    requires k > 0 ==> Before(r, o[k - 1], i)
    requires forall m :: k <= m < |o| ==> Before(r, i, o[m])
    ensures Ordered(r, o[..k] + [i] + o[k..])
  {
    forall m | 0 <= m < k ensures Before(r, o[m], i) {
      assert m == k - 1 || Before(r, o[m], o[k - 1]);
    }
  }

  /** The weight total, or the overflow that sends everything to the residual. */
  method TotalWeight(weights: seq<u64>) returns (total: Checked)
    ensures total.Value? <==> Sum(weights) <= MAX64
    ensures total.Value? ==> total.v == Sum(weights)
  {
    total := Value(0);
    var i := 0;
    while i < |weights|
      invariant 0 <= i <= |weights| && total.Value? && total.v == Sum(weights[..i])
    {
      SumGrows(weights, i);
      total := CheckedAdd(total.v, weights[i]);
      if total.Overflow? {
        return;
      }
      i := i + 1;
    }
    assert weights[..|weights|] == weights;
  }

  /** The first pass: whole parts, fractions and their running total. The total can
      never overflow, so the code's early return for that case is dead. */
  method WholeParts(amount: u64, weights: seq<u64>, total: u64) returns (out: seq<u64>, rems: seq<u64>, handed: u64)
    requires Splittable(amount, weights) && total == Sum(weights)
    ensures out == Wholes(amount, weights) && rems == Fractions(amount, weights)
    ensures handed == Sum(Wholes(amount, weights))
  {
    hide Whole, Fraction;
    ghost var q, r := Wholes(amount, weights), Fractions(amount, weights);
    LeftoverBound(amount, weights);
    out, rems, handed := [], [], 0;
    var i := 0;
    while i < |weights|
      invariant 0 <= i <= |weights|
      invariant out == q[..i] && rems == r[..i]
      invariant handed == Sum(q[..i])
    {
      SumAtLeast(weights, i);
      var quot, rem := MulDiv(amount, weights[i], total);
      out, rems := out + [quot], rems + [rem];
      SumGrows(q, i);
      var next := CheckedAdd(handed, quot);
      if next.Overflow? {
        assert false;
      }
      handed := next.v;
      i := i + 1;
    }
    assert q[..|q|] == q && r[..|r|] == r;
  }

  /** The second pass: one extra unit to each of the first `n` participants in order. */
  method HandOut(whole: seq<u64>, order: seq<nat>, n: u64) returns (out: seq<u64>)
    requires Distinct(order) && forall k :: 0 <= k < |order| ==> order[k] < |whole|
    requires forall i :: 0 <= i < |whole| ==> whole[i] < MAX64
    ensures |out| == |whole|
    ensures forall i :: 0 <= i < |whole| ==>
              out[i] == whole[i] + if i in order[..if n < |order| then n else |order|] then 1 else 0
  {
    out := whole;
    var k := 0;
    while k < n && k < |order|
      invariant 0 <= k <= n && k <= |order| && |out| == |whole|
      invariant forall i :: 0 <= i < |whole| ==> out[i] == whole[i] + if i in order[..k] then 1 else 0
    {
      var next := order[k];
      assert order[..k + 1] == order[..k] + [next] && next !in order[..k];
      out := out[next := out[next] + 1];
      k := k + 1;
    }
  }

  /** `distribute_dim`: the loops, the sort and the unit-by-unit hand-out compute
      the closed form. */
  method DistributeDim(amount: u64, weights: seq<u64>) returns (out: seq<u64>, residual: u64)
    ensures out == Shares(amount, weights)
    ensures residual == Residual(amount, weights)
  {
    out := seq(|weights|, i => 0);
    if weights == [] || amount == 0 {
      return out, amount;
    }
    var total := TotalWeight(weights);
    if total.Overflow? || total.v == 0 {
      return out, amount;
    }
    var whole, rems, handed := WholeParts(amount, weights, total.v);
    LeftoverBound(amount, weights);
    out, residual := whole, 0;
    if handed < amount {
      var order := SortOrder(rems);
      OrderedDistinct(rems, order);
      CountNonzeroBound(rems);
      forall i | 0 <= i < |whole| ensures whole[i] < MAX64 { SumAtLeast(whole, i); }
      out := HandOut(whole, order, amount - handed);
      forall i | 0 <= i < |weights| ensures out[i] == Share(amount, weights, i) {
        HeadIsLowRanks(rems, order, amount - handed, i);
      }
    }
  }

  lemma {:induction false} SumGrows(s: seq<nat>, i: nat)
    requires i < |s|
    ensures Sum(s[..i + 1]) == Sum(s[..i]) + s[i] <= Sum(s)
  {
    assert s[..i + 1][..i] == s[..i];
    SumPrefix(s, i + 1);
  }

  lemma {:induction false} SumPrefix(s: seq<nat>, i: nat)
    requires i <= |s|
    ensures Sum(s[..i]) <= Sum(s)
  {
    if i == |s| {
      assert s[..i] == s;
    } else {
      SumPrefix(s[..|s| - 1], i);
      assert s[..|s| - 1][..i] == s[..i];
    }
  }
}
