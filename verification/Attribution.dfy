/** `compute_attribution` of src/ledger.cpp: who is charged for an entry, in every
    dimension, and the proof that nothing is lost or counted twice. */
module Attribution {
  import opened Bytes
  import opened Apportion
  import opened Entries

  /** The three quantities an entry carries. */
  datatype Kind = Physical | Avoided | Stranded

  function Amounts(e: Entry, k: Kind): Dims
  {
    match k
    case Physical => e.usage
    case Avoided => if e.avoidedWork.Some? then e.avoidedWork.value else ZERO
    case Stranded => if e.strandedCapacity.Some? then e.strandedCapacity.value else ZERO
  }

  datatype ShareOf = ShareOf(account: u64, physical: Dims, avoided: Dims, stranded: Dims)
  {
    function Of(k: Kind): Dims
    {
      match k
      case Physical => physical
      case Avoided => avoided
      case Stranded => stranded
    }
  }

  /** Shared participants when there are any, else the owning account, else nobody. */
  function Participants(e: Entry): seq<Participant>
  {
    if e.shared.Some? && e.shared.value.participants != [] then e.shared.value.participants
    else if e.account != 0 then [Participant(e.account, 1)]
    else []
  }

  function PartDims(e: Entry, k: Kind, i: nat): Dims
    requires i < |Participants(e)|
  {
    var w := Weights(Participants(e));
    seq(DIMS, d requires 0 <= d < DIMS => Shares(Amounts(e, k)[d], w)[i])
  }

  function PartShare(e: Entry, i: nat): ShareOf
    requires i < |Participants(e)|
  {
    ShareOf(Participants(e)[i].account, PartDims(e, Physical, i), PartDims(e, Avoided, i), PartDims(e, Stranded, i))
  }

  function ResidualDims(e: Entry, k: Kind): Dims
  {
    seq(DIMS, d requires 0 <= d < DIMS => Residual(Amounts(e, k)[d], Weights(Participants(e))))
  }

  function ResidualShare(e: Entry): ShareOf
  {
    ShareOf(RESIDUAL_ACCOUNT, ResidualDims(e, Physical), ResidualDims(e, Avoided), ResidualDims(e, Stranded))
  }

  predicate HasResidual(e: Entry)
  {
    !IsZero(ResidualDims(e, Physical)) || !IsZero(ResidualDims(e, Avoided)) || !IsZero(ResidualDims(e, Stranded))
  }

  function PartShares(e: Entry): (s: seq<ShareOf>)
    ensures |s| == |Participants(e)|
  {
    seq(|Participants(e)|, i requires 0 <= i < |Participants(e)| => PartShare(e, i))
  }

  /** The shares of an entry: one per participant, then the residual if any. */
  function Split(e: Entry): seq<ShareOf>
  {
    PartShares(e) + if HasResidual(e) then [ResidualShare(e)] else []
  }

  // ---------- totals over a share list ----------

  /** Everything the list hands out, and what it hands to one account. */
  function Given(s: seq<ShareOf>, k: Kind, d: nat): nat
    requires d < DIMS
  {
    if s == [] then 0 else Given(s[..|s| - 1], k, d) + s[|s| - 1].Of(k)[d]
  }

  function GivenTo(s: seq<ShareOf>, a: u64, k: Kind, d: nat): nat
    requires d < DIMS
  {
    if s == [] then 0 else
      GivenTo(s[..|s| - 1], a, k, d) + if s[|s| - 1].account == a then s[|s| - 1].Of(k)[d] else 0
  }

  lemma {:induction false} GivenToAtMost(s: seq<ShareOf>, a: u64, k: Kind, d: nat)
    requires d < DIMS
    ensures GivenTo(s, a, k, d) <= Given(s, k, d)
  {
    if s != [] {
      GivenToAtMost(s[..|s| - 1], a, k, d);
    }
  }

  lemma {:induction false} GivenToPrefix(s: seq<ShareOf>, n: nat, a: u64, k: Kind, d: nat)
    requires d < DIMS && n <= |s|
    ensures GivenTo(s[..n], a, k, d) <= GivenTo(s, a, k, d)
  {
    if n == |s| {
      assert s[..n] == s;
    } else {
      GivenToPrefix(s[..|s| - 1], n, a, k, d);
      assert s[..|s| - 1][..n] == s[..n];
    }
  }

  lemma {:induction false} GivenToNobody(s: seq<ShareOf>, a: u64, k: Kind, d: nat)
    requires d < DIMS && a !in Accounts(s)
    ensures GivenTo(s, a, k, d) == 0
  {
    if s != [] {
      assert s[|s| - 1] in s;
      assert forall x :: x in s[..|s| - 1] ==> x in s;
      GivenToNobody(s[..|s| - 1], a, k, d);
    }
  }

  function Accounts(s: seq<ShareOf>): set<u64>
  {
    set x | x in s :: x.account
  }

  /** Charged(e, a, k, d): what entry `e` attributes to account `a`. */
  function Charged(e: Entry, a: u64, k: Kind, d: nat): nat
    requires d < DIMS
  {
    GivenTo(Split(e), a, k, d)
  }

  function ChargedAccounts(e: Entry): set<u64>
  {
    Accounts(Split(e))
  }

  // ---------- conservation ----------

  lemma {:induction false} PartsGiven(e: Entry, n: nat, k: Kind, d: nat)
    requires d < DIMS && n <= |Participants(e)|
    ensures Given(PartShares(e)[..n], k, d) == Sum(Shares(Amounts(e, k)[d], Weights(Participants(e)))[..n])
  {
    if n > 0 {
      PartsGiven(e, n - 1, k, d);
      var s, t := PartShares(e), Shares(Amounts(e, k)[d], Weights(Participants(e)));
      assert s[..n][..n - 1] == s[..n - 1] && t[..n][..n - 1] == t[..n - 1];
      assert s[..n][n - 1] == PartShare(e, n - 1);
      PartShareAt(e, n - 1, k, d);
    }
  }

  lemma PartShareAt(e: Entry, i: nat, k: Kind, d: nat)
    requires d < DIMS && i < |Participants(e)|
    ensures PartShare(e, i).Of(k)[d] == Shares(Amounts(e, k)[d], Weights(Participants(e)))[i]
  {
  }

  lemma ResidualAt(e: Entry, k: Kind, d: nat)
    requires d < DIMS
    ensures ResidualShare(e).Of(k)[d] == Residual(Amounts(e, k)[d], Weights(Participants(e)))
    ensures !HasResidual(e) ==> ResidualShare(e).Of(k)[d] == 0
  {
  }

  /** Entry-level conservation: in every dimension and for each quantity the shares,
      residual share included, add up to what the entry carries. No validity of the
      entry is needed: repeated participants, an empty list, no owner at all. */
  lemma EntryConservation(e: Entry, k: Kind, d: nat)
    requires d < DIMS
    ensures Given(Split(e), k, d) == Amounts(e, k)[d]
  {
    var n := |Participants(e)|;
    var parts := PartShares(e);
    var shares := Shares(Amounts(e, k)[d], Weights(Participants(e)));
    PartsGiven(e, n, k, d);
    assert parts[..n] == parts && shares[..n] == shares;
    Conservation(Amounts(e, k)[d], Weights(Participants(e)));
    ResidualAt(e, k, d);
    if HasResidual(e) {
      assert Split(e)[..n] == parts;
    } else {
      assert Split(e) == parts;
    }
  }

  /** So no partial sum the pending phase forms can exceed 64 bits. */
  lemma PendingNeverOverflows(e: Entry, n: nat, a: u64, k: Kind, d: nat)
    requires d < DIMS && n <= |Split(e)|
    ensures GivenTo(Split(e)[..n], a, k, d) <= Charged(e, a, k, d) <= Amounts(e, k)[d]
  {
    EntryConservation(e, k, d);
    GivenToAtMost(Split(e), a, k, d);
    GivenToPrefix(Split(e), n, a, k, d);
  }

  /** Nothing consumed, nothing charged. */
  lemma ZeroCharges(e: Entry, a: u64, k: Kind, d: nat)
    requires d < DIMS && Amounts(e, k)[d] == 0
    ensures Charged(e, a, k, d) == 0
  {
    EntryConservation(e, k, d);
    GivenToAtMost(Split(e), a, k, d);
  }

  // ---------- the code ----------

  /** One dimension at a time, `distribute_into` of `compute_attribution`. */
  method DistributeInto(e: Entry, k: Kind, ps: seq<Participant>) returns (parts: seq<Dims>, residual: Dims)
    requires ps == Participants(e)
    ensures |parts| == |Participants(e)|
    ensures forall i :: 0 <= i < |parts| ==> parts[i] == PartDims(e, k, i)
    ensures residual == ResidualDims(e, k)
  {
    hide Shares, Residual;
    var w := Weights(ps);
    parts := seq(|w|, i => ZERO);
    residual := ZERO;
    var d := 0;
    while d < DIMS
      invariant 0 <= d <= DIMS && |parts| == |w|
      invariant forall i, c :: 0 <= i < |w| && 0 <= c < d ==> parts[i][c] == Shares(Amounts(e, k)[c], w)[i]
      invariant forall c :: 0 <= c < d ==> residual[c] == Residual(Amounts(e, k)[c], w)
    {
      var out, resid := DistributeDim(Amounts(e, k)[d], w);
      ghost var before := parts;
      var i := 0;
      while i < |w|
        invariant 0 <= i <= |w| == |parts|
        invariant forall j :: 0 <= j < i ==> parts[j] == before[j][d := out[j]]
        invariant forall j :: i <= j < |w| ==> parts[j] == before[j]
      {
        parts := parts[i := parts[i][d := out[i]]];
        i := i + 1;
      }
      residual := residual[d := resid];
      d := d + 1;
    }
  }

  method ComputeAttribution(e: Entry) returns (shares: seq<ShareOf>)
    ensures shares == Split(e)
  {
    hide Shares, Residual;
    var ps := [];
    if e.shared.Some? && e.shared.value.participants != [] {
      ps := e.shared.value.participants;
    } else if e.account != 0 {
      ps := [Participant(e.account, 1)];
    }
    var physical, rp := DistributeInto(e, Physical, ps);
    var avoided, ra := DistributeInto(e, Avoided, ps);
    var stranded, rs := DistributeInto(e, Stranded, ps);
    shares := [];
    var i := 0;
    while i < |ps|
      invariant 0 <= i <= |ps|
      invariant shares == PartShares(e)[..i]
    {
      shares := shares + [ShareOf(ps[i].account, physical[i], avoided[i], stranded[i])];
      i := i + 1;
    }
    assert PartShares(e)[..|ps|] == PartShares(e);
    if !IsZero(rp) || !IsZero(ra) || !IsZero(rs) {
      shares := shares + [ShareOf(RESIDUAL_ACCOUNT, rp, ra, rs)];
    }
  }
}
