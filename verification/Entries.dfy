/** The accounting entry of include/efficiency_ledger/entry.hpp and the records it
    is made of. Enumerations stay bytes, as a decoder can produce any of them. */
module Entries {
  import opened Bytes
  import opened Apportion

  datatype Option<+T> = None | Some(value: T)

  // ---------- resource dimensions ----------

  const DIMS := 16

  type Dims = s: seq<u64> | |s| == 16 witness [0, 0, 0, 0, 0, 0, 0, 0, 0, 0, 0, 0, 0, 0, 0, 0]

  const ZERO: Dims := [0, 0, 0, 0, 0, 0, 0, 0, 0, 0, 0, 0, 0, 0, 0, 0]

  predicate IsZero(u: Dims)
  {
    forall d :: 0 <= d < DIMS ==> u[d] == 0
  }

  // ---------- classes, events, outcomes ----------

  const USEFUL: Byte := 0
  const OVERHEAD: Byte := 1
  const WASTE: Byte := 2
  const AVOIDED_WORK: Byte := 3
  const STRANDED_CAPACITY: Byte := 4
  const UNKNOWN: Byte := 5

  const EXECUTION_COMPLETED: Byte := 2
  const OUTPUT_PUBLISHED: Byte := 3
  const OUTPUT_REJECTED: Byte := 4
  const TRANSFER_COMPLETED: Byte := 10
  const RESERVATION_RELEASED: Byte := 15
  const CACHE_HIT: Byte := 16
  const STATE_REUSED: Byte := 18
  const CHECKPOINT_RESTORED: Byte := 21
  const RECOVERY_COMPLETED: Byte := 23
  const RECOVERY_FAILED: Byte := 24
  const ALLOCATION_RELEASED: Byte := 26
  const WORK_ACCEPTED: Byte := 30
  const WORK_REJECTED: Byte := 31
  const COMMIT_AUTHORIZED: Byte := 32
  const COMMIT_REJECTED: Byte := 33
  const RECLASSIFY: Byte := 35

  const PROVENANCE_LAST: Byte := 7
  const FRESHNESS_LAST: Byte := 5
  const PENDING: Byte := 0
  const OUTCOME_LAST: Byte := 4

  const MAX_PARTICIPANTS := 4096
  const RESIDUAL_ACCOUNT: u64 := 0xFFFF_FFFF_FFFF_FFFF

  predicate IsConsumption(c: Byte)
  {
    c == USEFUL || c == OVERHEAD || c == WASTE || c == UNKNOWN
  }

  // ---------- the record ----------

  datatype Subcategory = Subcategory(useful: Byte, overhead: Byte, waste: Byte, avoided: Byte, stranded: Byte)

  datatype Participant = Participant(account: u64, weight: u64)

  datatype SharedRef = SharedRef(policy: Byte, participants: seq<Participant>)

  /** Zero means the fence is not set. */
  datatype Fences = Fences(
    epoch: u64, workerBoot: u64, ledgerGeneration: u64, accountGeneration: u64,
    workloadGeneration: u64, resourceGeneration: u64, reservationGeneration: u64,
    allocationGeneration: u64, transferGeneration: u64, recoveryGeneration: u64,
    cacheGeneration: u64, evidenceGeneration: u64, accountingGeneration: u64, publication: u64)

  datatype Owners = Owners(
    resource: u64, transfer: u64, reservation: u64, allocation: u64, recovery: u64,
    cacheObject: u64, device: u64, request: u64, workload: u64, job: u64, service: u64)

  datatype Attempt = Attempt(id: u64, generation: u64)

  datatype Entry = Entry(
    id: u64, event: Byte, classification: Byte, subcategory: Subcategory,
    usage: Dims, avoidedWork: Option<Dims>, strandedCapacity: Option<Dims>,
    provenance: Byte, freshness: Byte, account: u64, shared: Option<SharedRef>,
    fences: Fences, owners: Owners, attempt: Attempt, outcome: Byte,
    target: Option<u64>, note: seq<Byte>)
  {
    predicate HasAttempt() { attempt.id != 0 }
    predicate HasOutcome() { outcome != PENDING }
    predicate IsRevision() { event == RECLASSIFY }

    /** `LedgerEntry::validate`. */
    predicate Valid()
    {
      && id != 0
      && event <= RECLASSIFY
      && classification <= UNKNOWN
      && provenance <= PROVENANCE_LAST
      && freshness <= FRESHNESS_LAST
      && outcome <= OUTCOME_LAST
      && (shared.Some? ==> ValidShared(shared.value))
      && (HasOutcome() ==> attempt.id != 0)
      && (account != 0 || shared.Some?)
    }
  }

  const NO_FENCES := Fences(0, 0, 0, 0, 0, 0, 0, 0, 0, 0, 0, 0, 0, 0)
  const NO_OWNERS := Owners(0, 0, 0, 0, 0, 0, 0, 0, 0, 0, 0)

  /** A default-constructed `LedgerEntry`. */
  const BLANK: Entry := Entry(
    0, EXECUTION_COMPLETED, UNKNOWN, Subcategory(0, 0, 0, 0, 0), ZERO, None, None,
    PROVENANCE_LAST, 0, 0, None, NO_FENCES, NO_OWNERS, Attempt(0, 0), PENDING, None, [])

  // ---------- shared work ----------

  function Weights(ps: seq<Participant>): (w: seq<u64>)
    ensures |w| == |ps|
    ensures forall i :: 0 <= i < |ps| ==> w[i] == ps[i].weight
  {
    seq(|ps|, i requires 0 <= i < |ps| => ps[i].weight)
  }

  /** What `SharedRef::valid` accepts, said without its loop: an empty list, or at
      most 4096 real accounts whose positive weights add up within 64 bits. */
  predicate ValidShared(s: SharedRef)
  {
    var ps := s.participants;
    ps == [] ||
    (&& |ps| <= MAX_PARTICIPANTS
     && (forall i :: 0 <= i < |ps| ==> ps[i].account != 0 && ps[i].weight != 0)
     && Sum(Weights(ps)) <= MAX64)
  }

  /** `SharedRef::valid` as written. */
  method SharedValid(s: SharedRef) returns (ok: bool)
    ensures ok == ValidShared(s)
  {
    var ps := s.participants;
    if ps == [] {
      return true;
    }
    if |ps| > MAX_PARTICIPANTS {
      return false;
    }
    ghost var w := Weights(ps);
    var total: u64 := 0;
    var i := 0;
    while i < |ps|
      invariant 0 <= i <= |ps|
      invariant forall k :: 0 <= k < i ==> ps[k].account != 0 && ps[k].weight != 0
      invariant total == Sum(w[..i])
      invariant i > 0 ==> total != 0
    {
      if ps[i].account == 0 || ps[i].weight == 0 {
        return false;
      }
      SumGrows(w, i);
      var next := CheckedAdd(total, ps[i].weight);
      if next.Overflow? {
        return false;
      }
      total := next.v;
      i := i + 1;
    }
    assert w[..|w|] == w;
    if |ps| == 1 {
      return true;
    }
    return total != 0;
  }
}
