/** The connection loop of tools/el_coordinator.cpp as a state machine: one
    connection at a time, each message one step, and the saved file one variable.
    A kill is possible after every step and leaves only that variable. */
module Coordinator {
  import opened Bytes
  import opened Entries
  import opened Codec
  import opened Aggregates
  import opened Ledger
  import opened Identity
  import opened Totals
  import opened Runs
  import opened Replay
  import opened Image

  /** `conn_boot` and `registered`, with a number that tells connections apart. */
  datatype Connection = Idle | Open(number: nat, boot: u64, registered: bool)

  /** An acknowledged append: what was committed and on which connection. */
  datatype Ack = Ack(entry: Entry, connection: nat)

  datatype Process = Process(
    led: State, conn: Connection, running: bool, persistent: bool, file: Option<seq<Byte>>,
    accepted: nat, registrations: set<(nat, u64)>, acks: seq<Ack>)

  datatype Event =
    | Accept
    | RegisterMsg(body: seq<Byte>)
    | AppendMsg(body: seq<Byte>, order: seq<u64>)
    | QueryMsg
    | ShutdownMsg
    | UnknownMsg
    | Disconnect
  {
    ghost predicate Valid()
    {
      AppendMsg? && Carries(body).Some? ==> OrderFor(Carries(body).value, order)
    }
  }

  type Script = es: seq<Event> | forall i :: 0 <= i < |es| ==> es[i].Valid()

  /** The entry in a message body: it must decode and leave nothing over. */
  function Carries(body: seq<Byte>): (e: Option<Entry>)
    ensures e.Some? ==> Encodable(e.value)
  {
    match Decode(body, 0)
    case Bad(_) => None
    case Good(e, end) => DecodeIsCanonical(body, 0); if end == |body| then Some(e) else None
  }

  function Register(p: Process, boot: u64): Process
    requires p.conn.Open?
  {
    p.(led := p.led.(auth := Governed(p.led.auth, RegisterWorker(boot))),
       conn := p.conn.(boot := boot, registered := true),
       registrations := p.registrations + {(p.conn.number, boot)})
  }

  function Saved(p: Process): Process
  {
    if p.persistent then p.(file := Some(SaveImage(p.led))) else p
  }

  ghost function HandleAppend(p: Process, e: Entry, order: seq<u64>): Process
    requires p.conn.Open? && OrderFor(e, order)
  {
    var (b, code) := AppendLocked(p.led, e, order);
    var p' := p.(led := p.led.(book := b));
    if code == Ok then Saved(p').(acks := p.acks + [Ack(e, p.conn.number)]) else p'
  }

  function Hangup(p: Process): Process
    requires p.conn.Open?
  {
    p.(conn := Idle,
       led := if p.conn.registered && p.conn.boot != 0
              then p.led.(auth := Governed(p.led.auth, UnregisterWorker(p.conn.boot))) else p.led)
  }

  /** Events that do not fit the state (a message with no connection open, an accept
      while one is, anything after shutdown) cannot happen and change nothing. */
  ghost function Handle(p: Process, ev: Event): Process
    requires ev.Valid()
  {
    if !p.running then p
    else if p.conn.Idle? then
      if ev.Accept? then p.(conn := Open(p.accepted, 0, false), accepted := p.accepted + 1) else p
    else
      match ev
      case RegisterMsg(body) => if |body| < 8 then p else RegisterBody(p, body)
      case AppendMsg(body, order) =>
        if Carries(body).None? then p else HandleAppend(p, Carries(body).value, order)
      case ShutdownMsg => Saved(p).(running := false, conn := Idle)
      case Disconnect => Hangup(p)
      case _ => p
  }

  function RegisterBody(p: Process, body: seq<Byte>): Process
    requires p.conn.Open? && |body| >= 8
  {
    PutGet(body[..8]);
    Widths();
    Register(p, GetLE(body[..8]))
  }

  ghost function Served(p: Process, es: Script): Process
  {
    if es == [] then p else Handle(Served(p, es[..|es| - 1]), es[|es| - 1])
  }

  /** The process right after start-up: no worker is live, nothing acknowledged. */
  predicate Started(p: Process)
  {
    p.running && p.conn.Idle? && p.accepted == 0 && p.registrations == {} && p.acks == []
    && p.led.auth.liveWorkers == {} && !p.led.auth.shuttingDown && !p.led.auth.replaying
  }

  // ---------- fencing ----------

  /** The boots registered on the open connection so far. */
  function BootsOn(p: Process): set<u64>
  {
    if p.conn.Idle? then {} else BootsOf(p.registrations, p.conn.number)
  }

  function BootsOf(registrations: set<(nat, u64)>, number: nat): set<u64>
  {
    set r | r in registrations && r.0 == number && r.1 != 0 :: r.1
  }

  /** Book-keeping that holds at every step of every script. */
  ghost predicate Tracked(p: Process)
  {
    && !p.led.auth.replaying
    && (forall r :: r in p.registrations ==> r.0 < p.accepted)
    && (p.conn.Open? ==> p.conn.number < p.accepted && p.running)
    && (p.conn.Open? && !p.conn.registered ==> BootsOn(p) == {} && p.conn.boot == 0)
    && (p.conn.Open? && p.conn.registered && p.conn.boot != 0 ==> p.conn.boot in BootsOn(p))
  }

  /** While running, the live boots are exactly those of the open connection. */
  predicate LiveExactly(p: Process)
  {
    p.running ==> p.led.auth.liveWorkers == BootsOn(p)
  }

  predicate NoneLiveWhenIdle(p: Process)
  {
    p.running && p.conn.Idle? ==> p.led.auth.liveWorkers == {}
  }

  /** A connection that hangs up has registered no boot but its last one. */
  ghost predicate LeavesWithItsBoot(p: Process, ev: Event)
  {
    p.running && p.conn.Open? && ev.Disconnect? ==> forall b :: b in BootsOn(p) ==> b == p.conn.boot
  }

  lemma RegisteredBoots(p: Process, boot: u64)
    requires p.conn.Open?
    ensures BootsOn(Register(p, boot)) == BootsOn(p) + if boot != 0 then {boot} else {}
  {
    var q := Register(p, boot);
    forall b ensures b in BootsOn(q) <==> b in BootsOn(p) || (b == boot && boot != 0) {
      if b in BootsOn(p) { assert (p.conn.number, b) in q.registrations; }
      if b == boot && boot != 0 { assert (q.conn.number, b) in q.registrations; }
    }
  }

  /** A new connection has registered nothing. */
  lemma NewConnection(p: Process)
    requires Tracked(p)
    ensures BootsOf(p.registrations, p.accepted) == {}
  {
  }

  lemma HandleTracked(p: Process, ev: Event)
    requires ev.Valid() && Tracked(p)
    ensures Tracked(Handle(p, ev))
  {
    hide AppendLocked, SaveImage, Carries, GetLE, BootsOf;
    NewConnection(p);
    if p.running && p.conn.Open? && ev.RegisterMsg? && |ev.body| >= 8 {
      PutGet(ev.body[..8]);
      Widths();
      RegisteredBoots(p, GetLE(ev.body[..8]));
    }
  }

  /** A step keeps the live boots exact, and idle points clean, exactly when it is not a
      hang-up that leaves a boot behind. */
  lemma HandleLive(p: Process, ev: Event)
    requires ev.Valid() && Tracked(p) && LiveExactly(p)
    ensures LiveExactly(Handle(p, ev)) <==> LeavesWithItsBoot(p, ev)
    ensures NoneLiveWhenIdle(Handle(p, ev)) <==> LeavesWithItsBoot(p, ev)
  {
    hide AppendLocked, SaveImage, Carries, GetLE, BootsOf;
    NewConnection(p);
    if p.running && p.conn.Open? {
      if ev.RegisterMsg? && |ev.body| >= 8 {
        PutGet(ev.body[..8]);
        Widths();
        RegisteredBoots(p, GetLE(ev.body[..8]));
      } else if ev.Disconnect? {
        HangupLive(p);
      }
    }
  }

  lemma HangupLive(p: Process)
    requires p.running && p.conn.Open? && Tracked(p) && LiveExactly(p)
    ensures Hangup(p).led.auth.liveWorkers == {} <==> forall b :: b in BootsOn(p) ==> b == p.conn.boot
  {
    var live := Hangup(p).led.auth.liveWorkers;
    assert live == BootsOn(p) - {p.conn.boot};
    if live == {} {
      forall b | b in BootsOn(p) ensures b == p.conn.boot {
        assert b != p.conn.boot ==> b in live;
      }
    }
  }

  ghost predicate NoBootOutlives(p: Process, es: Script)
  {
    forall i :: 0 <= i <= |es| ==> NoneLiveWhenIdle(Served(p, es[..i]))
  }

  ghost predicate OneBootEach(p: Process, es: Script)
  {
    forall i :: 0 <= i < |es| ==> LeavesWithItsBoot(Served(p, es[..i]), es[i])
  }

  lemma OneBootEachSplit(p: Process, es: Script)
    requires es != []
    ensures OneBootEach(p, es) <==>
            OneBootEach(p, es[..|es| - 1]) && LeavesWithItsBoot(Served(p, es[..|es| - 1]), es[|es| - 1])
  {
    hide Served, LeavesWithItsBoot, Event.Valid;
    var before := es[..|es| - 1];
    forall i | 0 <= i < |before| ensures before[..i] == es[..i] && before[i] == es[i] { }
  }

  lemma NoBootOutlivesSplit(p: Process, es: Script)
    requires es != []
    ensures NoBootOutlives(p, es) <==> NoBootOutlives(p, es[..|es| - 1]) && NoneLiveWhenIdle(Served(p, es))
  {
    hide Served, NoneLiveWhenIdle, Event.Valid;
    var before := es[..|es| - 1];
    assert es[..|es|] == es;
    if NoBootOutlives(p, es) {
      forall i | 0 <= i <= |before| ensures NoneLiveWhenIdle(Served(p, before[..i])) {
        assert before[..i] == es[..i];
      }
    }
    if NoBootOutlives(p, before) && NoneLiveWhenIdle(Served(p, es)) {
      forall i | 0 <= i <= |es| ensures NoneLiveWhenIdle(Served(p, es[..i])) {
        if i <= |before| {
          assert before[..i] == es[..i];
        }
      }
    }
  }

  lemma {:induction false} AlwaysTracked(p: Process, es: Script)
    requires Started(p)
    ensures Tracked(Served(p, es))
  {
    hide Handle;
    if es != [] {
      AlwaysTracked(p, es[..|es| - 1]);
      HandleTracked(Served(p, es[..|es| - 1]), es[|es| - 1]);
    }
  }

  /** Over every script: no boot is live at any moment between connections if and only
      if every connection that hangs up has registered no boot but its last one. While
      that holds, the live boots are exactly those of the open connection. */
  lemma {:induction false} NoBootOutlivesIff(p: Process, es: Script)
    requires Started(p)
    ensures NoBootOutlives(p, es) <==> OneBootEach(p, es)
    ensures OneBootEach(p, es) ==> LiveExactly(Served(p, es))
  {
    hide Handle, LeavesWithItsBoot, NoneLiveWhenIdle, LiveExactly, Tracked, NoBootOutlives, OneBootEach, Started;
    if es == [] {
      NothingServed(p);
    } else {
      var before, ev := es[..|es| - 1], es[|es| - 1];
      NoBootOutlivesIff(p, before);
      OneBootEachSplit(p, es);
      NoBootOutlivesSplit(p, es);
      if OneBootEach(p, before) {
        AlwaysTracked(p, before);
        HandleLive(Served(p, before), ev);
      }
    }
  }

  lemma NothingServed(p: Process)
    requires Started(p)
    ensures NoBootOutlives(p, []) && OneBootEach(p, []) && LiveExactly(Served(p, []))
  {
  }

  /** The entry arrived on a connection that had registered the boot that fences it. */
  predicate Fenced(k: Ack, registrations: set<(nat, u64)>)
  {
    k.entry.fences.workerBoot != 0 ==> (k.connection, k.entry.fences.workerBoot) in registrations
  }

  ghost predicate AllFenced(p: Process)
  {
    forall i :: 0 <= i < |p.acks| ==> Fenced(p.acks[i], p.registrations)
  }

  lemma HandleFenced(p: Process, ev: Event)
    requires ev.Valid() && Tracked(p) && LiveExactly(p) && AllFenced(p)
    ensures AllFenced(Handle(p, ev))
  {
    hide AppendLocked, SaveImage, Carries, Admits, Accepted, FencesCurrent, GetLE;
    var p' := Handle(p, ev);
    if p.running && p.conn.Open? && ev.AppendMsg? && Carries(ev.body).Some? {
      var e := Carries(ev.body).value;
      AppendAccepts(p.led, e, ev.order);
      forall i | 0 <= i < |p'.acks| ensures Fenced(p'.acks[i], p'.registrations) {
        if i == |p.acks| {
          assert p'.acks[i] == Ack(e, p.conn.number);
          assert WorkerLive(p.led.auth, e);
        }
      }
    }
  }

  /** As long as no boot outlives its connection, every acknowledged entry fenced by a
      worker boot arrived on a connection that had registered that boot. */
  lemma {:induction false} BootFencing(p: Process, es: Script)
    requires Started(p) && NoBootOutlives(p, es)
    ensures AllFenced(Served(p, es))
  {
    hide Handle, LiveExactly, Tracked, NoBootOutlives, NoneLiveWhenIdle;
    if es != [] {
      var before := es[..|es| - 1];
      NoBootOutlivesSplit(p, es);
      BootFencing(p, before);
      NoBootOutlivesIff(p, before);
      AlwaysTracked(p, before);
      HandleFenced(Served(p, before), es[|es| - 1]);
    }
  }

  predicate RegistersAgain(p: Process, ev: Event)
  {
    ev.RegisterMsg? && |ev.body| >= 8 && p.conn.Open? && p.conn.registered
  }

  /** No connection sends two register messages. */
  ghost predicate OneRegisterEach(p: Process, es: Script)
  {
    forall i :: 0 <= i < |es| ==> !RegistersAgain(Served(p, es[..i]), es[i])
  }

  ghost predicate OnlyItsBoot(p: Process)
  {
    forall b :: b in BootsOn(p) ==> b == p.conn.boot
  }

  lemma HandleOnlyItsBoot(p: Process, ev: Event)
    requires ev.Valid() && Tracked(p) && !RegistersAgain(p, ev) && (p.conn.Open? ==> OnlyItsBoot(p))
    ensures Handle(p, ev).conn.Open? ==> OnlyItsBoot(Handle(p, ev))
  {
    hide AppendLocked, SaveImage, Carries, GetLE, BootsOf;
    NewConnection(p);
    if p.running && p.conn.Open? && ev.RegisterMsg? && |ev.body| >= 8 {
      PutGet(ev.body[..8]);
      Widths();
      RegisteredBoots(p, GetLE(ev.body[..8]));
    } else if p.running && p.conn.Idle? && ev.Accept? {
      assert BootsOn(Handle(p, ev)) == {};
    } else if Handle(p, ev).conn.Open? {
      assert Handle(p, ev).conn == p.conn && Handle(p, ev).registrations == p.registrations;
      assert BootsOn(Handle(p, ev)) == BootsOn(p);
    }
  }

  /** One register message per connection is enough. */
  lemma {:induction false} OneRegisterSuffices(p: Process, es: Script)
    requires Started(p) && OneRegisterEach(p, es)
    ensures OneBootEach(p, es) && (Served(p, es).conn.Open? ==> OnlyItsBoot(Served(p, es)))
  {
    hide Handle, Tracked, RegistersAgain, OnlyItsBoot, OneRegisterEach, OneBootEach, Event.Valid;
    if es == [] {
      NothingServed(p);
      assert Served(p, es) == p && p.conn.Idle?;
    } else {
      var before := es[..|es| - 1];
      OneRegisterEachSplit(p, es);
      OneRegisterSuffices(p, before);
      AlwaysTracked(p, before);
      OneBootEachSplit(p, es);
      OnlyItsBootLeaves(Served(p, before), es[|es| - 1]);
      HandleOnlyItsBoot(Served(p, before), es[|es| - 1]);
    }
  }

  lemma OneRegisterEachSplit(p: Process, es: Script)
    requires es != [] && OneRegisterEach(p, es)
    ensures OneRegisterEach(p, es[..|es| - 1]) && !RegistersAgain(Served(p, es[..|es| - 1]), es[|es| - 1])
  {
    hide Served, RegistersAgain, Event.Valid;
    var before := es[..|es| - 1];
    forall i | 0 <= i < |before| ensures !RegistersAgain(Served(p, before[..i]), before[i]) {
      assert before[..i] == es[..i] && before[i] == es[i];
    }
  }

  lemma OnlyItsBootLeaves(p: Process, ev: Event)
    requires p.conn.Open? ==> OnlyItsBoot(p)
    ensures LeavesWithItsBoot(p, ev)
  {
  }

  /** One connection that registers twice and hangs up. */
  function TwoRegistrations(first: u64, second: u64): (es: Script)
    ensures |es| == 4
  {
    hide Carries, PutU64;
    [Accept, RegisterMsg(PutU64(first)), RegisterMsg(PutU64(second)), Disconnect]
  }

  /** A connection that registers two different boots leaves the first one live after
      it is gone. */
  lemma SecondRegisterLeaksBoot(p: Process, first: u64, second: u64)
    requires Started(p) && first != 0 && first != second
    ensures var q := Served(p, TwoRegistrations(first, second));
            q.running && q.conn.Idle? && first in q.led.auth.liveWorkers
  {
    hide Carries, AppendLocked, PutU64, GetLE;
    var es := TwoRegistrations(first, second);
    RegisteredBoot(first);
    RegisteredBoot(second);
    ServedOne(p, es, 0);
    ServedOne(p, es, 1);
    ServedOne(p, es, 2);
    ServedOne(p, es, 3);
    assert es[..4] == es && es[..0] == [];
  }

  lemma ServedOne(p: Process, es: Script, n: nat)
    requires n < |es|
    ensures Served(p, es[..n + 1]) == Handle(Served(p, es[..n]), es[n])
  {
    hide Handle;
    assert es[..n + 1][..n] == es[..n];
  }

  lemma RegisteredBoot(boot: u64)
    ensures |PutU64(boot)| == 8 && GetLE(PutU64(boot)[..8]) == boot
  {
    assert PutU64(boot)[..8] == PutU64(boot);
    GetPut(boot, 8);
    Widths();
  }

  // ---------- durability ----------

  /** Acknowledged entries are in the history, and the file is the image of the
      ledger as soon as anything has been acknowledged. */
  ghost predicate DurabilityInvariant(p: Process)
  {
    && (forall i :: 0 <= i < |p.acks| ==> p.acks[i].entry in p.led.book.history)
    && (p.persistent && p.acks != [] ==> p.file == Some(SaveImage(p.led)))
  }

  /** The image depends only on the authority values and the history. */
  lemma SameImage(s: State, t: State)
    requires HeaderOf(s.auth) == HeaderOf(t.auth) && s.book.history == t.book.history
    ensures SaveImage(s) == SaveImage(t)
  {
    hide ImageOf;
  }

  lemma HandleDurable(p: Process, ev: Event)
    requires ev.Valid() && DurabilityInvariant(p)
    ensures DurabilityInvariant(Handle(p, ev))
    ensures HeaderOf(Handle(p, ev).led.auth) == HeaderOf(p.led.auth)
    ensures Handle(p, ev).persistent == p.persistent
  {
    hide AppendLocked, SaveImage, Carries, Admits, Accepted, GetLE;
    var p' := Handle(p, ev);
    if p.running && p.conn.Open? {
      if ev.AppendMsg? && Carries(ev.body).Some? {
        var e := Carries(ev.body).value;
        AppendAccepts(p.led, e, ev.order);
        if AppendLocked(p.led, e, ev.order).1 == Ok {
          AcceptedHistory(p.led.book, e, p'.led.book);
        } else {
          RejectionLeavesHistory(p.led, e, ev.order);
          SameImage(p.led, p'.led);
        }
      } else {
        SameImage(p.led, p'.led);
      }
    }
  }

  lemma {:induction false} AcknowledgedIsSaved(p: Process, es: Script)
    requires Started(p)
    ensures DurabilityInvariant(Served(p, es))
    ensures HeaderOf(Served(p, es).led.auth) == HeaderOf(p.led.auth) && Served(p, es).persistent == p.persistent
  {
    hide Handle, SaveImage;
    if es != [] {
      AcknowledgedIsSaved(p, es[..|es| - 1]);
      HandleDurable(Served(p, es[..|es| - 1]), es[|es| - 1]);
    }
  }

  /** The file is the image of the ledger, or there is nothing to save yet. */
  predicate InSync(p: Process)
  {
    p.persistent && (p.file == Some(SaveImage(p.led)) || (p.file.None? && p.led.book.history == []))
  }

  lemma HandleInSync(p: Process, ev: Event)
    requires ev.Valid() && InSync(p)
    ensures InSync(Handle(p, ev))
  {
    hide AppendLocked, SaveImage, Carries, GetLE;
    var p' := Handle(p, ev);
    if p.running && p.conn.Open? {
      if ev.AppendMsg? && Carries(ev.body).Some? {
        var e := Carries(ev.body).value;
        if AppendLocked(p.led, e, ev.order).1 != Ok {
          RejectionLeavesHistory(p.led, e, ev.order);
          SameImage(p.led, p'.led);
        }
      } else {
        SameImage(p.led, p'.led);
      }
    }
  }

  lemma {:induction false} StaysInSync(p: Process, es: Script)
    requires InSync(p)
    ensures InSync(Served(p, es))
  {
    hide Handle, InSync;
    if es != [] {
      StaysInSync(p, es[..|es| - 1]);
      HandleInSync(Served(p, es[..|es| - 1]), es[|es| - 1]);
    }
  }

  // ---------- recovery ----------

  /** A history this process may have started from and extended: every fence agrees
      with its authority values and every entry is within the codec's bounds. */
  ghost predicate Reloadable(s: State)
  {
    FencesMatch(s.auth, s.book.history) && AllEncodable(s.book.history)
  }

  lemma AppendReloadable(s: State, e: Entry, order: seq<u64>)
    requires OrderFor(e, order) && Reloadable(s) && Encodable(e)
    ensures Reloadable(State(s.auth, AppendLocked(s, e, order).0))
  {
    hide AppendLocked, Encodable, FencesCurrent, Admits, Accepted;
    var (b, code) := AppendLocked(s, e, order);
    AppendAccepts(s, e, order);
    if code == Ok {
      AcceptedHistory(s.book, e, b);
    } else {
      RejectionLeavesHistory(s, e, order);
    }
  }

  lemma HandleReloadable(p: Process, ev: Event)
    requires ev.Valid() && Reloadable(p.led)
    ensures Reloadable(Handle(p, ev).led)
  {
    hide AppendLocked, SaveImage, Encodable, Carries, GetLE;
    var p' := Handle(p, ev);
    if p.running && p.conn.Open? && ev.AppendMsg? && Carries(ev.body).Some? {
      AppendReloadable(p.led, Carries(ev.body).value, ev.order);
    } else {
      SameHeaderSameFences(p.led.auth, p'.led.auth, p.led.book.history);
    }
  }

  lemma {:induction false} StaysReloadable(p: Process, es: Script)
    requires Reloadable(p.led)
    ensures Reloadable(Served(p, es).led)
  {
    hide Handle, Reloadable;
    if es != [] {
      StaysReloadable(p, es[..|es| - 1]);
      HandleReloadable(Served(p, es[..|es| - 1]), es[|es| - 1]);
    }
  }

  lemma HandleSound(p: Process, ev: Event)
    requires ev.Valid() && Sound(p.led.book) && Grounded(p.led.book)
    ensures Sound(Handle(p, ev).led.book) && Grounded(Handle(p, ev).led.book)
  {
    hide AppendLocked, SaveImage, Carries, GetLE, Sound, Grounded;
    if p.running && p.conn.Open? && ev.AppendMsg? && Carries(ev.body).Some? {
      AppendSound(p.led, Carries(ev.body).value, ev.order);
      AppendGrounded(p.led, Carries(ev.body).value, ev.order);
    }
  }

  lemma {:induction false} StaysSound(p: Process, es: Script)
    requires Sound(p.led.book) && Grounded(p.led.book)
    ensures Sound(Served(p, es).led.book) && Grounded(Served(p, es).led.book)
  {
    hide Handle, Sound, Grounded;
    if es != [] {
      StaysSound(p, es[..|es| - 1]);
      HandleSound(Served(p, es[..|es| - 1]), es[|es| - 1]);
    }
  }

  /** Kill and reload, exactly. Take a coordinator started on a ledger whose history
      agrees with its own authority values, let it serve any script at all, and kill it
      anywhere after an acknowledgement. A fresh ledger loads the file if and only if
      every revision is paid for by the recomputation and the entries are not too many.
      It then holds the same history with every acknowledged append, and the same index,
      attempts, gates and authority values. */
  lemma KillAndReloadIff(p: Process, es: Script, fresh_: State, orders: seq<seq<u64>>)
    requires Started(p) && p.persistent && Sound(p.led.book) && Grounded(p.led.book) && Reloadable(p.led)
    requires var q := Served(p, es); q.acks != [] && |q.led.book.history| <= MAX64
    requires var q := Served(p, es); q.file.Some? && OrdersForImage(q.file.value, orders)
    ensures var q := Served(p, es);
            var (s, code) := LoadImage(fresh_, q.file.value, orders);
            && (code == Ok <==> Replayable(q.led.book.history) && |q.led.book.history| <= MAX_ENTRIES)
            && (code == Ok ==> Rebuilt(q.led.book, s.book) && HeaderOf(s.auth) == HeaderOf(q.led.auth)
                               && forall i :: 0 <= i < |q.acks| ==> q.acks[i].entry in s.book.history)
  {
    hide Served, Sound, Grounded, Reloadable, SaveImage, LoadImage, Started, OrdersForImage, Replayable;
    var q := Served(p, es);
    AcknowledgedIsSaved(p, es);
    StaysReloadable(p, es);
    StaysSound(p, es);
    ReloadIff(q.led, fresh_, orders);
  }

  lemma ReloadIff(s: State, into: State, orders: seq<seq<u64>>)
    requires Sound(s.book) && Grounded(s.book) && Reloadable(s) && |s.book.history| <= MAX64
    requires OrdersForImage(SaveImage(s), orders)
    ensures var (s', code) := LoadImage(into, SaveImage(s), orders);
            && (code == Ok <==> Replayable(s.book.history) && |s.book.history| <= MAX_ENTRIES)
            && (code == Ok ==> Restored(s, into, s'))
  {
    hide Sound, Grounded, Replayable, SaveImage, LoadImage, FencesMatch, OrdersForImage, Restored;
    NotesWithinBounds(s.book.history);
    SaveThenLoad(s, into, orders);
  }

  lemma NotesWithinBounds(h: seq<Entry>)
    requires AllEncodable(h)
    ensures NotesBelow(h, MAX_NOTE + 1) && NotesBelow(h, 0x8000_0000)
  {
    forall i | 0 <= i < |h| ensures |h[i].note| <= MAX_NOTE {
      assert Encodable(h[i]);
    }
  }

  /** The code of the append inside an event, for the conditions below. */
  ghost function AppendCode(p: Process, ev: Event): Code
    requires ev.Valid()
  {
    if p.running && p.conn.Open? && ev.AppendMsg? && Carries(ev.body).Some?
    then AppendLocked(p.led, Carries(ev.body).value, ev.order).1 else Ok
  }

  /** No append of the script stopped midway through the accounts. */
  ghost predicate NeverPartial(p: Process, es: Script)
  {
    forall i :: 0 <= i < |es| ==> !PartialFailure(AppendCode(Served(p, es[..i]), es[i]))
  }

  lemma HandleClean(p: Process, ev: Event)
    requires ev.Valid() && Clean(p.led.book) && !PartialFailure(AppendCode(p, ev))
    ensures Clean(Handle(p, ev).led.book)
  {
    hide AppendLocked, SaveImage, Clean, Carries, GetLE;
    if p.running && p.conn.Open? && ev.AppendMsg? && Carries(ev.body).Some? {
      AppendClean(p.led, Carries(ev.body).value, ev.order);
    }
  }

  lemma {:induction false} StaysClean(p: Process, es: Script)
    requires Clean(p.led.book) && NeverPartial(p, es)
    ensures Clean(Served(p, es).led.book)
  {
    hide Handle, Clean, AppendCode;
    if es != [] {
      var before := es[..|es| - 1];
      forall i | 0 <= i < |before| ensures before[..i] == es[..i] && before[i] == es[i] { }
      assert NeverPartial(p, before) by {
        forall i | 0 <= i < |before| ensures !PartialFailure(AppendCode(Served(p, before[..i]), before[i])) {
          assert before[..i] == es[..i] && before[i] == es[i];
        }
      }
      StaysClean(p, before);
      HandleClean(Served(p, before), es[|es| - 1]);
    }
  }

  /** A script without a partial failure is always recovered, accounts included. */
  lemma KillAndReloadRecovers(p: Process, es: Script, fresh_: State, orders: seq<seq<u64>>)
    requires Started(p) && p.persistent && Clean(p.led.book) && Reloadable(p.led) && NeverPartial(p, es)
    requires var q := Served(p, es); q.acks != [] && |q.led.book.history| <= MAX_ENTRIES
    requires var q := Served(p, es); q.file.Some? && OrdersForImage(q.file.value, orders)
    ensures var q := Served(p, es);
            var (s, code) := LoadImage(fresh_, q.file.value, orders);
            && code == Ok && s.book == q.led.book && HeaderOf(s.auth) == HeaderOf(q.led.auth)
            && forall i :: 0 <= i < |q.acks| ==> q.acks[i].entry in s.book.history
  {
    hide Served, Agrees, Disciplined, WellFormed, Exact, Replayable, Grounded, Reloadable, NeverPartial, SaveImage, LoadImage, Started, OrdersForImage;
    ExactIsGrounded(p.led.book);
    StaysClean(p, es);
    KillAndReloadIff(p, es, fresh_, orders);
  }

  /** The history an event offers to extend to. */
  ghost function OfferedTo(p: Process, ev: Event): seq<Entry>
  {
    if ev.AppendMsg? && Carries(ev.body).Some? then p.led.book.history + [Carries(ev.body).value] else p.led.book.history
  }

  /** No append of the script revises an entry already revised. */
  ghost predicate NeverRevisesTwice(p: Process, es: Script)
  {
    forall i :: 0 <= i < |es| ==> RevisedOnce(OfferedTo(Served(p, es[..i]), es[i]))
  }

  lemma HandleCovered(p: Process, ev: Event)
    requires ev.Valid() && Covered(p.led.book) && RevisedOnce(OfferedTo(p, ev))
    ensures Covered(Handle(p, ev).led.book)
  {
    hide AppendLocked, SaveImage, Covered, Carries, GetLE, RevisedOnce;
    if p.running && p.conn.Open? && ev.AppendMsg? && Carries(ev.body).Some? {
      AppendCovered(p.led, Carries(ev.body).value, ev.order);
    }
  }

  lemma {:induction false} StaysCovered(p: Process, es: Script)
    requires Covered(p.led.book) && NeverRevisesTwice(p, es)
    ensures Covered(Served(p, es).led.book)
  {
    hide Handle, Covered, OfferedTo, RevisedOnce;
    if es != [] {
      var before := es[..|es| - 1];
      assert NeverRevisesTwice(p, before) by {
        forall i | 0 <= i < |before| ensures RevisedOnce(OfferedTo(Served(p, before[..i]), before[i])) {
          assert before[..i] == es[..i] && before[i] == es[i];
        }
      }
      StaysCovered(p, before);
      HandleCovered(Served(p, before), es[|es| - 1]);
    }
  }

  /** So is a script that revises nothing twice, whatever overflows in it. The reloaded
      accounts are exactly those of the history: what an overflow had left is gone. */
  lemma KillAndReloadAfterOverflows(p: Process, es: Script, fresh_: State, orders: seq<seq<u64>>)
    requires Started(p) && p.persistent && Covered(p.led.book) && Reloadable(p.led) && NeverRevisesTwice(p, es)
    requires var q := Served(p, es); q.acks != [] && |q.led.book.history| <= MAX_ENTRIES
    requires var q := Served(p, es); q.file.Some? && OrdersForImage(q.file.value, orders)
    ensures var q := Served(p, es);
            var (s, code) := LoadImage(fresh_, q.file.value, orders);
            && code == Ok && s.book == q.led.book.(accounts := s.book.accounts) && Exact(s.book)
            && HeaderOf(s.auth) == HeaderOf(q.led.auth)
            && forall i :: 0 <= i < |q.acks| ==> q.acks[i].entry in s.book.history
  {
    hide Served, Agrees, Disciplined, WellFormed, Covers, AllClosed, RevisedOnce, Replayable, Exact, Grounded, Reloadable,
         NeverRevisesTwice, SaveImage, LoadImage, Started, OrdersForImage;
    CoveredIsGrounded(p.led.book);
    StaysCovered(p, es);
    SoundParts(Served(p, es).led.book);
    RevisedOnceIsReplayable(Served(p, es).led.book.history);
    KillAndReloadIff(p, es, fresh_, orders);
  }

  /** Why the start condition matters: restart with another epoch on a history that
      holds an entry fenced by the old one, and no file saved afterwards can ever be
      loaded, although every append since was acknowledged. */
  lemma EpochChangeMakesFileUnloadable(p: Process, es: Script, i: nat, fresh_: State, orders: seq<seq<u64>>)
    requires Started(p) && p.persistent && Sound(p.led.book) && Grounded(p.led.book)
    requires i < |p.led.book.history|
    requires var e := p.led.book.history[i]; e.fences.epoch != 0 && e.fences.epoch != p.led.auth.epoch
    requires var q := Served(p, es); q.acks != [] && |q.led.book.history| <= MAX64 && NotesBelow(q.led.book.history, 0x8000_0000)
    requires var q := Served(p, es); q.file.Some? && OrdersForImage(q.file.value, orders)
    ensures LoadImage(fresh_, Served(p, es).file.value, orders).1 == PersistenceCorrupt
  {
    hide Sound, Grounded, SaveImage, LoadImage, OrdersForImage, NotesBelow, Handle, Started;
    var q := Served(p, es);
    AcknowledgedIsSaved(p, es);
    StaysSound(p, es);
    ServedExtends(p, es);
    assert !FencesCurrent(q.led.auth, q.led.book.history[i]);
    StaleFenceUnloadable(q.led, i, fresh_, orders);
  }

  lemma StaleFenceUnloadable(s: State, i: nat, into: State, orders: seq<seq<u64>>)
    requires Sound(s.book) && Grounded(s.book) && i < |s.book.history| && !FencesCurrent(s.auth, s.book.history[i])
    requires |s.book.history| <= MAX64 && NotesBelow(s.book.history, 0x8000_0000) && OrdersForImage(SaveImage(s), orders)
    ensures LoadImage(into, SaveImage(s), orders).1 == PersistenceCorrupt
  {
    hide Sound, Grounded, Replayable, NotesBelow, SaveImage, OrdersForImage, FencesCurrent, LoadHistory;
    SaveThenLoad(s, into, orders);
  }

  lemma {:induction false} ServedExtends(p: Process, es: Script)
    ensures p.led.book.history <= Served(p, es).led.book.history
  {
    hide AppendLocked, SaveImage, Carries, GetLE;
    if es != [] {
      var q, ev := Served(p, es[..|es| - 1]), es[|es| - 1];
      ServedExtends(p, es[..|es| - 1]);
      if q.running && q.conn.Open? && ev.AppendMsg? && Carries(ev.body).Some? {
        AppendExtends(q.led, Carries(ev.body).value, ev.order);
      }
    }
  }

  // ---------- many lives ----------

  const DEFAULT_LEDGER: u64 := 1

  /** A process from its start to the moment it is killed. */
  datatype Life = Life(start: Process, script: Script)

  ghost function End(l: Life): Process
  {
    Served(l.start, l.script)
  }

  function Boot(led: State, file: Option<seq<Byte>>): Process
  {
    Process(led, Idle, true, true, file, 0, {}, [])
  }

  /** `q` is started with --load on the file `p` left behind, in the same epoch. */
  ghost predicate Restarts(p: Process, q: Process)
  {
    match p.file
    case None => q == Boot(Initial(DEFAULT_LEDGER), None)
    case Some(bytes) =>
      exists orders :: OrdersForImage(bytes, orders) && q == Boot(LoadImage(Initial(DEFAULT_LEDGER), bytes, orders).0, p.file)
  }

  /** A start from which everything acknowledged is kept. */
  ghost predicate Begins(p: Process)
  {
    Started(p) && InSync(p) && Sound(p.led.book) && Grounded(p.led.book) && Reloadable(p.led)
  }

  lemma FirstStart()
    ensures Begins(Boot(Initial(DEFAULT_LEDGER), None))
  {
    EmptyBookInvariants();
  }

  ghost predicate Lives(ls: seq<Life>)
  {
    && ls != [] && Begins(ls[0].start)
    && forall i :: 0 < i < |ls| ==> Restarts(End(ls[i - 1]), ls[i].start)
  }

  /** At the kill every revision is paid for and the entries are not too many. */
  ghost predicate KilledSafely(l: Life)
  {
    Replayable(End(l).led.book.history) && |End(l).led.book.history| <= MAX_ENTRIES
  }

  lemma RestartBegins(l: Life, q: Process)
    requires Begins(l.start) && KilledSafely(l) && Restarts(End(l), q)
    ensures Begins(q) && q.led.book.history == End(l).led.book.history
  {
    hide Served, Sound, Grounded, Reloadable, SaveImage, LoadImage, OrdersForImage, Replayable, Started;
    var p := End(l);
    StaysInSync(l.start, l.script);
    StaysSound(l.start, l.script);
    StaysReloadable(l.start, l.script);
    if p.file.None? {
      FirstStart();
    } else {
      var orders :| OrdersForImage(p.file.value, orders) && q == Boot(LoadImage(Initial(DEFAULT_LEDGER), p.file.value, orders).0, p.file);
      ReloadIff(p.led, Initial(DEFAULT_LEDGER), orders);
      ReloadedBegins(p, q);
    }
  }

  lemma ReloadedBegins(p: Process, q: Process)
    requires Sound(p.led.book) && Reloadable(p.led) && p.file == Some(SaveImage(p.led))
    requires q == Boot(q.led, p.file) && Restored(p.led, Initial(DEFAULT_LEDGER), q.led)
    ensures Begins(q) && q.led.book.history == p.led.book.history
  {
    hide Agrees, Disciplined, WellFormed, Exact, Grounded, SaveImage, AllEncodable, FencesMatch;
    AccountsDoNotMatter(p.led.book, q.led.book);
    ExactIsGrounded(q.led.book);
    SameImage(p.led, q.led);
    SameHeaderSameFences(p.led.auth, q.led.auth, p.led.book.history);
  }

  /** Load, serve, kill, any number of times without an epoch change: as long as every
      kill is safe, each life starts as well as the first, and nothing acknowledged in
      any life is ever missing from the history of a later one. */
  lemma {:induction false} AcknowledgedForever(ls: seq<Life>, i: nat, j: nat)
    requires Lives(ls) && i <= j < |ls| && forall n :: 0 <= n < j ==> KilledSafely(ls[n])
    ensures Begins(ls[j].start)
    ensures End(ls[i]).led.book.history <= End(ls[j]).led.book.history
    ensures forall k :: 0 <= k < |End(ls[i]).acks| ==> End(ls[i]).acks[k].entry in End(ls[j]).led.book.history
    decreases j
  {
    hide Served, Begins, Restarts, KilledSafely;
    if j == 0 {
      AcknowledgedHere(ls[j]);
    } else {
      AcknowledgedForever(ls, if i < j then i else j - 1, j - 1);
      RestartBegins(ls[j - 1], ls[j].start);
      ServedExtends(ls[j].start, ls[j].script);
      AcknowledgedHere(ls[j]);
    }
  }

  lemma AcknowledgedHere(l: Life)
    requires Begins(l.start)
    ensures forall k :: 0 <= k < |End(l).acks| ==> End(l).acks[k].entry in End(l).led.book.history
  {
    hide Served, Sound, Grounded, Reloadable, InSync;
    AcknowledgedIsSaved(l.start, l.script);
  }
}
