/** The accept and read loops of tools/el_coordinator.cpp, driving an
    EfficiencyLedger object and proved to serve exactly the script of events that
    Coordinator.dfy reasons about. Sockets are replaced by the list of conversations:
    for each accepted connection the frames it sends before it closes. */
module CoordinatorLoop {
  import opened Bytes
  import opened Entries
  import opened Crc32c
  import opened Codec
  import opened EntryCodec
  import opened Ledger
  import opened Runs
  import opened Image
  import opened EfficiencyLedgerCode
  import opened Coordinator

  const REGISTER: u32 := 1
  const APPEND: u32 := 2
  const QUERY_DIGEST: u32 := 3
  const REVISE: u32 := 5
  const SHUTDOWN: u32 := 6

  datatype Incoming = Incoming(kind: u32, body: seq<Byte>)

  /** The event a frame is, with the hash-table order left open. */
  function EventOf(f: Incoming): Event
  {
    if f.kind == REGISTER then RegisterMsg(f.body)
    else if f.kind == APPEND || f.kind == REVISE then AppendMsg(f.body, [])
    else if f.kind == QUERY_DIGEST then QueryMsg
    else if f.kind == SHUTDOWN then ShutdownMsg
    else UnknownMsg
  }

  function Unordered(ev: Event): Event
  {
    if ev.AppendMsg? then AppendMsg(ev.body, []) else ev
  }

  /** The event is this frame, with some order. */
  ghost predicate Stands(ev: Event, f: Incoming)
  {
    ev.Valid() && Unordered(ev) == EventOf(f)
  }

  /** The events are those of a list of conversations, in order. */
  ghost predicate Arrive(es: seq<Event>, conversations: seq<seq<Incoming>>)
  {
    if conversations == [] then es == [] else
      var last := conversations[|conversations| - 1];
      var n := |es| - |last| - 2;
      && n >= 0 && Arrive(es[..n], conversations[..|conversations| - 1])
      && es[n] == Accept && Talk(es[n + 1..|es| - 1], last) && es[|es| - 1] == Disconnect
  }

  ghost predicate Talk(es: seq<Event>, frames: seq<Incoming>)
  {
    |es| == |frames| && forall i :: 0 <= i < |es| ==> Stands(es[i], frames[i])
  }

  lemma ServeOne(p: Process, es: Script, ev: Event)
    requires ev.Valid()
    ensures var next: Script := es + [ev]; Served(p, next) == Handle(Served(p, es), ev)
  {
    hide Handle, Event.Valid;
    var next := es + [ev];
    assert next[..|next| - 1] == es && next[|next| - 1] == ev;
  }

  lemma ArriveMore(es: seq<Event>, talk: seq<Event>, conversations: seq<seq<Incoming>>, n: nat)
    requires n < |conversations| && Arrive(es, conversations[..n]) && Talk(talk, conversations[n])
    ensures Arrive(es + [Accept] + talk + [Disconnect], conversations[..n + 1])
  {
    hide Talk, Stands;
    var all := es + [Accept] + talk + [Disconnect];
    var cs := conversations[..n + 1];
    assert cs[..n] == conversations[..n] && cs[n] == conversations[n];
    TalkLength(talk, conversations[n]);
    assert all[..|es|] == es && all[|es| + 1..|all| - 1] == talk;
  }

  lemma TalkLength(es: seq<Event>, frames: seq<Incoming>)
    requires Talk(es, frames)
    ensures |es| == |frames|
  {
  }

  /** The events end somewhere inside a conversation. */
  ghost predicate CutShort(es: seq<Event>, conversations: seq<seq<Incoming>>)
  {
    exists n: nat, m: nat :: n < |conversations| && m < |es| && |es| - m - 1 <= |conversations[n]|
      && Arrive(es[..m], conversations[..n]) && es[m] == Accept
      && Talk(es[m + 1..], conversations[n][..|es| - m - 1])
  }

  lemma StopHere(es: seq<Event>, talk: seq<Event>, conversations: seq<seq<Incoming>>, n: nat)
    requires n < |conversations| && Arrive(es, conversations[..n])
    requires |talk| <= |conversations[n]| && Talk(talk, conversations[n][..|talk|])
    ensures CutShort(es + [Accept] + talk, conversations)
  {
    hide Talk, Arrive;
    var all := es + [Accept] + talk;
    assert all[..|es|] == es && all[|es|] == Accept && all[|es| + 1..] == talk;
  }

  // ---------- what a frame does, by its kind ----------

  /** The ledger commits the entry. */
  ghost predicate Commits(led: State, e: Entry)
  {
    !led.auth.shuttingDown && FencesCurrent(led.auth, e) && WorkerLive(led.auth, e) && Admits(led.book, e)
  }

  /** Kinds 2 and 5: an encoded entry that the ledger commits becomes the last of the
      history, is in the file and is acknowledged; any other leaves history, file and
      acknowledgements alone, and a body that is no encoded entry everything. */
  ghost predicate AppendServed(p: Process, body: seq<Byte>, q: Process)
    requires p.conn.Open?
  {
    && q.conn == p.conn && q.running == p.running && q.led.auth == p.led.auth
    && (forall e :: Encodable(e) && body == EntryBytes(e) ==>
          if Commits(p.led, e) then
            && q.led.book.history == p.led.book.history + [e] && q.acks == p.acks + [Ack(e, p.conn.number)]
            && (p.persistent ==> q.file == Some(SaveImage(q.led)))
          else q.led.book.history == p.led.book.history && q.acks == p.acks && q.file == p.file)
    && ((forall e :: Encodable(e) ==> body != EntryBytes(e)) ==> q == p)
  }

  /** What serving a frame does to a running process with an open connection. */
  ghost predicate FrameServed(p: Process, f: Incoming, q: Process)
    requires p.conn.Open?
  {
    if f.kind == 1 && |f.body| >= 8 then
      exists boot: u64 :: U64At(f.body, 0, boot) && BootRegistered(p, boot, q)
    else if f.kind == 2 || f.kind == 5 then AppendServed(p, f.body, q)
    else if f.kind == 6 then
      && !q.running && q.conn.Idle? && q.led == p.led && q.acks == p.acks
      && (p.persistent ==> q.file == Some(SaveImage(p.led)))
    else q == p
  }

  predicate BootRegistered(p: Process, boot: u64, q: Process)
    requires p.conn.Open?
  {
    && q.led.auth == p.led.auth.(liveWorkers := p.led.auth.liveWorkers + if boot != 0 then {boot} else {})
    && q.led.book == p.led.book && q.conn == Open(p.conn.number, boot, true)
    && q.running == p.running && q.file == p.file && q.acks == p.acks
  }

  lemma CarriesIff(body: seq<Byte>, e: Entry)
    ensures Carries(body) == Some(e) <==> Encodable(e) && body == EntryBytes(e)
  {
    hide EntryBytes, Encodable, Decode;
    if Carries(body) == Some(e) {
      DecodeIsCanonical(body, 0);
      assert body[0..|body|] == body;
    }
    if Encodable(e) && body == EntryBytes(e) {
      DecodeEncoded([], e, []);
      assert [] + (EntryBytes(e) + []) == body;
    }
  }

  lemma BootOnTheWire(body: seq<Byte>)
    requires |body| >= 8
    ensures 0 <= GetLE(body[..8]) < MODULUS && U64At(body, 0, GetLE(body[..8]))
  {
    PutGet(body[..8]);
    Widths();
    LittleEndian(body[..8]);
    assert forall i :: 0 <= i < 8 ==> body[i] == body[..8][i];
  }

  lemma AppendIsServed(p: Process, ev: Event)
    requires p.running && p.conn.Open? && ev.AppendMsg? && ev.Valid()
    ensures AppendServed(p, ev.body, Handle(p, ev))
  {
    hide AppendLocked, Carries, Encodable, EntryBytes, SaveImage, Accepted, Admits, FencesCurrent, WorkerLive;
    var q := Handle(p, ev);
    AppendEvent(p, ev);
    forall e | Encodable(e) && ev.body == EntryBytes(e)
      ensures if Commits(p.led, e) then
                && q.led.book.history == p.led.book.history + [e] && q.acks == p.acks + [Ack(e, p.conn.number)]
                && (p.persistent ==> q.file == Some(SaveImage(q.led)))
              else q.led.book.history == p.led.book.history && q.acks == p.acks && q.file == p.file
    {
      CarriesIff(ev.body, e);
      AppendAccepts(p.led, e, ev.order);
      if Commits(p.led, e) {
        AcceptedHistory(p.led.book, e, q.led.book);
      } else {
        RejectionLeavesHistory(p.led, e, ev.order);
      }
    }
    if Carries(ev.body).Some? {
      CarriesIff(ev.body, Carries(ev.body).value);
    }
  }

  lemma FrameIsServed(p: Process, f: Incoming, ev: Event)
    requires p.running && p.conn.Open? && Stands(ev, f)
    ensures FrameServed(p, f, Handle(p, ev))
  {
    hide AppendLocked, Carries, SaveImage, GetLE, U64At, AppendServed, OrderFor;
    if ev.AppendMsg? {
      AppendIsServed(p, ev);
    } else if ev.RegisterMsg? && |ev.body| >= 8 {
      BootOnTheWire(ev.body);
      RegisterEvent(p, ev.body);
      assert BootRegistered(p, GetLE(ev.body[..8]), Handle(p, ev));
    }
  }

  class Server {
    const led: EfficiencyLedger
    const crc: Engine
    const persistent: bool
    var running: bool
    var connBoot: u64
    var registered: bool
    var file: Option<seq<Byte>>
    var acks: seq<Ack>
    var accepted: nat
    ghost var open: bool
    ghost var registrations: set<(nat, u64)>

    ghost predicate Valid()
      reads this, led, crc, crc.table
    {
      led.Valid() && crc.Valid() && (open ==> accepted > 0)
    }

    ghost function Conn(): Connection
      reads this
    {
      if open && accepted > 0 then Open(accepted - 1, connBoot, registered) else Idle
    }

    ghost function View(): Process
      reads this, led
    {
      Process(led.View(), Conn(), running, persistent, file, accepted, registrations, acks)
    }

    constructor (led: EfficiencyLedger, crc: Engine, persistent: bool, file: Option<seq<Byte>>)
      requires led.Valid() && crc.Valid()
      ensures Valid() && this.led == led && this.crc == crc && !open && running
      ensures View() == Process(led.View(), Idle, true, persistent, file, 0, {}, [])
    {
      this.led, this.crc, this.persistent, this.file := led, crc, persistent, file;
      running, connBoot, registered, acks, accepted, open, registrations := true, 0, false, [], 0, false, {};
    }

    method AcceptConnection()
      requires Valid() && running && !open
      modifies this
      ensures Valid() && open && running
      ensures View() == Handle(old(View()), Accept)
    {
      connBoot, registered := 0, false;
      accepted, open := accepted + 1, true;
    }

    method OnRegister(body: seq<Byte>)
      requires Valid() && running && open
      modifies this`connBoot, this`registered, this`registrations, led`liveWorkers
      ensures Valid()
      ensures View() == Handle(old(View()), RegisterMsg(body))
    {
      hide Handle, GetLE;
      ghost var p := View();
      if |body| >= 8 {
        PutGet(body[..8]);
        Widths();
        connBoot := GetLE(body[..8]);
        led.RegisterBoot(connBoot);
        registered := true;
        registrations := registrations + {(accepted - 1, connBoot)};
      }
      RegisterEvent(p, body);
    }

    method Save()
      requires Valid()
      modifies this`file, crc`built, crc.table
      ensures Valid()
      ensures View() == Saved(old(View()))
    {
      hide SaveImage;
      if persistent {
        var bytes := led.SaveToString(crc);
        file := Some(bytes);
      }
    }

    method OnAppend(body: seq<Byte>) returns (ghost ev: Event)
      requires Valid() && running && open
      modifies this`file, this`acks, led, crc`built, crc.table
      ensures Valid() && ev.Valid() && Unordered(ev) == AppendMsg(body, [])
      ensures View() == Handle(old(View()), ev)
    {
      hide Handle, HandleAppend, Carries, OrderFor;
      ev := AppendMsg(body, []);
      var e := Carried(body);
      ghost var p := View();
      if e.Some? {
        ghost var order := CommitAndSave(e.value);
        ev := AppendMsg(body, order);
      }
      AppendEvent(p, ev);
    }

    /** `append`, then a save if it was committed, then the reply. */
    method CommitAndSave(e: Entry) returns (ghost order: seq<u64>)
      requires Valid() && running && open
      modifies this`file, this`acks, led, crc`built, crc.table
      ensures Valid() && OrderFor(e, order) && open && running
      ensures View() == HandleAppend(old(View()), e, order)
    {
      hide AppendLocked, SaveImage, OrderFor;
      var code;
      code, order := led.AppendEntry(e);
      if code == Ok {
        Save();
        acks := acks + [Ack(e, accepted - 1)];
      }
    }

    method OnShutdown()
      requires Valid() && running && open
      modifies this`file, this`running, this`open, crc`built, crc.table
      ensures Valid() && !running && !open
      ensures View() == Handle(old(View()), ShutdownMsg)
    {
      hide SaveImage;
      Save();
      running, open := false, false;
    }

    method OnClose()
      requires Valid() && running && open
      modifies this`open, led`liveWorkers
      ensures Valid() && !open
      ensures View() == Handle(old(View()), Disconnect)
    {
      if registered && connBoot != 0 {
        led.UnregisterBoot(connBoot);
      }
      open := false;
    }

    /** One turn of the read loop. */
    method OnFrame(f: Incoming) returns (ghost ev: Event)
      requires Valid() && running && open
      modifies this, led, crc`built, crc.table
      ensures Valid() && Stands(ev, f) && running == open
      ensures View() == Handle(old(View()), ev)
      ensures old(View()).conn.Open? && FrameServed(old(View()), f, View())
    {
      hide Handle, OrderFor, Carries, FrameServed;
      ghost var p := View();
      ev := EventOf(f);
      if f.kind == REGISTER {
        OnRegister(f.body);
      } else if f.kind == APPEND || f.kind == REVISE {
        ev := OnAppend(f.body);
      } else if f.kind == SHUTDOWN {
        OnShutdown();
      } else {
        Ignored(View(), ev);
      }
      FrameIsServed(p, f, ev);
    }

    /** One connection: read frames until the peer closes or a shutdown arrives. */
    method Converse(frames: seq<Incoming>, ghost before: Script, ghost start: Process) returns (ghost after: Script, ghost talk: seq<Event>)
      requires Valid() && running && open && View() == Served(start, before)
      modifies this, led, crc`built, crc.table
      ensures Valid() && !open && View() == Served(start, after)
      ensures running ==> Talk(talk, frames) && after == before + talk + [Disconnect]
      ensures !running ==> |talk| <= |frames| && Talk(talk, frames[..|talk|]) && after == before + talk
    {
      hide Handle, Stands;
      after, talk := before, [];
      var i := 0;
      while i < |frames|
        invariant 0 <= i <= |frames| && Valid() && running && open
        invariant View() == Served(start, after) && after == before + talk && Talk(talk, frames[..i])
      {
        ghost var ev := OnFrame(frames[i]);
        StandsValid(ev, frames[i]);
        ServeOne(start, after, ev);
        after, talk := after + [ev], talk + [ev];
        assert Talk(talk, frames[..i + 1]);
        if !running {
          return;
        }
        i := i + 1;
      }
      assert frames[..|frames|] == frames;
      OnClose();
      ServeOne(start, after, Disconnect);
      after := after + [Disconnect];
    }

    /** The whole process, from the first accept to the final save. Its ledger, its
        file and its acknowledgements are those of the script it served; that script
        is all the conversations in order, up to the shutdown message if there is one. */
    method Serve(conversations: seq<seq<Incoming>>) returns (ghost script: Script)
      requires Valid() && running && !open
      modifies this, led, crc`built, crc.table
      ensures Valid() && !open
      ensures View() == Saved(Served(old(View()), script))
      ensures if running then Arrive(script, conversations) else CutShort(script, conversations)
    {
      hide Handle, Talk, SaveImage;
      ghost var start := View();
      script := [];
      var n := 0;
      assert conversations[..0] == [];
      while n < |conversations| && running
        invariant 0 <= n <= |conversations| && Valid() && !open
        invariant View() == Served(start, script)
        invariant if running then Arrive(script, conversations[..n]) else CutShort(script, conversations)
      {
        AcceptConnection();
        ServeOne(start, script, Accept);
        ghost var before := script + [Accept];
        ghost var talk;
        ghost var after;
        after, talk := Converse(conversations[n], before, start);
        if running {
          ArriveMore(script, talk, conversations, n);
          assert after == script + [Accept] + talk + [Disconnect];
        } else {
          StopHere(script, talk, conversations, n);
        }
        script := after;
        n := n + 1;
      }
      assert conversations[..|conversations|] == conversations;
      Save();
    }
  }

  /** The ledger a process starts on: what loading the file gives, in the epoch asked for. */
  ghost function StartedOn(file: Option<seq<Byte>>, epoch: u64, orders: seq<seq<u64>>): State
    requires file.Some? ==> OrdersForImage(file.value, orders)
  {
    var led := if file.None? then Initial(DEFAULT_LEDGER) else LoadImage(Initial(DEFAULT_LEDGER), file.value, orders).0;
    if epoch == 0 then led else led.(auth := Governed(led.auth, SetEpoch(epoch)))
  }

  /** Start-up with a path and --load: load what is there, whatever becomes of it, then
      set the epoch if one is given. The process is ready to serve. */
  method StartUp(crc: Engine, file: Option<seq<Byte>>, epoch: u64) returns (server: Server, ghost orders: seq<seq<u64>>)
    requires crc.Valid()
    modifies crc`built, crc.table
    ensures fresh(server) && fresh(server.led) && server.crc == crc
    ensures server.Valid() && server.running && !server.open
    ensures file.Some? ==> OrdersForImage(file.value, orders)
    ensures server.View() == Boot(StartedOn(file, epoch, orders), file)
    ensures file.None? ==> server.led.ledgerId == 1 && server.led.history == [] && server.led.epoch == if epoch == 0 then 1 else epoch
  {
    hide LoadImage, OrdersForImage;
    var led := new EfficiencyLedger(DEFAULT_LEDGER);
    orders := [];
    if file.Some? {
      var code;
      code, orders := led.LoadFromString(crc, file.value);
    }
    if epoch != 0 {
      led.StartEpoch(epoch);
    }
    server := new Server(led, crc, true, file);
  }

  /** Without another epoch, start-up is the restart that Coordinator.dfy reasons about. */
  lemma StartUpRestarts(p: Process, orders: seq<seq<u64>>)
    requires p.file.Some? ==> OrdersForImage(p.file.value, orders)
    ensures Restarts(p, Boot(StartedOn(p.file, 0, orders), p.file))
  {
    hide LoadImage, OrdersForImage;
  }

  /** `decode_entry_bytes` with nothing left over. */
  method Carried(body: seq<Byte>) returns (e: Option<Entry>)
    ensures e == Carries(body)
  {
    hide Decode;
    CleanTarget(BLANK);
    var good, entry, end := DecodeEntry(body, 0, BLANK);
    e := if good && end == |body| then Some(entry) else None;
  }

  lemma RegisterEvent(p: Process, body: seq<Byte>)
    requires p.running && p.conn.Open?
    ensures Handle(p, RegisterMsg(body)) == if |body| < 8 then p else RegisterBody(p, body)
  {
    hide GetLE;
  }

  lemma AppendEvent(p: Process, ev: Event)
    requires p.running && p.conn.Open? && ev.AppendMsg? && ev.Valid()
    ensures Handle(p, ev) == if Carries(ev.body).None? then p else HandleAppend(p, Carries(ev.body).value, ev.order)
  {
    hide Carries, HandleAppend, OrderFor;
  }

  lemma StandsValid(ev: Event, f: Incoming)
    requires Stands(ev, f)
    ensures ev.Valid()
  {
  }

  lemma Ignored(p: Process, ev: Event)
    requires ev.QueryMsg? || ev.UnknownMsg?
    ensures Handle(p, ev) == p
  {
  }
}
