/** The RadSec client's command queue on top of the registry, over whole runs. */
module RadsecQueue {
  import opened Bytes
  import opened Exchange
  import ExchangeRuns
  import Header
  import PacketBuffers
  import Attributes
  import Requests
  import Replies
  import RadsecNak
  import Responses

  type Build = byte -> Result<seq<byte>, PacketBuffers.CodecError>

  /** A queued send. It holds a clone of the lease of registration `ch`. */
  datatype Command = Command(ch: Channel, packet: seq<byte>, deadline: int)

  datatype Event =
    | Send(limit: nat, build: Build, deadline: int)
    | Enqueue(ch: Channel)
    | Cancel(ch: Channel)
    | Dequeue(now: int)
    | FinishWrite
    | Receive(frame: seq<byte>)
    | CloseRegistry
    | Stop
    | Discard

  /** The connection: the registry, the callers still waiting (each holding its receiver and a lease
      clone), the commands not yet accepted by the queue, the queue, the command being written, and
      the channels of everything put on the wire. */
  datatype Conn = Conn(reg: ExchangeRuns.World, peer: Addr, callers: set<Channel>, outbox: map<Channel, Command>,
                       queue: seq<Command>, writing: Option<Command>, wire: seq<Channel>, running: bool)

  function Init(peer: Addr): (r: Conn) {
    Conn(ExchangeRuns.INIT, peer, {}, map[], [], None, [], true)
  }

  /** The caller of a command still waits and its entry still has its sender. */
  predicate Active(q: Conn, ch: Channel) {
    ch in q.reg.live
    && var e := Lookup(q.reg.state, q.reg.live[ch]);
       e.Some? && e.value.open && e.value.channel in q.callers
  }

  /** Give up one lease clone; the lease is dropped with the last one. */
  function Release(c: Crypto, q: Conn, ch: Channel): (r: Conn) {
    if ch in q.callers || InQueue(q, ch) then q
    else q.(reg := ExchangeRuns.Step(c, q.reg, ExchangeRuns.Drop(ch)))
  }

  function Chans(commands: seq<Command>): (r: set<Channel>)
    ensures forall i :: 0 <= i < |commands| ==> commands[i].ch in r
  {
    set cmd | cmd in commands :: cmd.ch
  }

  function WritingChan(writing: Option<Command>): (r: set<Channel>) {
    match writing
    case None => {}
    case Some(cmd) => {cmd.ch}
  }

  /** The driver holds a clone of the lease, in its queue or in the command being written. */
  predicate InQueue(q: Conn, ch: Channel) {
    ch in Chans(q.queue) || ch in WritingChan(q.writing)
  }

  /** The driver's loop ends, whatever the reason. The queue is dropped command by command, and the
      registry is closed in a step of its own: until then registrations still succeed. */
  function Stopped(q: Conn): (r: Conn) {
    q.(running := false)
  }

  /** A frame from the server: an invalid header or dynamic request ends the connection, a valid
      dynamic request is answered and not delivered, anything else is delivered. */
  function Received(c: Crypto, q: Conn, frame: seq<byte>): (r: Conn) {
    match Header.Parse(frame)
    case Err(_) => Stopped(q)
    case Ok(p) =>
      if RadsecNak.NakCode(p.header.code).None? then
        q.(reg := ExchangeRuns.Step(c, q.reg, ExchangeRuns.Deliver(q.peer, frame)))
      else if RadsecNak.Answerable(c, frame, p.attrs) then q
      else Stopped(q)
  }

  function Step(c: Crypto, q: Conn, e: Event): (r: Conn)
  {
    match e
    case Send(limit, build, deadline) =>
      var reg := ExchangeRuns.Step(c, q.reg, ExchangeRuns.Register(q.peer, RadsecNak.SECRET, limit, build));
      (match Outcome(q.reg.state, q.peer, limit, build)
       case Refused(_) => q.(reg := reg)
       case Registered(_, packet) =>
         var ch := q.reg.next;
         q.(reg := reg, callers := q.callers + {ch}, outbox := q.outbox[ch := Command(ch, packet, deadline)]))
    case Enqueue(ch) =>
      if ch in q.outbox && q.running then q.(outbox := q.outbox - {ch}, queue := q.queue + [q.outbox[ch]]) else q
    case Cancel(ch) =>
      if ch in q.callers then Release(c, q.(callers := q.callers - {ch}, outbox := q.outbox - {ch}), ch) else q
    case Dequeue(now) =>
      if !q.running || q.queue == [] || q.writing.Some? then q
      else
        var cmd, rest := q.queue[0], q.(queue := q.queue[1..]);
        if Active(q, cmd.ch) && now < cmd.deadline
        then rest.(writing := Some(cmd), wire := q.wire + [cmd.ch])
        else Release(c, rest, cmd.ch)
    case FinishWrite =>
      (match q.writing
       case None => q
       case Some(cmd) => Release(c, q.(writing := None), cmd.ch))
    case Receive(frame) => if q.running && q.writing.None? then Received(c, q, frame) else q
    case CloseRegistry => q.(reg := ExchangeRuns.Step(c, q.reg, ExchangeRuns.Close))
    case Stop => Stopped(q)
    case Discard =>
      if q.running || q.queue == [] then q
      else Release(c, q.(queue := q.queue[1..]), q.queue[0].ch)
  }

  /** The request builder stamps the identifier it is given. */
  ghost predicate Stamps(e: Event) {
    e.Send? ==> forall i: byte :: e.build(i).Ok? ==> HeaderOf(e.build(i).value).identifier == i
  }

  /** Sealed requests do so. */
  lemma SealStamps(c: Crypto, code: byte, identifier: byte, attrs: seq<Attributes.Attr>, random: Digest)
    requires Replies.Fits(true, attrs)
    ensures HeaderOf(Requests.Sealed(c, code, identifier, attrs, random, RadsecNak.SECRET)).identifier == identifier
  {
  }

  /** A command belongs to the live registration whose identifier its packet carries. */
  predicate Bound(reg: ExchangeRuns.World, peer: Addr, cmd: Command) {
    cmd.ch in reg.live && reg.live[cmd.ch] == Lease(peer, HeaderOf(cmd.packet).identifier)
  }

  predicate NoDup(commands: seq<Command>) {
    forall i, j :: 0 <= i < j < |commands| ==> commands[i].ch != commands[j].ch
  }

  /** A lease is live exactly while someone holds a clone of it. */
  ghost predicate Held(q: Conn) {
    q.reg.live.Keys == q.callers + Chans(q.queue) + WritingChan(q.writing)
    && (forall ch :: ch in q.reg.live ==> ch < q.reg.next && q.reg.live[ch].peer == q.peer)
  }

  /** Every unsent command is bound to its own registration, and none is anywhere twice. */
  predicate Queued(q: Conn) {
    && (forall ch :: ch in q.outbox ==> ch in q.callers && q.outbox[ch].ch == ch && Bound(q.reg, q.peer, q.outbox[ch]))
    && (forall cmd :: cmd in q.queue ==> Bound(q.reg, q.peer, cmd))
    && (q.writing.Some? ==> Bound(q.reg, q.peer, q.writing.value))
    && NoDup(q.queue)
    && q.outbox.Keys !! Chans(q.queue) && q.outbox.Keys !! WritingChan(q.writing)
    && Chans(q.queue) !! WritingChan(q.writing)
  }

  /** What is on the wire is out of the queue for good, and was written once. */
  predicate Written(q: Conn) {
    && (forall i :: 0 <= i < |q.wire| ==>
          q.wire[i] < q.reg.next && q.wire[i] !in q.outbox && q.wire[i] !in Chans(q.queue))
    && (forall i, j :: 0 <= i < j < |q.wire| ==> q.wire[i] != q.wire[j])
  }

  ghost predicate Inv(q: Conn) {
    ExchangeRuns.Inv(q.reg) && Held(q) && Queued(q) && Written(q)
  }

  lemma ChansSnoc(commands: seq<Command>, cmd: Command)
    ensures Chans(commands + [cmd]) == Chans(commands) + {cmd.ch}
  {
  }

  lemma ChansTail(commands: seq<Command>)
    requires commands != [] && NoDup(commands)
    ensures Chans(commands[1..]) == Chans(commands) - {commands[0].ch}
    ensures NoDup(commands[1..])
    ensures forall x :: x in commands[1..] ==> x in commands
  {
  }

  /** What a registry event does to the leases. */
  lemma RegisterLeases(c: Crypto, w: ExchangeRuns.World, peer: Addr, limit: nat, build: Build)
    requires ExchangeRuns.Inv(w)
    ensures var w' := ExchangeRuns.Step(c, w, ExchangeRuns.Register(peer, RadsecNak.SECRET, limit, build));
            ExchangeRuns.Inv(w') && w.next !in w.live
            && match Outcome(w.state, peer, limit, build)
               case Refused(_) => w'.live == w.live && w'.next == w.next
               case Registered(identifier, packet) =>
                 w'.live == w.live[w.next := Lease(peer, identifier)] && w'.next == w.next + 1
  {
    ExchangeRuns.StepKeepsInv(c, w, ExchangeRuns.Register(peer, RadsecNak.SECRET, limit, build));
    ExchangeRuns.NextIsNew(w);
  }

  lemma DropLeases(c: Crypto, w: ExchangeRuns.World, ch: Channel)
    requires ExchangeRuns.Inv(w)
    ensures var w' := ExchangeRuns.Step(c, w, ExchangeRuns.Drop(ch));
            ExchangeRuns.Inv(w') && w'.live == w.live - {ch} && w'.next == w.next
  {
    hide ExchangeRuns.Inv, ExchangeRuns.Sends;
    ExchangeRuns.StepKeepsInv(c, w, ExchangeRuns.Drop(ch));
  }

  lemma QuietLeases(c: Crypto, w: ExchangeRuns.World, e: ExchangeRuns.Event)
    requires ExchangeRuns.Inv(w) && (e.Deliver? || e.Close?)
    ensures var w' := ExchangeRuns.Step(c, w, e);
            ExchangeRuns.Inv(w') && w'.live == w.live && w'.next == w.next
  {
    ExchangeRuns.StepKeepsInv(c, w, e);
  }

  /** All of the invariant but that `ch`, whose last known holder just left, may still be live. */
  ghost predicate InvExcept(q: Conn, ch: Channel) {
    && ExchangeRuns.Inv(q.reg) && Queued(q) && Written(q)
    && q.reg.live.Keys == q.callers + Chans(q.queue) + WritingChan(q.writing) + {ch}
    && (forall x :: x in q.reg.live ==> x < q.reg.next && q.reg.live[x].peer == q.peer)
  }

  lemma ReleaseRestores(c: Crypto, q: Conn, ch: Channel)
    requires InvExcept(q, ch)
    ensures Inv(Release(c, q, ch))
  {
    hide ExchangeRuns.Inv, ExchangeRuns.Step, HeaderOf, Chans;
    DropLeases(c, q.reg, ch);
    if ch !in q.callers && !InQueue(q, ch) {
      var q' := Release(c, q, ch);
      forall cmd | cmd in q'.queue
        ensures Bound(q'.reg, q'.peer, cmd)
      {
        ChansContains(q.queue, cmd);
      }
    }
  }

  lemma ChansContains(commands: seq<Command>, cmd: Command)
    requires cmd in commands
    ensures cmd.ch in Chans(commands)
  {
  }

  /** The invariant reads of the registry only the leases. */
  lemma SameLeasesKeepInv(q: Conn, reg: ExchangeRuns.World)
    requires Inv(q) && ExchangeRuns.Inv(reg) && reg.live == q.reg.live && reg.next == q.reg.next
    ensures Inv(q.(reg := reg))
  {
    hide ExchangeRuns.Inv, HeaderOf, Chans;
  }

  lemma NewSendKeepsInv(q: Conn, reg: ExchangeRuns.World, cmd: Command)
    requires Inv(q) && ExchangeRuns.Inv(reg) && cmd.ch == q.reg.next && cmd.ch !in q.reg.live
    requires reg.live == q.reg.live[cmd.ch := Lease(q.peer, HeaderOf(cmd.packet).identifier)]
    requires reg.next == q.reg.next + 1
    ensures Inv(q.(reg := reg, callers := q.callers + {cmd.ch}, outbox := q.outbox[cmd.ch := cmd]))
  {
    hide ExchangeRuns.Inv, HeaderOf, Chans;
    var q' := q.(reg := reg, callers := q.callers + {cmd.ch}, outbox := q.outbox[cmd.ch := cmd]);
    assert q'.reg.live.Keys == q.reg.live.Keys + {cmd.ch};
    assert Held(q');
    forall x | x in q.queue
      ensures Bound(reg, q.peer, x)
    {
      assert Bound(q.reg, q.peer, x);
    }
  }

  lemma SendKeepsInv(c: Crypto, q: Conn, e: Event)
    requires Inv(q) && e.Send? && Stamps(e)
    ensures Inv(Step(c, q, e))
  {
    hide ExchangeRuns.Inv, ExchangeRuns.Step, HeaderOf, Outcome, Held, Queued, Written, Stamps;
    RegisterLeases(c, q.reg, q.peer, e.limit, e.build);
    OutcomeStamped(q.reg.state, q.peer, e);
    var reg := ExchangeRuns.Step(c, q.reg, ExchangeRuns.Register(q.peer, RadsecNak.SECRET, e.limit, e.build));
    match Outcome(q.reg.state, q.peer, e.limit, e.build)
    case Refused(_) => SameLeasesKeepInv(q, reg);
    case Registered(_, packet) => NewSendKeepsInv(q, reg, Command(q.reg.next, packet, e.deadline));
  }

  lemma OutcomeStamped(st: State, peer: Addr, e: Event)
    requires e.Send? && Stamps(e)
    ensures var outcome := Outcome(st, peer, e.limit, e.build);
            outcome.Registered? ==> HeaderOf(outcome.packet).identifier == outcome.identifier
  {
  }

  lemma EnqueueKeepsInv(c: Crypto, q: Conn, e: Event)
    requires Inv(q) && e.Enqueue?
    ensures Inv(Step(c, q, e))
  {
    hide ExchangeRuns.Inv, ExchangeRuns.Step, HeaderOf, Chans;
    if e.ch in q.outbox {
      ChansSnoc(q.queue, q.outbox[e.ch]);
      forall i | 0 <= i < |q.queue|
        ensures q.queue[i].ch != e.ch
      {
        ChansContains(q.queue, q.queue[i]);
      }
    }
  }

  lemma CancelKeepsInv(c: Crypto, q: Conn, e: Event)
    requires Inv(q) && e.Cancel?
    ensures Inv(Step(c, q, e))
  {
    hide ExchangeRuns.Inv, ExchangeRuns.Step, HeaderOf, Chans;
    if e.ch in q.callers {
      ReleaseRestores(c, q.(callers := q.callers - {e.ch}, outbox := q.outbox - {e.ch}), e.ch);
    }
  }

  lemma DequeueKeepsInv(c: Crypto, q: Conn, e: Event)
    requires Inv(q) && e.Dequeue?
    ensures Inv(Step(c, q, e))
  {
    hide ExchangeRuns.Inv, ExchangeRuns.Step, HeaderOf, Chans, Active;
    if q.running && q.queue != [] && q.writing.None? {
      var cmd, rest := q.queue[0], q.(queue := q.queue[1..]);
      ChansTail(q.queue);
      ChansContains(q.queue, cmd);
      if !(Active(q, cmd.ch) && e.now < cmd.deadline) {
        ReleaseRestores(c, rest, cmd.ch);
      }
    }
  }

  lemma OthersKeepInv(c: Crypto, q: Conn, e: Event)
    requires Inv(q) && (e.FinishWrite? || e.Discard? || e.Receive? || e.CloseRegistry? || e.Stop?)
    ensures Inv(Step(c, q, e))
  {
    hide ExchangeRuns.Inv, ExchangeRuns.Step, HeaderOf, Chans, Received;
    if e.FinishWrite? {
      if q.writing.Some? {
        ReleaseRestores(c, q.(writing := None), q.writing.value.ch);
      }
    } else if e.Discard? {
      if q.queue != [] {
        ChansTail(q.queue);
        ChansContains(q.queue, q.queue[0]);
        ReleaseRestores(c, q.(queue := q.queue[1..]), q.queue[0].ch);
      }
    } else if e.Receive? {
      ReceivedKeepsInv(c, q, e.frame);
    } else if e.CloseRegistry? {
      QuietKeepsInv(c, q, ExchangeRuns.Close);
    } else {
      StoppedKeepsInv(q);
    }
  }

  lemma StoppedKeepsInv(q: Conn)
    requires Inv(q)
    ensures Inv(Stopped(q))
  {
    hide ExchangeRuns.Inv, HeaderOf, Chans;
  }

  lemma ReceivedKeepsInv(c: Crypto, q: Conn, frame: seq<byte>)
    requires Inv(q)
    ensures Inv(Received(c, q, frame))
  {
    hide Inv, ExchangeRuns.Step, Stopped;
    StoppedKeepsInv(q);
    QuietKeepsInv(c, q, ExchangeRuns.Deliver(q.peer, frame));
  }

  lemma QuietKeepsInv(c: Crypto, q: Conn, e: ExchangeRuns.Event)
    requires Inv(q) && (e.Deliver? || e.Close?)
    ensures Inv(q.(reg := ExchangeRuns.Step(c, q.reg, e)))
  {
    hide ExchangeRuns.Step, ExchangeRuns.Inv, HeaderOf, Chans;
    QuietLeases(c, q.reg, e);
    SameLeasesKeepInv(q, ExchangeRuns.Step(c, q.reg, e));
  }

  lemma StepKeepsInv(c: Crypto, q: Conn, e: Event)
    requires Inv(q) && Stamps(e)
    ensures Inv(Step(c, q, e))
  {
    hide Inv, Step;
    match e
    case Send(_, _, _) => SendKeepsInv(c, q, e);
    case Enqueue(_) => EnqueueKeepsInv(c, q, e);
    case Cancel(_) => CancelKeepsInv(c, q, e);
    case Dequeue(_) => DequeueKeepsInv(c, q, e);
    case _ => OthersKeepInv(c, q, e);
  }

  function Run(c: Crypto, peer: Addr, events: seq<Event>): (r: Conn)
    decreases |events|
  {
    if events == [] then Init(peer) else Step(c, Run(c, peer, events[..|events| - 1]), events[|events| - 1])
  }

  ghost predicate AllStamp(events: seq<Event>) {
    forall i :: 0 <= i < |events| ==> Stamps(events[i])
  }

  lemma {:induction false} RunKeepsInv(c: Crypto, peer: Addr, events: seq<Event>)
    requires AllStamp(events)
    ensures Inv(Run(c, peer, events))
    decreases |events|
  {
    if events == [] {
      ExchangeRuns.RunKeepsInv(c, []);
    } else {
      RunKeepsInv(c, peer, events[..|events| - 1]);
      StepKeepsInv(c, Run(c, peer, events[..|events| - 1]), events[|events| - 1]);
    }
  }

  /** Commands whose packet has not left yet. */
  ghost predicate Unsent(q: Conn, cmd: Command) {
    (cmd.ch in q.outbox && q.outbox[cmd.ch] == cmd) || cmd in q.queue || q.writing == Some(cmd)
  }

  /** In every reachable state an unsent command's entry is its own registration's, and the
      identifier in its packet is shared with no other unsent command and with no other entry. */
  lemma UnsentOwnsItsIdentifier(c: Crypto, peer: Addr, events: seq<Event>, cmd: Command, other: Command)
    requires AllStamp(events) && Unsent(Run(c, peer, events), cmd)
    ensures var q := Run(c, peer, events);
            var e := Lookup(q.reg.state, Lease(peer, HeaderOf(cmd.packet).identifier));
            e.Some? && e.value.channel == cmd.ch && (e.value.open <==> cmd.ch !in q.reg.done)
            && (Unsent(q, other) && other.ch != cmd.ch ==>
                  HeaderOf(other.packet).identifier != HeaderOf(cmd.packet).identifier)
  {
    RunKeepsInv(c, peer, events);
    RunPeer(c, peer, events);
    var q := Run(c, peer, events);
    hide Run;
    OwnEntry(q.reg, cmd.ch);
    if Unsent(q, other) {
      OwnEntry(q.reg, other.ch);
    }
  }

  lemma {:induction false} RunPeer(c: Crypto, peer: Addr, events: seq<Event>)
    ensures Run(c, peer, events).peer == peer
    decreases |events|
  {
    if events != [] {
      RunPeer(c, peer, events[..|events| - 1]);
    }
  }

  lemma OwnEntry(w: ExchangeRuns.World, ch: Channel)
    requires ExchangeRuns.Inv(w) && ch in w.live
    ensures var e := Lookup(w.state, w.live[ch]);
            e.Some? && e.value.channel == ch && (e.value.open <==> ch !in w.done)
            && (w.state.closed ==> !e.value.open)
  {
  }

  /** While a packet is unsent, no registration is given its identifier. */
  lemma IdentifierNotReissued(c: Crypto, peer: Addr, events: seq<Event>, cmd: Command, limit: nat, build: Build)
    requires AllStamp(events) && Unsent(Run(c, peer, events), cmd)
    ensures var outcome := Outcome(Run(c, peer, events).reg.state, peer, limit, build);
            outcome.Registered? ==> outcome.identifier != HeaderOf(cmd.packet).identifier
  {
    UnsentOwnsItsIdentifier(c, peer, events, cmd, cmd);
  }

  /** A dequeued command is written exactly when its caller still waits, nothing was sent to it yet
      and the deadline has not passed; after `close` nothing is written. */
  lemma WritesIffWanted(c: Crypto, peer: Addr, events: seq<Event>, now: int)
    requires AllStamp(events)
    requires var q := Run(c, peer, events); q.running && q.queue != [] && q.writing.None?
    ensures var q := Run(c, peer, events);
            var q' := Step(c, q, Dequeue(now));
            var cmd := q.queue[0];
            (q'.wire == q.wire + [cmd.ch] <==> cmd.ch in q.callers && cmd.ch !in q.reg.done && now < cmd.deadline)
            && (q'.wire == q.wire || q'.wire == q.wire + [cmd.ch])
            && (q.reg.state.closed ==> q'.wire == q.wire)
  {
    hide Run, ExchangeRuns.Inv, ExchangeRuns.Step, HeaderOf, Chans, Written, Held;
    RunKeepsInv(c, peer, events);
    var q := Run(c, peer, events);
    var cmd := q.queue[0];
    assert cmd in q.queue;
    OwnEntry(q.reg, cmd.ch);
    assert q.wire != q.wire + [cmd.ch];
  }

  /** Over a whole run no registration's packet is written twice. */
  lemma WrittenAtMostOnce(c: Crypto, peer: Addr, events: seq<Event>, i: nat, j: nat)
    requires AllStamp(events) && i < j < |Run(c, peer, events).wire|
    ensures Run(c, peer, events).wire[i] != Run(c, peer, events).wire[j]
  {
    RunKeepsInv(c, peer, events);
  }

  /** What was registered stays on record, with the same purpose. */
  lemma StepKeepsMade(c: Crypto, q: Conn, e: Event, ch: Channel)
    requires Inv(q) && ch in q.reg.made
    ensures var reg := Step(c, q, e).reg;
            ch in reg.made && reg.made[ch] == q.reg.made[ch]
  {
    hide ExchangeRuns.Inv, ExchangeRuns.Step, Outcome, Chans, HeaderOf, RadsecNak.Answerable, Header.Parse;
    forall x: ExchangeRuns.Event
      ensures ch in ExchangeRuns.Step(c, q.reg, x).made && ExchangeRuns.Step(c, q.reg, x).made[ch] == q.reg.made[ch]
    {
      ExchangeRuns.StepExtends(c, q.reg, x);
    }
  }

  lemma {:induction false} RunKeepsMade(c: Crypto, peer: Addr, events: seq<Event>, k: nat, ch: Channel)
    requires AllStamp(events) && k <= |events| && ch in Run(c, peer, events[..k]).reg.made
    ensures var made, made' := Run(c, peer, events[..k]).reg.made, Run(c, peer, events).reg.made;
            ch in made' && made'[ch] == made[ch]
    decreases |events|
  {
    if k == |events| {
      assert events[..k] == events;
    } else {
      hide Step, Inv;
      var before := events[..|events| - 1];
      assert before[..k] == events[..k];
      RunKeepsMade(c, peer, before, k, ch);
      RunKeepsInv(c, peer, before);
      StepKeepsMade(c, Run(c, peer, before), events[|events| - 1], ch);
    }
  }

  /** A driver that is reading completes a waiting caller exactly with the frames that verify against
      its registration: no reply is taken for a dynamic request or lost. */
  lemma ReceiveCompletes(c: Crypto, peer: Addr, events: seq<Event>, ch: Channel, frame: seq<byte>)
    requires AllStamp(events)
    requires var q := Run(c, peer, events);
             q.running && q.writing.None? && ch in q.reg.live && ch !in q.reg.done
    ensures var q := Run(c, peer, events);
            var done := Step(c, q, Receive(frame)).reg.done;
            ch in q.reg.made && q.reg.made[ch].lease.peer == peer
            && var p := q.reg.made[ch];
               var r := Responses.Accept(c, frame, p.code, p.lease.identifier, p.authenticator, p.secret);
               (ch in done <==> r.Some?) && (r.Some? ==> done[ch] == ExchangeRuns.Success(r.value))
  {
    hide Run, Queued, Written, Chans, HeaderOf, ExchangeRuns.Inv, RadsecNak.Answerable;
    RunKeepsInv(c, peer, events);
    RunPeer(c, peer, events);
    var q := Run(c, peer, events);
    MadeIsLive(q.reg, ch);
    var p := q.reg.made[ch];
    ExchangeRuns.CompletesIffVerifies(c, q.reg, ch, peer, frame);
    AcceptedIsNoRequest(c, frame, p.code, p.lease.identifier, p.authenticator, p.secret);
  }

  /** Any other frame: a bad header or an inauthentic CoA or Disconnect request ends the driver, an
      authentic one is answered and changes nothing here. */
  lemma ReceiveOtherFrames(c: Crypto, peer: Addr, events: seq<Event>, frame: seq<byte>)
    requires var q := Run(c, peer, events); q.running && q.writing.None?
    ensures var q := Run(c, peer, events);
            var q' := Step(c, q, Receive(frame));
            match Header.Parse(frame)
            case Err(_) => q' == q.(running := false)
            case Ok(p) =>
              if p.header.code != 40 && p.header.code != 43 then q'.running
              else q' == if RadsecNak.Answerable(c, frame, p.attrs) then q else q.(running := false)
  {
    hide Run, Header.Parse, RadsecNak.Answerable, ExchangeRuns.Step;
  }

  lemma MadeIsLive(w: ExchangeRuns.World, ch: Channel)
    requires ExchangeRuns.Inv(w) && ch in w.live
    ensures ch in w.made && w.made[ch].lease == w.live[ch]
  {
  }

  lemma AcceptedIsNoRequest(c: Crypto, frame: seq<byte>, code: byte, identifier: byte, auth: Digest, secret: seq<byte>)
    ensures Responses.Accept(c, frame, code, identifier, auth, secret).Some? ==>
              Header.Parse(frame).Ok? && RadsecNak.NakCode(Header.Parse(frame).value.header.code).None?
  {
  }

  /** From an idle connection a request goes out: it is queued with the packet built for its identifier
      and its deadline, and written when it is taken in time. */
  lemma SendIsWritten(c: Crypto, peer: Addr, events: seq<Event>, limit: nat, build: Build, deadline: int, now: int,
                      identifier: byte, packet: seq<byte>)
    requires AllStamp(events) && Stamps(Send(limit, build, deadline)) && now < deadline
    requires var q := Run(c, peer, events);
             q.running && q.queue == [] && q.writing.None?
             && Outcome(q.reg.state, peer, limit, build) == Registered(identifier, packet)
    ensures var q := Run(c, peer, events);
            var ch := q.reg.next;
            var sent := Step(c, q, Send(limit, build, deadline));
            var queued := Step(c, sent, Enqueue(ch));
            var written := Step(c, queued, Dequeue(now));
            ch in sent.callers && ch in sent.outbox && sent.outbox[ch] == Command(ch, packet, deadline)
            && queued.queue == [Command(ch, packet, deadline)] && ch !in queued.outbox
            && written.writing == Some(Command(ch, packet, deadline)) && written.wire == q.wire + [ch]
            && written.queue == [] && ch in written.callers
  {
    hide Run, ExchangeRuns.Inv, Held, Queued, Written, Outcome, Stamps, HeaderOf;
    var q := Run(c, peer, events);
    RunKeepsInv(c, peer, events);
    RunPeer(c, peer, events);
    SendKeepsInv(c, q, Send(limit, build, deadline));
    var sent := Step(c, q, Send(limit, build, deadline));
    FreshEntryIsOpen(c, q.reg, peer, limit, build, identifier, packet);
  }

  lemma FreshEntryIsOpen(c: Crypto, w: ExchangeRuns.World, peer: Addr, limit: nat, build: Build, identifier: byte,
                         packet: seq<byte>)
    requires Outcome(w.state, peer, limit, build) == Registered(identifier, packet)
    ensures var w' := ExchangeRuns.Step(c, w, ExchangeRuns.Register(peer, RadsecNak.SECRET, limit, build));
            w.next in w'.live && var e := Lookup(w'.state, w'.live[w.next]);
                                 e.Some? && e.value.open && e.value.channel == w.next
  {
  }

  /** Commands are taken in the order in which they were queued. */
  lemma QueueIsFifo(c: Crypto, peer: Addr, events: seq<Event>, ch: Channel, now: int)
    ensures var q := Run(c, peer, events);
            (q.running && ch in q.outbox ==>
               Step(c, q, Enqueue(ch)) == q.(outbox := q.outbox - {ch}, queue := q.queue + [q.outbox[ch]]))
            && (q.running && q.queue != [] && q.writing.None? ==>
                  var q' := Step(c, q, Dequeue(now));
                  q'.queue == q.queue[1..] && (q'.writing.None? || q'.writing == Some(q.queue[0])))
  {
    hide Run, ExchangeRuns.Step, Active;
  }

  /** A cancelled caller is gone at once. Its identifier is free again as soon as the driver holds no
      command of it either: at once if none was queued, else when that command is written or dropped. */
  lemma CancelReleases(c: Crypto, peer: Addr, events: seq<Event>, ch: Channel)
    requires AllStamp(events) && ch in Run(c, peer, events).callers
    ensures var q := Run(c, peer, events);
            var q' := Step(c, q, Cancel(ch));
            ch !in q'.callers && ch !in q'.outbox && q'.queue == q.queue && q'.writing == q.writing
            && ch in q.reg.live
            && (ch in q'.reg.live <==> InQueue(q, ch))
            && (Lookup(q'.reg.state, q.reg.live[ch]).Some? <==> InQueue(q, ch))
  {
    hide Run, HeaderOf, Chans, Queued, Written, ExchangeRuns.Inv, ExchangeRuns.Step, Lookup;
    RunKeepsInv(c, peer, events);
    var q := Run(c, peer, events);
    OwnEntry(q.reg, ch);
    DropLeases(c, q.reg, ch);
    DropFrees(c, q.reg, ch);
  }

  lemma DropFrees(c: Crypto, w: ExchangeRuns.World, ch: Channel)
    requires ch in w.live
    ensures Lookup(ExchangeRuns.Step(c, w, ExchangeRuns.Drop(ch)).state, w.live[ch]).None?
  {
    ExchangeRuns.DropLookup(w.state, w.live[ch], w.live[ch]);
  }

  /** A finished write leaves the driver free; its lease lives on only for a caller still waiting. */
  lemma FinishFrees(c: Crypto, peer: Addr, events: seq<Event>)
    requires AllStamp(events)
    ensures var q := Run(c, peer, events);
            var q' := Step(c, q, FinishWrite);
            q'.writing.None? && q'.queue == q.queue && q'.wire == q.wire && q'.callers == q.callers
            && (q.writing.Some? ==> (q.writing.value.ch in q'.reg.live <==> q.writing.value.ch in q.callers))
  {
    hide Run, HeaderOf, Chans, Written, ExchangeRuns.Inv, ExchangeRuns.Step;
    RunKeepsInv(c, peer, events);
    var q := Run(c, peer, events);
    if q.writing.Some? {
      DropLeases(c, q.reg, q.writing.value.ch);
    }
  }

  /** A stopped driver takes and reads nothing more and drops its queue in order. */
  lemma StoppedDrains(c: Crypto, peer: Addr, events: seq<Event>, now: int, frame: seq<byte>)
    ensures var q := Step(c, Run(c, peer, events), Stop);
            !q.running && Step(c, q, Dequeue(now)) == q && Step(c, q, Receive(frame)) == q
            && (q.queue != [] ==> Step(c, q, Discard).queue == q.queue[1..])
  {
    hide Run, ExchangeRuns.Step, Received;
  }

  /** Closing the registry ends every wait. */
  lemma CloseEndsWaits(c: Crypto, peer: Addr, events: seq<Event>, ch: Channel)
    requires AllStamp(events)
    ensures var q := Run(c, peer, events);
            var q' := Step(c, q, CloseRegistry);
            q'.reg.state.closed && (ch in q.reg.live ==> ch in q'.reg.done)
  {
    hide Run, ExchangeRuns.Inv, ExchangeRuns.Step, Held, Queued, Written;
    RunKeepsInv(c, peer, events);
    ClosedIsDone(c, Run(c, peer, events).reg, ch);
  }

  lemma ClosedIsDone(c: Crypto, w: ExchangeRuns.World, ch: Channel)
    requires ExchangeRuns.Inv(w)
    ensures var w' := ExchangeRuns.Step(c, w, ExchangeRuns.Close);
            w'.state.closed && (ch in w.live ==> ch in w'.done)
  {
    ExchangeRuns.OpenIffPending(w, ch);
  }
}
