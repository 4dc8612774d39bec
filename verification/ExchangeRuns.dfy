/** Whole runs of the registry: every interleaving of registrations, deliveries, close and lease
    drops. */
module ExchangeRuns {
  import opened Bytes
  import opened Header
  import opened Exchange
  import PacketBuffers
  import Responses

  /** What a registration was made for. */
  datatype Purpose = Purpose(lease: Lease, code: byte, authenticator: Digest, secret: seq<byte>)

  datatype Completion = Success(response: Responses.Response) | Shut

  datatype Event =
    | Register(peer: Addr, secret: seq<byte>, limit: nat, build: byte -> Result<seq<byte>, PacketBuffers.CodecError>)
    | Deliver(from: Addr, packet: seq<byte>)
    | Close
    | Drop(ch: Channel)

  /** The registry, the leases still held, every registration ever made, and every value ever sent
      on a registration's channel. */
  datatype World = World(state: State, live: map<Channel, Lease>, made: map<Channel, Purpose>,
                         done: map<Channel, Completion>, next: Channel)

  const INIT := World(State(map[], false), map[], map[], map[], 0)

  function ShutAll(channels: set<Channel>): (r: map<Channel, Completion>)
    ensures r.Keys == channels
  {
    map ch | ch in channels :: Shut
  }

  /** The values one event sends. */
  function Sends(c: Crypto, w: World, e: Event): (r: map<Channel, Completion>)
  {
    match e
    case Deliver(from, packet) =>
      (match Delivered(c, w.state, from, packet)
       case Some((ch, response)) => map[ch := Success(response)]
       case None => map[])
    case Close => ShutAll(OpenSenders(w.state))
    case _ => map[]
  }

  function Step(c: Crypto, w: World, e: Event): (r: World)
  {
    var done := w.done + Sends(c, w, e);
    match e
    case Register(peer, secret, limit, build) =>
      var outcome := Outcome(w.state, peer, limit, build);
      var state := AfterRegister(w.state, peer, secret, outcome, w.next);
      (match outcome
       case Refused(_) => w.(state := state)
       case Registered(identifier, packet) =>
         var h := HeaderOf(packet);
         var l := Lease(peer, identifier);
         World(state, w.live[w.next := l], w.made[w.next := Purpose(l, h.code, h.authenticator, secret)],
               w.done, w.next + 1))
    case Deliver(from, packet) => w.(state := AfterDeliver(c, w.state, from, packet), done := done)
    case Close => w.(state := AfterClose(w.state), done := done)
    case Drop(ch) =>
      if ch in w.live then w.(state := AfterDrop(w.state, w.live[ch]), live := w.live - {ch}) else w
  }

  function Run(c: Crypto, w: World, events: seq<Event>): (r: World)
    decreases |events|
  {
    if events == [] then w else Step(c, Run(c, w, events[..|events| - 1]), events[|events| - 1])
  }

  /** All entries of the registry, by peer and identifier. */
  function Entries(st: State): (r: map<Lease, Pending>)
    ensures forall l :: l in r <==> Lookup(st, l).Some?
    ensures forall l :: l in r ==> r[l] == Lookup(st, l).value
  {
    map a, i | a in st.peers && i in st.peers[a].pending :: Lease(a, i) := st.peers[a].pending[i]
  }

  /** The entry a registration made. */
  function EntryOf(p: Purpose, ch: Channel, open: bool): (r: Pending) {
    Pending(ch, open, p.code, p.authenticator, p.secret)
  }

  /** The world with the registry flattened to its entries. */
  datatype Book = Book(entries: map<Lease, Pending>, closed: bool, live: map<Channel, Lease>,
                       made: map<Channel, Purpose>, done: map<Channel, Completion>, next: Channel)

  function BookOf(w: World): (r: Book) {
    Book(Entries(w.state), w.state.closed, w.live, w.made, w.done, w.next)
  }

  ghost predicate Numbered(b: Book) {
    (forall ch :: ch in b.made <==> 0 <= ch < b.next)
    && (forall ch :: ch in b.live ==> ch in b.made) && (forall ch :: ch in b.done ==> ch in b.made)
  }

  /** The entry of a live lease is the one its own registration made, and it has its sender until
      something is sent. */
  predicate Owned(b: Book) {
    forall ch :: ch in b.live ==>
      ch in b.made && b.made[ch].lease == b.live[ch]
      && b.live[ch] in b.entries && b.entries[b.live[ch]] == EntryOf(b.made[ch], ch, ch !in b.done)
  }

  /** Every entry belongs to a live lease. */
  predicate NoOrphans(b: Book) {
    forall l :: l in b.entries ==> b.entries[l].channel in b.live && b.live[b.entries[l].channel] == l
  }

  /** Once closed, no entry has a sender. */
  predicate Silent(b: Book) {
    b.closed ==> forall l :: l in b.entries ==> !b.entries[l].open
  }

  /** Live leases and entries correspond one to one, and each entry is its own registration's. */
  ghost predicate BookInv(b: Book) {
    Numbered(b) && Owned(b) && NoOrphans(b) && Silent(b)
  }

  ghost predicate Inv(w: World) {
    BookInv(BookOf(w))
  }

  lemma FillKeepsInv(b: Book, p: Purpose)
    requires BookInv(b) && p.lease !in b.entries && !b.closed
    ensures BookInv(b.(entries := b.entries[p.lease := EntryOf(p, b.next, true)], live := b.live[b.next := p.lease],
                       made := b.made[b.next := p], next := b.next + 1))
  {
  }

  lemma TakeKeepsInv(b: Book, ch: Channel, result: Completion)
    requires BookInv(b) && ch in b.live
    ensures BookInv(b.(entries := b.entries[b.live[ch] := b.entries[b.live[ch]].(open := false)],
                       done := b.done[ch := result]))
  {
  }

  lemma SilenceKeepsInv(b: Book, shut: set<Channel>)
    requires BookInv(b)
    requires forall ch :: ch in shut ==> ch in b.made
    requires forall ch :: ch in b.live ==> ch in b.done || ch in shut
    ensures BookInv(b.(entries := map l | l in b.entries :: b.entries[l].(open := false), closed := true,
                       done := b.done + ShutAll(shut)))
  {
  }

  lemma DropKeepsInv(b: Book, gone: Channel)
    requires BookInv(b) && gone in b.live
    ensures BookInv(b.(entries := b.entries - {b.live[gone]}, live := b.live - {gone}))
  {
  }

  /** What a successful completion carries. */
  ghost predicate Verified(c: Crypto, p: Purpose, response: Responses.Response) {
    exists packet ::
      Responses.Accept(c, packet, p.code, p.lease.identifier, p.authenticator, p.secret) == Some(response)
  }

  ghost predicate DoneVerified(c: Crypto, w: World) {
    forall ch :: ch in w.done && w.done[ch].Success? ==> ch in w.made && Verified(c, w.made[ch], w.done[ch].response)
  }

  lemma OpenSendersAreEntries(st: State, ch: Channel)
    ensures ch in OpenSenders(st)
            <==> exists l :: l in Entries(st) && Entries(st)[l].open && Entries(st)[l].channel == ch
  {
    if ch in OpenSenders(st) {
      var a :| a in st.peers && ch in PeerSenders(st.peers[a]);
      var i :| i in st.peers[a].pending && st.peers[a].pending[i].open && st.peers[a].pending[i].channel == ch;
      assert Lease(a, i) in Entries(st);
    }
    forall l | l in Entries(st) && Entries(st)[l].open && Entries(st)[l].channel == ch
      ensures ch in OpenSenders(st)
    {
      assert l.identifier in st.peers[l.peer].pending;
      assert ch in PeerSenders(st.peers[l.peer]);
    }
  }

  /** The open senders are those of the live registrations that nothing was sent to. */
  lemma OpenIffPending(w: World, ch: Channel)
    requires Inv(w)
    ensures ch in OpenSenders(w.state) <==> ch in w.live && ch !in w.done
  {
    OpenSendersAreEntries(w.state, ch);
  }

  /** Nothing is ever sent twice on a channel, and only on the channel of a live registration. */
  lemma SendsAreFirst(c: Crypto, w: World, e: Event)
    requires Inv(w)
    ensures Sends(c, w, e).Keys !! w.done.Keys && Sends(c, w, e).Keys <= w.live.Keys
  {
    forall ch | ch in Sends(c, w, e)
      ensures ch !in w.done && ch in w.live
    {
      if e.Deliver? {
        var l := Lease(e.from, Parse(e.packet).value.header.identifier);
        assert l in Entries(w.state);
      } else {
        OpenIffPending(w, ch);
      }
    }
  }

  /** The registry with one entry written and the peer's cursor set. */
  function Written(st: State, l: Lease, cursor: byte, e: Pending): (r: State)
    ensures r.closed == st.closed
  {
    st.(peers := st.peers[l.peer := Peer(cursor, TargetOf(st, l.peer).pending[l.identifier := e])])
  }

  lemma WrittenEntries(st: State, l0: Lease, cursor: byte, e: Pending)
    ensures Entries(Written(st, l0, cursor, e)) == Entries(st)[l0 := e]
  {
    hide Entries, Lookup, Written;
    forall l
      ensures Lookup(Written(st, l0, cursor, e), l) == if l == l0 then Some(e) else Lookup(st, l)
    {
      WrittenLookup(st, l0, cursor, e, l);
    }
  }

  lemma WrittenLookup(st: State, l0: Lease, cursor: byte, e: Pending, l: Lease)
    ensures Lookup(Written(st, l0, cursor, e), l) == if l == l0 then Some(e) else Lookup(st, l)
  {
  }

  lemma TouchedEntries(st: State, peer: Addr)
    ensures Entries(st.(peers := st.peers[peer := TargetOf(st, peer)])) == Entries(st)
  {
    var st' := st.(peers := st.peers[peer := TargetOf(st, peer)]);
    assert forall l :: Lookup(st', l) == Lookup(st, l);
    hide Lookup, TargetOf;
  }

  lemma CloseEntries(st: State)
    ensures Entries(AfterClose(st)) == map l | l in Entries(st) :: Entries(st)[l].(open := false)
  {
  }

  lemma DropEntries(st: State, l: Lease)
    ensures Entries(AfterDrop(st, l)) == Entries(st) - {l}
  {
    var st' := AfterDrop(st, l);
    forall m
      ensures Lookup(st', m) == if m == l then None else Lookup(st, m)
    {
      DropLookup(st, l, m);
    }
    hide Lookup, AfterDrop;
  }

  lemma DropLookup(st: State, l: Lease, m: Lease)
    ensures Lookup(AfterDrop(st, l), m) == if m == l then None else Lookup(st, m)
  {
  }

  lemma InvTouch(w: World, peer: Addr)
    requires Inv(w)
    ensures Inv(w.(state := w.state.(peers := w.state.peers[peer := TargetOf(w.state, peer)])))
  {
    TouchedEntries(w.state, peer);
    hide Entries, BookInv, TargetOf;
    assert BookOf(w.(state := w.state.(peers := w.state.peers[peer := TargetOf(w.state, peer)]))) == BookOf(w);
  }

  lemma InvFill(w: World, p: Purpose, cursor: byte)
    requires Inv(w) && Lookup(w.state, p.lease).None? && !w.state.closed
    ensures Inv(World(Written(w.state, p.lease, cursor, EntryOf(p, w.next, true)), w.live[w.next := p.lease],
                      w.made[w.next := p], w.done, w.next + 1))
  {
    WrittenEntries(w.state, p.lease, cursor, EntryOf(p, w.next, true));
    assert p.lease !in Entries(w.state);
    hide Entries, BookInv, Lookup, Written, EntryOf;
    var b := BookOf(w);
    FillKeepsInv(b, p);
    assert BookOf(World(Written(w.state, p.lease, cursor, EntryOf(p, w.next, true)), w.live[w.next := p.lease],
                        w.made[w.next := p], w.done, w.next + 1))
        == b.(entries := b.entries[p.lease := EntryOf(p, b.next, true)], live := b.live[b.next := p.lease],
              made := b.made[b.next := p], next := b.next + 1) by {
      assert Written(w.state, p.lease, cursor, EntryOf(p, w.next, true)).closed == w.state.closed;
    }
  }

  lemma InvTake(w: World, l: Lease, ch: Channel, result: Completion)
    requires Inv(w) && l in Entries(w.state) && Entries(w.state)[l].channel == ch
    ensures Inv(w.(state := TakeSender(w.state, l), done := w.done[ch := result]))
  {
    var e := Entries(w.state)[l].(open := false);
    assert TakeSender(w.state, l) == Written(w.state, l, w.state.peers[l.peer].nextIdentifier, e);
    WrittenEntries(w.state, l, w.state.peers[l.peer].nextIdentifier, e);
    TakeKeepsInv(BookOf(w), ch, result);
    hide Entries, BookInv, Written;
  }

  lemma InvClose(w: World)
    requires Inv(w)
    ensures Inv(w.(state := AfterClose(w.state), done := w.done + ShutAll(OpenSenders(w.state))))
  {
    var shut := OpenSenders(w.state);
    forall ch | ch in shut
      ensures ch in w.made
    {
      OpenIffPending(w, ch);
    }
    forall ch | ch in w.live
      ensures ch in w.done || ch in shut
    {
      OpenIffPending(w, ch);
    }
    CloseEntries(w.state);
    SilenceKeepsInv(BookOf(w), shut);
    hide Entries, BookInv, OpenSenders;
  }

  lemma InvDrop(w: World, gone: Channel)
    requires Inv(w) && gone in w.live
    ensures Inv(w.(state := AfterDrop(w.state, w.live[gone]), live := w.live - {gone}))
  {
    DropEntries(w.state, w.live[gone]);
    DropKeepsInv(BookOf(w), gone);
    hide Entries, BookInv;
  }

  lemma InvRegister(c: Crypto, w: World, e: Event)
    requires Inv(w) && e.Register?
    ensures Inv(Step(c, w, e))
  {
    hide Inv, Sends;
    match Outcome(w.state, e.peer, e.limit, e.build)
    case Refused(_) => InvTouch(w, e.peer);
    case Registered(identifier, packet) =>
      var h := HeaderOf(packet);
      var p := Purpose(Lease(e.peer, identifier), h.code, h.authenticator, e.secret);
      InvFill(w, p, WrappingAdd(identifier, 1));
  }

  lemma InvDeliver(c: Crypto, w: World, e: Event)
    requires Inv(w) && e.Deliver?
    ensures Inv(Step(c, w, e))
  {
    hide Inv;
    match Delivered(c, w.state, e.from, e.packet)
    case None =>
      assert w.done + map[] == w.done;
    case Some((ch, response)) =>
      InvTake(w, Lease(e.from, Parse(e.packet).value.header.identifier), ch, Success(response));
      assert w.done + map[ch := Success(response)] == w.done[ch := Success(response)];
  }

  /** Every event keeps the correspondence between live leases and entries. */
  lemma StepKeepsInv(c: Crypto, w: World, e: Event)
    requires Inv(w)
    ensures Inv(Step(c, w, e))
  {
    hide Inv;
    match e
    case Register(_, _, _, _) => InvRegister(c, w, e);
    case Deliver(_, _) => InvDeliver(c, w, e);
    case Close => InvClose(w);
    case Drop(ch) =>
      if ch in w.live {
        InvDrop(w, ch);
      }
  }

  /** How one event changes the bookkeeping beside the registry. */
  lemma StepShape(c: Crypto, w: World, e: Event)
    ensures var w' := Step(c, w, e);
            w'.done == w.done + Sends(c, w, e)
            && (w'.made == w.made
                || (!w.state.closed && w.next in w'.made && w'.made == w.made[w.next := w'.made[w.next]]))
            && (w.state.closed ==> w'.state.closed)
  {
    hide AfterDeliver, Delivered, OpenSenders, HeaderOf;
    if e.Register? || e.Drop? {
      assert w.done + Sends(c, w, e) == w.done;
    }
    if e.Deliver? {
      DeliverKeepsClosed(c, w.state, e.from, e.packet);
    }
  }

  lemma DeliverKeepsClosed(c: Crypto, st: State, from: Addr, packet: seq<byte>)
    ensures AfterDeliver(c, st, from, packet).closed == st.closed
  {
  }

  lemma NextIsNew(w: World)
    requires Inv(w)
    ensures w.next !in w.made
  {
  }

  /** A delivered response was verified against the registration whose channel it is sent on. */
  lemma SendsAreVerified(c: Crypto, w: World, e: Event, ch: Channel)
    requires Inv(w) && ch in Sends(c, w, e) && Sends(c, w, e)[ch].Success?
    ensures ch in w.made && Verified(c, w.made[ch], Sends(c, w, e)[ch].response)
  {
  }

  /** A completion carries a response that was verified against its own registration. */
  lemma StepKeepsVerified(c: Crypto, w: World, e: Event)
    requires Inv(w) && DoneVerified(c, w)
    ensures DoneVerified(c, Step(c, w, e))
  {
    hide Step, Sends, Verified, Inv;
    var w' := Step(c, w, e);
    StepShape(c, w, e);
    NextIsNew(w);
    forall ch | ch in w'.done && w'.done[ch].Success?
      ensures ch in w'.made && Verified(c, w'.made[ch], w'.done[ch].response)
    {
      if ch in Sends(c, w, e) {
        SendsAreVerified(c, w, e, ch);
      }
    }
  }

  /** Every reachable state satisfies the invariant, and every completion so far was verified. */
  lemma {:induction false} RunKeepsInv(c: Crypto, events: seq<Event>)
    ensures Inv(Run(c, INIT, events)) && DoneVerified(c, Run(c, INIT, events))
    decreases |events|
  {
    if events != [] {
      var before := events[..|events| - 1];
      RunKeepsInv(c, before);
      StepKeepsInv(c, Run(c, INIT, before), events[|events| - 1]);
      StepKeepsVerified(c, Run(c, INIT, before), events[|events| - 1]);
    }
  }

  /** The registration a packet completes: it answers the one that waits at its source for its
      identifier, if it verifies against it. */
  lemma CompletesIffVerifies(c: Crypto, w: World, ch: Channel, from: Addr, packet: seq<byte>)
    requires Inv(w) && ch in w.live && ch !in w.done
    ensures ch in w.made
            && var p := w.made[ch];
               var r := Responses.Accept(c, packet, p.code, p.lease.identifier, p.authenticator, p.secret);
               Delivered(c, w.state, from, packet)
               == if from == p.lease.peer && r.Some? then Some((ch, r.value))
                  else if Delivered(c, w.state, from, packet).Some? && Delivered(c, w.state, from, packet).value.0 != ch
                  then Delivered(c, w.state, from, packet) else None
  {
  }

  /** In every reachable state a packet completes a waiting registration exactly when it comes from
      the registration's peer and verifies against the registration; then it completes no other. */
  lemma GenuineReplyCompletes(c: Crypto, events: seq<Event>, ch: Channel, from: Addr, packet: seq<byte>)
    requires var w := Run(c, INIT, events); ch in w.live && ch !in w.done
    ensures var w := Run(c, INIT, events);
            var sends := Sends(c, w, Deliver(from, packet));
            ch in w.made
            && var p := w.made[ch];
               var r := Responses.Accept(c, packet, p.code, p.lease.identifier, p.authenticator, p.secret);
               (ch in sends <==> from == p.lease.peer && r.Some?)
               && (ch in sends ==> sends == map[ch := Success(r.value)])
  {
    hide Responses.Accept, Delivered, Inv, Run;
    RunKeepsInv(c, events);
    CompletesIffVerifies(c, Run(c, INIT, events), ch, from, packet);
  }

  lemma StepExtends(c: Crypto, w: World, e: Event)
    requires Inv(w)
    ensures var w' := Step(c, w, e);
            (w.state.closed ==> w'.state.closed && w'.made == w.made)
            && (forall ch :: ch in w.done ==> ch in w'.done && w'.done[ch] == w.done[ch])
            && (forall ch :: ch in w.made ==> ch in w'.made && w'.made[ch] == w.made[ch])
  {
    hide Step, Sends, Inv;
    SendsAreFirst(c, w, e);
    StepShape(c, w, e);
    NextIsNew(w);
  }

  /** Over any continuation of any run, what was completed stays completed with the same value, and
      after `close` no registration is ever made again. */
  lemma {:induction false} CompletionsAreFinal(c: Crypto, events: seq<Event>, k: nat)
    requires k <= |events|
    ensures var w, w' := Run(c, INIT, events[..k]), Run(c, INIT, events);
            (forall ch :: ch in w.done ==> ch in w'.done && w'.done[ch] == w.done[ch])
            && (forall ch :: ch in w.made ==> ch in w'.made && w'.made[ch] == w.made[ch])
            && (w.state.closed ==> w'.state.closed && w'.made == w.made && OpenSenders(w'.state) == {})
    decreases |events|
  {
    RunKeepsInv(c, events);
    var w' := Run(c, INIT, events);
    if w'.state.closed {
      forall ch
        ensures ch !in OpenSenders(w'.state)
      {
        OpenSendersAreEntries(w'.state, ch);
      }
    }
    if k == |events| {
      assert events[..k] == events;
    } else {
      var before := events[..|events| - 1];
      assert before[..k] == events[..k];
      CompletionsAreFinal(c, before, k);
      RunKeepsInv(c, before);
      StepExtends(c, Run(c, INIT, before), events[|events| - 1]);
    }
  }

  /** Closing completes every exchange still waiting, with the closed error, and no other. */
  lemma CloseCompletesAll(c: Crypto, events: seq<Event>, ch: Channel)
    ensures var w := Run(c, INIT, events);
            var w' := Step(c, w, Close);
            w'.state.closed && w'.live == w.live
            && (ch in w.live && ch !in w.done ==> ch in w'.done && w'.done[ch] == Shut)
            && (ch in w'.done && ch !in w.done ==> ch in w.live)
  {
    hide Run, Inv, OpenSenders;
    RunKeepsInv(c, events);
    OpenIffPending(Run(c, INIT, events), ch);
  }

  /** In a reachable state two live exchanges never share a peer and identifier, and dropping one
      removes its own entry and no other. */
  lemma LeasesAreExclusive(c: Crypto, events: seq<Event>, x: Channel, y: Channel)
    requires x in Run(c, INIT, events).live && y in Run(c, INIT, events).live && x != y
    ensures var w := Run(c, INIT, events);
            var after := Step(c, w, Drop(x)).state;
            w.live[x] != w.live[y]
            && Lookup(w.state, w.live[x]).Some? && Lookup(after, w.live[x]).None?
            && Lookup(w.state, w.live[y]).Some? && Lookup(after, w.live[y]) == Lookup(w.state, w.live[y])
  {
    RunKeepsInv(c, events);
    var w := Run(c, INIT, events);
    DropLookup(w.state, w.live[x], w.live[x]);
    DropLookup(w.state, w.live[x], w.live[y]);
  }

  /** Every entry of a reachable registry is held by exactly one live lease. */
  lemma EntriesAreLeased(c: Crypto, events: seq<Event>, l: Lease)
    requires Lookup(Run(c, INIT, events).state, l).Some?
    ensures var w := Run(c, INIT, events);
            exists ch :: ch in w.live && w.live[ch] == l && forall x :: x in w.live && w.live[x] == l ==> x == ch
  {
    RunKeepsInv(c, events);
    var w := Run(c, INIT, events);
    var ch := Entries(w.state)[l].channel;
    assert ch in w.live && w.live[ch] == l;
  }

  lemma {:induction false} BytesAreBounded(s: set<byte>, n: nat)
    requires n <= 256 && forall b :: b in s ==> b < n
    ensures |s| <= n
  {
    if n == 0 {
      assert s == {};
    } else {
      BytesAreBounded(s - {n - 1}, n - 1);
      if n - 1 in s {
        assert |s| == |s - {n - 1}| + 1;
      } else {
        assert s - {n - 1} == s;
      }
    }
  }

  /** All registrations of the run use at most this limit. */
  predicate LimitedBy(events: seq<Event>, limit: nat) {
    forall i :: 0 <= i < |events| && events[i].Register? ==> events[i].limit <= limit
  }

  /** With a fixed limit, no peer ever has more entries than the limit, nor more than 256. */
  lemma {:induction false} InFlightIsLimited(c: Crypto, events: seq<Event>, limit: nat, peer: Addr)
    requires LimitedBy(events, limit)
    ensures var n := |TargetOf(Run(c, INIT, events).state, peer).pending|; n <= limit && n <= 256
    decreases |events|
  {
    var w := Run(c, INIT, events);
    BytesAreBounded(TargetOf(w.state, peer).pending.Keys, 256);
    if events != [] {
      var before, e := events[..|events| - 1], events[|events| - 1];
      assert forall i :: 0 <= i < |before| ==> before[i] == events[i];
      InFlightIsLimited(c, before, limit, peer);
      PendingGrowth(c, Run(c, INIT, before), e, peer);
    }
  }

  /** Only a registration adds an entry, and only below its limit. */
  lemma PendingGrowth(c: Crypto, w: World, e: Event, peer: Addr)
    ensures var n, n' := |TargetOf(w.state, peer).pending|, |TargetOf(Step(c, w, e).state, peer).pending|;
            n' <= n || (e.Register? && n < e.limit && n' == n + 1)
  {
    hide Sends;
    match e
    case Register(_, _, _, _) => RegisterGrowth(w.state, e, w.next, peer);
    case Deliver(from, packet) => DeliverGrowth(c, w.state, from, packet, peer);
    case Close => CloseGrowth(w.state, peer);
    case Drop(ch) =>
      if ch in w.live {
        var before, after := TargetOf(w.state, peer), TargetOf(AfterDrop(w.state, w.live[ch]), peer);
        SubsetSize(after.pending.Keys, before.pending.Keys);
      }
  }

  lemma RegisterGrowth(st: State, e: Event, ch: Channel, peer: Addr)
    requires e.Register?
    ensures var st' := AfterRegister(st, e.peer, e.secret, Outcome(st, e.peer, e.limit, e.build), ch);
            var n, n' := |TargetOf(st, peer).pending|, |TargetOf(st', peer).pending|;
            n' == n || (n < e.limit && n' == n + 1)
  {
  }

  lemma DeliverGrowth(c: Crypto, st: State, from: Addr, packet: seq<byte>, peer: Addr)
    ensures |TargetOf(AfterDeliver(c, st, from, packet), peer).pending| == |TargetOf(st, peer).pending|
  {
  }

  lemma CloseGrowth(st: State, peer: Addr)
    ensures |TargetOf(AfterClose(st), peer).pending| == |TargetOf(st, peer).pending|
  {
    var p, p' := TargetOf(st, peer).pending, TargetOf(AfterClose(st), peer).pending;
    assert p'.Keys == p.Keys;
    assert |p'| == |p'.Keys| && |p| == |p.Keys|;
  }
}
