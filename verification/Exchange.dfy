/** The identifier allocator and reply correlator of the client transports, as state and steps. */
module Exchange {
  import opened Bytes
  import opened Header
  import PacketBuffers
  import Responses

  /** A socket address; only its identity matters here. */
  type Addr = nat

  /** A oneshot channel. Registrations, their leases and their channels share one number. */
  type Channel = nat

  /** The header of a packet buffer, which always parses. */
  function HeaderOf(packet: seq<byte>): (r: Header) {
    match Parse(packet)
    case Ok(p) => p.header
    case Err(_) => Header(0, 0, MIN_PACKET_LEN, ZERO_DIGEST)
  }

  datatype ClientError = Codec(error: PacketBuffers.CodecError) | InFlightLimit | IdentifierExhausted | Closed

  /** An entry: the channel made for it, whether the registry still holds the channel's sender, and
      what a reply is verified against. */
  datatype Pending = Pending(channel: Channel, open: bool, code: byte, authenticator: Digest, secret: seq<byte>)

  datatype Peer = Peer(nextIdentifier: byte, pending: map<byte, Pending>)

  datatype State = State(peers: map<Addr, Peer>, closed: bool)

  datatype Lease = Lease(peer: Addr, identifier: byte)

  function WrappingAdd(a: byte, b: nat): (r: byte) {
    (a + b) % 256
  }

  function TargetOf(st: State, peer: Addr): (r: Peer) {
    if peer in st.peers then st.peers[peer] else Peer(0, map[])
  }

  function Lookup(st: State, l: Lease): (r: Option<Pending>) {
    if l.peer in st.peers && l.identifier in st.peers[l.peer].pending
    then Some(st.peers[l.peer].pending[l.identifier]) else None
  }

  /** Offset of the first free identifier at or after the cursor, cyclically; 256 if there is none. */
  function FreeOffset(target: Peer, from: nat): (r: nat)
    requires from <= 256
    ensures from <= r <= 256
    ensures r < 256 ==> WrappingAdd(target.nextIdentifier, r) !in target.pending
    ensures forall k :: from <= k < r ==> WrappingAdd(target.nextIdentifier, k) in target.pending
    decreases 256 - from
  {
    if from == 256 || WrappingAdd(target.nextIdentifier, from) !in target.pending then from
    else FreeOffset(target, from + 1)
  }

  datatype RegisterResult = Registered(identifier: byte, packet: seq<byte>) | Refused(error: ClientError)

  /** Whether and with which identifier a registration succeeds. */
  function Outcome(st: State, peer: Addr, limit: nat, build: byte -> Result<seq<byte>, PacketBuffers.CodecError>)
    : (r: RegisterResult)
  {
    var target := TargetOf(st, peer);
    if st.closed then Refused(Closed)
    else if |target.pending| >= limit then Refused(InFlightLimit)
    else if FreeOffset(target, 0) == 256 then Refused(IdentifierExhausted)
    else
      var identifier := WrappingAdd(target.nextIdentifier, FreeOffset(target, 0));
      match build(identifier)
      case Err(e) => Refused(Codec(e))
      case Ok(packet) => Registered(identifier, packet)
  }

  /** The refusals, in order, each with its own condition; otherwise the first identifier at or after
      the cursor that no entry holds is built for. */
  lemma RegisterMeaning(st: State, peer: Addr, limit: nat, build: byte -> Result<seq<byte>, PacketBuffers.CodecError>)
    returns (i: byte, n: nat)
    ensures var target := if peer in st.peers then st.peers[peer] else Peer(0, map[]);
            var r := Outcome(st, peer, limit, build);
            (r == Refused(Closed) <==> st.closed)
            && (r == Refused(InFlightLimit) <==> !st.closed && |target.pending| >= limit)
            && (r == Refused(IdentifierExhausted)
                <==> !st.closed && |target.pending| < limit && forall b: byte :: b in target.pending)
            && (!st.closed && |target.pending| < limit && (exists b: byte :: b !in target.pending) ==>
                  n < 256 && i == WrappingAdd(target.nextIdentifier, n) && i !in target.pending
                  && (forall k :: 0 <= k < n ==> WrappingAdd(target.nextIdentifier, k) in target.pending)
                  && r == match build(i)
                          case Ok(packet) => Registered(i, packet)
                          case Err(e) => Refused(Codec(e)))
  {
    hide FreeOffset, WrappingAdd;
    var target := TargetOf(st, peer);
    n := FreeOffset(target, 0);
    i := WrappingAdd(target.nextIdentifier, n);
    ExhaustedIffFull(target);
  }

  /** Offset from `from` to `to`, going up and wrapping at 256. */
  function Ahead(from: byte, to: byte): (r: nat)
    ensures r < 256 && WrappingAdd(from, r) == to
  {
    if to >= from then to - from else to + 256 - from
  }

  /** The cyclic search gives up exactly when all 256 identifiers are taken. */
  lemma ExhaustedIffFull(target: Peer)
    ensures FreeOffset(target, 0) == 256 <==> forall b: byte :: b in target.pending
  {
    var r := FreeOffset(target, 0);
    hide FreeOffset, WrappingAdd;
    if r == 256 {
      forall b: byte
        ensures b in target.pending
      {
        assert WrappingAdd(target.nextIdentifier, Ahead(target.nextIdentifier, b)) in target.pending;
      }
    }
  }

  /** The registry after a registration. A refusal may leave a peer record without entries. */
  function AfterRegister(st: State, peer: Addr, secret: seq<byte>, outcome: RegisterResult, ch: Channel): (r: State)
  {
    var target := TargetOf(st, peer);
    match outcome
    case Refused(_) => if st.closed then st else st.(peers := st.peers[peer := target])
    case Registered(identifier, packet) =>
      var h := HeaderOf(packet);
      var entry := Pending(ch, true, h.code, h.authenticator, secret);
      st.(peers := st.peers[peer := Peer(WrappingAdd(identifier, 1), target.pending[identifier := entry])])
  }

  /** The channel a packet completes and the response it completes it with, if any. */
  function Delivered(c: Crypto, st: State, peer: Addr, packet: seq<byte>): (r: Option<(Channel, Responses.Response)>)
  {
    match Parse(packet)
    case Err(_) => None
    case Ok(p) =>
      match Lookup(st, Lease(peer, p.header.identifier))
      case None => None
      case Some(e) =>
        if !e.open then None
        else
          match Responses.Accept(c, packet, e.code, p.header.identifier, e.authenticator, e.secret)
          case None => None
          case Some(response) => Some((e.channel, response))
  }

  /** The registry with the sender of one entry taken. */
  function TakeSender(st: State, l: Lease): (r: State)
    requires Lookup(st, l).Some?
  {
    var target := st.peers[l.peer];
    var entry := target.pending[l.identifier];
    st.(peers := st.peers[l.peer := target.(pending := target.pending[l.identifier := entry.(open := false)])])
  }

  function AfterDeliver(c: Crypto, st: State, peer: Addr, packet: seq<byte>): (r: State)
  {
    if Delivered(c, st, peer, packet).None? then st
    else TakeSender(st, Lease(peer, Parse(packet).value.header.identifier))
  }

  function ClosedPeer(p: Peer): (r: Peer) {
    p.(pending := map i | i in p.pending :: p.pending[i].(open := false))
  }

  function AfterClose(st: State): (r: State) {
    State(map a | a in st.peers :: ClosedPeer(st.peers[a]), true)
  }

  function PeerSenders(p: Peer): (r: set<Channel>) {
    set i | i in p.pending && p.pending[i].open :: p.pending[i].channel
  }

  /** All channels that still have a sender in the registry. */
  function OpenSenders(st: State): (r: set<Channel>) {
    set a, ch | a in st.peers && ch in PeerSenders(st.peers[a]) :: ch
  }

  function AfterDrop(st: State, l: Lease): (r: State)
  {
    if l.peer !in st.peers then st
    else
      var target := st.peers[l.peer];
      st.(peers := st.peers[l.peer := target.(pending := target.pending - {l.identifier})])
  }

  /** The registry itself. */
  class Registry {
    var peers: map<Addr, Peer>
    var closed: bool

    ghost function View(): (r: State)
      reads this
    {
      State(peers, closed)
    }

    constructor ()
      ensures View() == State(map[], false)
    {
      peers, closed := map[], false;
    }

    /** Allocates the first free identifier at or after the cursor. A failed `build` leaves the
        cursor and the entries alone. */
    method Register(peer: Addr, secret: seq<byte>, limit: nat,
                    build: byte -> Result<seq<byte>, PacketBuffers.CodecError>, ch: Channel)
      returns (r: RegisterResult)
      modifies this
      ensures r == Outcome(old(View()), peer, limit, build)
      ensures View() == AfterRegister(old(View()), peer, secret, r, ch)
    {
      if closed {
        return Refused(Closed);
      }
      if peer !in peers {
        peers := peers[peer := Peer(0, map[])];
      }
      var target := peers[peer];
      assert peers == old(peers)[peer := TargetOf(old(View()), peer)];
      if |target.pending| >= limit {
        return Refused(InFlightLimit);
      }
      var offset := 0;
      while offset < 256 && WrappingAdd(target.nextIdentifier, offset) in target.pending
        invariant 0 <= offset <= 256
        invariant FreeOffset(target, 0) == FreeOffset(target, offset)
      {
        offset := offset + 1;
      }
      if offset == 256 {
        return Refused(IdentifierExhausted);
      }
      var identifier := WrappingAdd(target.nextIdentifier, offset);
      var built := build(identifier);
      if built.Err? {
        return Refused(Codec(built.error));
      }
      var header := HeaderOf(built.value);
      var entry := Pending(ch, true, header.code, header.authenticator, secret);
      peers := peers[peer := Peer(WrappingAdd(identifier, 1), target.pending[identifier := entry])];
      return Registered(identifier, built.value);
    }

    /** Completes at most the one registration the packet verifies against. */
    method Deliver(c: Crypto, peer: Addr, packet: seq<byte>)
      returns (delivered: bool, sent: Option<(Channel, Responses.Response)>)
      modifies this
      ensures delivered == sent.Some? && sent == Delivered(c, old(View()), peer, packet)
      ensures View() == AfterDeliver(c, old(View()), peer, packet)
    {
      var parsed := Parse(packet);
      if parsed.Err? {
        return false, None;
      }
      var identifier := parsed.value.header.identifier;
      if peer !in peers || identifier !in peers[peer].pending {
        return false, None;
      }
      var pending := peers[peer].pending[identifier];
      if !pending.open {
        return false, None;
      }
      var response := Responses.Verify(c, packet, pending.code, identifier, pending.authenticator, pending.secret);
      if response.None? {
        return false, None;
      }
      sent := Some((pending.channel, response.value));
      var target := peers[peer];
      peers := peers[peer := target.(pending := target.pending[identifier := pending.(open := false)])];
      return true, sent;
    }

    /** Marks the registry closed and takes every sender. */
    method Close() returns (notified: set<Channel>)
      modifies this
      ensures View() == AfterClose(old(View()))
      ensures notified == OpenSenders(old(View()))
    {
      closed := true;
      notified := {};
      var todo := peers.Keys;
      while todo != {}
        invariant todo <= peers.Keys == old(peers.Keys) && closed
        invariant forall a :: a in peers ==>
                    peers[a] == if a in todo then old(peers)[a] else ClosedPeer(old(peers)[a])
        invariant notified == set a, ch | a in old(peers).Keys - todo && ch in PeerSenders(old(peers)[a]) :: ch
        decreases todo
      {
        var a :| a in todo;
        var target, senders := CloseTarget(peers[a]);
        peers := peers[a := target];
        notified := notified + senders;
        todo := todo - {a};
      }
    }

    static method CloseTarget(target: Peer) returns (r: Peer, senders: set<Channel>)
      ensures r == ClosedPeer(target) && senders == PeerSenders(target)
    {
      var pending := target.pending;
      senders := {};
      var todo := pending.Keys;
      while todo != {}
        invariant todo <= pending.Keys == target.pending.Keys
        invariant forall i :: i in pending ==>
                    pending[i] == if i in todo then target.pending[i] else target.pending[i].(open := false)
        invariant senders == set i | i in target.pending.Keys - todo && target.pending[i].open
                               :: target.pending[i].channel
        decreases todo
      {
        var i :| i in todo;
        if pending[i].open {
          senders := senders + {pending[i].channel};
        }
        pending := pending[i := pending[i].(open := false)];
        todo := todo - {i};
      }
      r := target.(pending := pending);
    }

    /** A lease is active while its entry has a sender whose receiver is alive. */
    method IsActive(l: Lease, receivers: set<Channel>) returns (r: bool)
      ensures r <==> Lookup(View(), l).Some? && Lookup(View(), l).value.open
                     && Lookup(View(), l).value.channel in receivers
    {
      if l.peer !in peers || l.identifier !in peers[l.peer].pending {
        return false;
      }
      var pending := peers[l.peer].pending[l.identifier];
      return pending.open && pending.channel in receivers;
    }

    method DropLease(l: Lease)
      modifies this
      ensures View() == AfterDrop(old(View()), l)
    {
      if l.peer in peers {
        var target := peers[l.peer];
        peers := peers[l.peer := target.(pending := target.pending - {l.identifier})];
      }
    }
  }
}
