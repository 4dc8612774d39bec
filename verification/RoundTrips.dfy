/** Requests and replies end to end through the registry and the RadSec connection: what is registered
    is what the request says, and the server's sealed reply completes the caller that waits for it. */
module RoundTrips {
  import opened Bytes
  import opened Header
  import opened Attributes
  import opened Exchange
  import ExchangeRuns
  import PacketBuffers
  import RadsecNak
  import RadsecQueue
  import Replies
  import Requests
  import Responses

  type Build = byte -> Result<seq<byte>, PacketBuffers.CodecError>

  /** Registering a sealed request makes an entry that waits for a reply to its code, under the
      Authenticator in its octets and the caller's secret. */
  lemma RegisteredAsSealed(c: Crypto, st: State, peer: Addr, secret: seq<byte>, ch: Channel, code: byte,
                           identifier: byte, attrs: seq<Attr>, random: Digest, key: seq<byte>)
    requires Replies.Fits(true, attrs)
    ensures var packet := Requests.Sealed(c, code, identifier, attrs, random, key);
            var after := AfterRegister(st, peer, secret, Registered(identifier, packet), ch);
            |packet| >= 20
            && Lookup(after, Lease(peer, identifier)) == Some(Pending(ch, true, code, packet[4..20], secret))
  {
    SealedHeader(c, code, identifier, attrs, random, key);
  }

  lemma SealedHeader(c: Crypto, code: byte, identifier: byte, attrs: seq<Attr>, random: Digest, key: seq<byte>)
    requires Replies.Fits(true, attrs)
    ensures var packet := Requests.Sealed(c, code, identifier, attrs, random, key);
            20 <= |packet| <= 4096
            && HeaderOf(packet) == Header(code, identifier, |packet|, packet[4..20])
  {
    var packet := Requests.Sealed(c, code, identifier, attrs, random, key);
    var region := Replies.SealedRegion(c, code, identifier, true, attrs, Requests.WorkingAuth(code, random), key);
    hide Replies.SealedRegion;
    ParseFrame(code, identifier, packet[4..20], region, []);
    assert packet == Frame(code, identifier, packet[4..20], region);
    assert packet + [] == packet;
  }

  /** The registration an event makes remembers the sealed request it was built for. */
  lemma MadeAsSealed(c: Crypto, w: ExchangeRuns.World, peer: Addr, secret: seq<byte>, limit: nat, build: Build,
                     code: byte, identifier: byte, attrs: seq<Attr>, random: Digest)
    requires Replies.Fits(true, attrs)
    requires var w1 := ExchangeRuns.Step(c, w, ExchangeRuns.Register(peer, secret, limit, build));
             w1.next == w.next + 1 && w.next in w1.live && w1.live[w.next].identifier == identifier
    requires build(identifier) == Ok(Requests.Sealed(c, code, identifier, attrs, random, secret))
    ensures var w1 := ExchangeRuns.Step(c, w, ExchangeRuns.Register(peer, secret, limit, build));
            var packet := Requests.Sealed(c, code, identifier, attrs, random, secret);
            |packet| >= 20 && w.next in w1.made
            && w1.made[w.next] == ExchangeRuns.Purpose(Lease(peer, identifier), code, packet[4..20], secret)
  {
    hide Requests.Sealed, FreeOffset, HeaderOf, Replies.Fits;
    SealedHeader(c, code, identifier, attrs, random, secret);
  }

  /** The ten pairs of request and reply codes. */
  const ANSWERS: set<(byte, byte)> := {(1, 2), (1, 3), (1, 11), (4, 5), (12, 2), (12, 5),
                                       (43, 44), (43, 45), (40, 41), (40, 42)}

  /** A sealed reply is accepted for a request whose code it answers. */
  lemma ReplyIsAccepted(c: Crypto, code: byte, replyCode: byte, identifier: byte, attrs: seq<Attr>, auth: Digest,
                        secret: seq<byte>, padding: seq<byte>)
    requires Replies.Fits(true, attrs) && NoneOfType(attrs, 80) && (code, replyCode) in ANSWERS
    ensures var reply := Replies.Sealed(c, replyCode, identifier, true, attrs, auth, secret);
            var r := Responses.Accept(c, reply + padding, code, identifier, auth, secret);
            r.Some? && r.value.packet == reply && r.value.requestAuthenticator == auth
  {
    hide Replies.Sealed, Replies.Fits, Responses.Accept, Walk, NoneOfType;
    Replies.AcceptedPairs(c, replyCode, identifier, attrs, auth, secret, padding, code);
    Replies.SealedAccepted(c, replyCode, identifier, true, attrs, auth, secret, padding, code, identifier);
  }

  /** End to end over runs: a registration made for a sealed request that still waits, whatever has
      happened since, is completed by any sealed reply to it that comes from its peer, with any
      padding, and by that event nothing else is. */
  lemma SealedReplyCompletes(c: Crypto, events: seq<ExchangeRuns.Event>, later: seq<ExchangeRuns.Event>, peer: Addr,
                             secret: seq<byte>, limit: nat, build: Build, code: byte, identifier: byte,
                             attrs: seq<Attr>, random: Digest, replyCode: byte, replyAttrs: seq<Attr>,
                             padding: seq<byte>)
    requires Replies.Fits(true, attrs) && Replies.Fits(true, replyAttrs) && NoneOfType(replyAttrs, 80)
    requires (code, replyCode) in ANSWERS
    requires build(identifier) == Ok(Requests.Sealed(c, code, identifier, attrs, random, secret))
    requires var register := ExchangeRuns.Register(peer, secret, limit, build);
             var w := ExchangeRuns.Run(c, ExchangeRuns.INIT, events);
             var w1 := ExchangeRuns.Run(c, ExchangeRuns.INIT, events + [register]);
             var now := ExchangeRuns.Run(c, ExchangeRuns.INIT, events + [register] + later);
             w1.next == w.next + 1 && w.next in w1.live && w1.live[w.next].identifier == identifier
             && w.next in now.live && w.next !in now.done
    ensures var register := ExchangeRuns.Register(peer, secret, limit, build);
            var ch := ExchangeRuns.Run(c, ExchangeRuns.INIT, events).next;
            var now := ExchangeRuns.Run(c, ExchangeRuns.INIT, events + [register] + later);
            var packet := Requests.Sealed(c, code, identifier, attrs, random, secret);
            |packet| >= 20
            && var reply := Replies.Sealed(c, replyCode, identifier, true, replyAttrs, packet[4..20], secret);
               var sends := ExchangeRuns.Sends(c, now, ExchangeRuns.Deliver(peer, reply + padding));
               sends.Keys == {ch} && sends[ch].Success? && sends[ch].response.packet == reply
               && sends[ch].response.requestAuthenticator == packet[4..20]
  {
    hide Requests.Sealed, Replies.Sealed, Replies.Fits, Responses.Accept, ExchangeRuns.Step, ExchangeRuns.Sends,
         ExchangeRuns.Inv;
    var register := ExchangeRuns.Register(peer, secret, limit, build);
    var w := ExchangeRuns.Run(c, ExchangeRuns.INIT, events);
    var early, all := events + [register], events + [register] + later;
    assert early[..|early| - 1] == events && early[|early| - 1] == register;
    MadeAsSealed(c, w, peer, secret, limit, build, code, identifier, attrs, random);
    assert all[..|early|] == early;
    ExchangeRuns.CompletionsAreFinal(c, all, |early|);
    var packet := Requests.Sealed(c, code, identifier, attrs, random, secret);
    var reply := Replies.Sealed(c, replyCode, identifier, true, replyAttrs, packet[4..20], secret);
    ReplyIsAccepted(c, code, replyCode, identifier, replyAttrs, packet[4..20], secret, padding);
    ExchangeRuns.GenuineReplyCompletes(c, all, w.next, peer, reply + padding);
  }

  /** The same over RadSec: a caller whose sealed request was sent and who still waits is completed by
      the server's sealed reply, whatever has happened on the connection since. */
  lemma RadsecReplyCompletes(c: Crypto, peer: Addr, events: seq<RadsecQueue.Event>, later: seq<RadsecQueue.Event>,
                             limit: nat, build: Build, deadline: int, code: byte, identifier: byte, attrs: seq<Attr>,
                             random: Digest, replyCode: byte, replyAttrs: seq<Attr>)
    requires Replies.Fits(true, attrs) && Replies.Fits(true, replyAttrs) && NoneOfType(replyAttrs, 80)
    requires (code, replyCode) in ANSWERS
    requires build(identifier) == Ok(Requests.Sealed(c, code, identifier, attrs, random, RadsecNak.SECRET))
    requires RadsecQueue.AllStamp(events + [RadsecQueue.Send(limit, build, deadline)] + later)
    requires var send := RadsecQueue.Send(limit, build, deadline);
             var reg := RadsecQueue.Run(c, peer, events).reg;
             var reg1 := RadsecQueue.Run(c, peer, events + [send]).reg;
             var now := RadsecQueue.Run(c, peer, events + [send] + later);
             reg1.next == reg.next + 1 && reg.next in reg1.live && reg1.live[reg.next].identifier == identifier
             && now.running && now.writing.None? && reg.next in now.reg.live && reg.next !in now.reg.done
    ensures var send := RadsecQueue.Send(limit, build, deadline);
            var ch := RadsecQueue.Run(c, peer, events).reg.next;
            var now := RadsecQueue.Run(c, peer, events + [send] + later);
            var packet := Requests.Sealed(c, code, identifier, attrs, random, RadsecNak.SECRET);
            |packet| >= 20
            && var reply := Replies.Sealed(c, replyCode, identifier, true, replyAttrs, packet[4..20], RadsecNak.SECRET);
               var done := RadsecQueue.Step(c, now, RadsecQueue.Receive(reply)).reg.done;
               ch in done && done[ch].Success? && done[ch].response.packet == reply
  {
    hide Requests.Sealed, Replies.Sealed, Replies.Fits, Responses.Accept, RadsecQueue.Step, RadsecQueue.Run,
         NoneOfType, RadsecQueue.AllStamp;
    var all := events + [RadsecQueue.Send(limit, build, deadline)] + later;
    SentAsSealed(c, peer, events, later, limit, build, deadline, code, identifier, attrs, random);
    var auth := Requests.Sealed(c, code, identifier, attrs, random, RadsecNak.SECRET)[4..20];
    var reply := Replies.Sealed(c, replyCode, identifier, true, replyAttrs, auth, RadsecNak.SECRET);
    assert reply + [] == reply;
    ReplyIsAccepted(c, code, replyCode, identifier, replyAttrs, auth, RadsecNak.SECRET, []);
    RadsecQueue.ReceiveCompletes(c, peer, all, RadsecQueue.Run(c, peer, events).reg.next, reply);
  }

  /** What a send registered is on record ever after. */
  lemma SentAsSealed(c: Crypto, peer: Addr, events: seq<RadsecQueue.Event>, later: seq<RadsecQueue.Event>, limit: nat,
                     build: Build, deadline: int, code: byte, identifier: byte, attrs: seq<Attr>, random: Digest)
    requires Replies.Fits(true, attrs)
    requires build(identifier) == Ok(Requests.Sealed(c, code, identifier, attrs, random, RadsecNak.SECRET))
    requires RadsecQueue.AllStamp(events + [RadsecQueue.Send(limit, build, deadline)] + later)
    requires var send := RadsecQueue.Send(limit, build, deadline);
             var reg := RadsecQueue.Run(c, peer, events).reg;
             var reg1 := RadsecQueue.Run(c, peer, events + [send]).reg;
             reg1.next == reg.next + 1 && reg.next in reg1.live && reg1.live[reg.next].identifier == identifier
    ensures var ch := RadsecQueue.Run(c, peer, events).reg.next;
            var made := RadsecQueue.Run(c, peer, events + [RadsecQueue.Send(limit, build, deadline)] + later).reg.made;
            var packet := Requests.Sealed(c, code, identifier, attrs, random, RadsecNak.SECRET);
            |packet| >= 20 && ch in made
            && made[ch] == ExchangeRuns.Purpose(Lease(peer, identifier), code, packet[4..20], RadsecNak.SECRET)
  {
    hide Requests.Sealed, Replies.Fits, ExchangeRuns.Step, Outcome;
    var send := RadsecQueue.Send(limit, build, deadline);
    var before, early, all := RadsecQueue.Run(c, peer, events), events + [send], events + [send] + later;
    assert early[..|early| - 1] == events && early[|early| - 1] == send;
    RadsecQueue.RunPeer(c, peer, events);
    MadeAsSealed(c, before.reg, peer, RadsecNak.SECRET, limit, build, code, identifier, attrs, random);
    assert all[..|early|] == early;
    RadsecQueue.RunKeepsMade(c, peer, all, |early|, before.reg.next);
  }
}
