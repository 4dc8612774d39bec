/** Whole runs of builder calls on a new reply, and the salts they leave in it. */
module ReplyRuns {
  import opened Bytes
  import opened Header
  import opened Attributes
  import opened PacketBuffers
  import opened KeyMaterial
  import opened Replies
  import MessageAuthenticator
  import Passwords

  /** A call that adds key material, with the salts it may draw, or any other append. */
  datatype KeyOp =
    | TunnelPassword(tag: byte, password: seq<byte>, draws: nat -> Passwords.Salt)
    | MppeKeys(sendKey: seq<byte>, recvKey: seq<byte>, draws: nat -> Passwords.Salt, draws': nat -> Passwords.Salt)
    | Plain(op: BuildOp)

  /** What the reply is built for. */
  datatype Context = Context(c: Crypto, code: byte, requestAuth: Digest, secret: seq<byte>)

  ghost predicate Fair(op: KeyOp) {
    match op
    case TunnelPassword(_, _, draws) => FairDraws(draws)
    case MppeKeys(_, _, draws, draws') => FairDraws(draws) && FairDraws(draws')
    case Plain(_) => true
  }

  /** Size of the packet under construction. */
  function Size(attrs: seq<Attr>): (r: nat) {
    MIN_PACKET_LEN + |Encode(Slots(true, attrs))|
  }

  function SendAttr(x: Context, key: seq<byte>, salt: Passwords.Salt): (r: Attr)
    requires |key| <= KEY_MAX_LEN
  {
    MppeAttr(x.c, MS_MPPE_SEND_KEY, key, x.requestAuth, x.secret, salt)
  }

  function RecvAttr(x: Context, key: seq<byte>, salt: Passwords.Salt): (r: Attr)
    requires |key| <= KEY_MAX_LEN
  {
    MppeAttr(x.c, MS_MPPE_RECV_KEY, key, x.requestAuth, x.secret, salt)
  }

  ghost predicate TunnelEffect(x: Context, tag: byte, password: seq<byte>, before: seq<Attr>, after: seq<Attr>) {
    if x.code != ACCESS_ACCEPT || KeyOutcome(Size(before), 3, password).Some? then after == before
    else
      exists salt: Passwords.Salt :: NewSalt(before, salt)
        && after == before + [TunnelAttr(x.c, tag, password, x.requestAuth, x.secret, salt)]
  }

  ghost predicate MppeEffect(x: Context, sendKey: seq<byte>, recvKey: seq<byte>, before: seq<Attr>, after: seq<Attr>) {
    if x.code != ACCESS_ACCEPT || KeyOutcome(Size(before), 8, sendKey).Some? then after == before
    else
      exists s: Passwords.Salt :: NewSalt(before, s)
        && var between := before + [SendAttr(x, sendKey, s)];
           if MppeOutcome(Size(before), sendKey, recvKey).Some? then after == between
           else exists t: Passwords.Salt :: NewSalt(between, t) && after == between + [RecvAttr(x, recvKey, t)]
  }

  /** One call: the key material it appends goes under salts that are new to the packet. */
  ghost predicate Effect(x: Context, op: KeyOp, before: seq<Attr>, after: seq<Attr>) {
    match op
    case TunnelPassword(tag, password, _) => TunnelEffect(x, tag, password, before, after)
    case MppeKeys(sendKey, recvKey, _, _) => MppeEffect(x, sendKey, recvKey, before, after)
    case Plain(op) => after == before + match Appended(Size(before), op) case Some(a) => [a] case None => []
  }

  /** A plain append adds nothing, no salt, or a salt that is new to the packet with its top bit set. */
  predicate Harmless(op: KeyOp, before: seq<Attr>) {
    op.Plain? ==>
      match Appended(Size(before), op.op)
      case Some(a) => SaltOf(a).None? || NewSalt(before, SaltOf(a).value)
      case None => true
  }

  /** A call of which the caller knows beforehand that it adds no salt of its own. */
  predicate AddsNoSalt(op: KeyOp) {
    op.Plain? ==> Wanted(op.op).typ != TUNNEL_PASSWORD && Wanted(op.op).typ != VENDOR_SPECIFIC
  }

  /** The lists between the calls of a run on a new reply. */
  ghost predicate IsRun(x: Context, ops: seq<KeyOp>, trace: seq<seq<Attr>>) {
    |trace| == |ops| + 1 && trace[0] == []
    && forall i :: 0 <= i < |ops| ==> Effect(x, ops[i], trace[i], trace[i + 1])
  }

  /** Key material never spoils the salts; a plain append keeps them distinct exactly if harmless. */
  lemma StepKeepsDistinct(x: Context, op: KeyOp, before: seq<Attr>, after: seq<Attr>)
    requires Effect(x, op, before, after)
    ensures SaltsDistinct(after) <==> SaltsDistinct(before) && Harmless(op, before)
  {
    hide SaltsDistinct, NewSalt, SaltOf, TunnelAttr, MppeAttr, KeyOutcome, MppeOutcome, Appended, Size;
    assert before + [] == before;
    match op
    case TunnelPassword(_, _, _) =>
      if after != before {
        DistinctSnoc(before, after[|before|]);
      }
    case MppeKeys(sendKey, recvKey, _, _) =>
      if after != before {
        var between := before + [after[|before|]];
        DistinctSnoc(before, after[|before|]);
        if after != between {
          DistinctSnoc(between, after[|between|]);
        }
      }
    case Plain(op) =>
      if Appended(Size(before), op).Some? {
        DistinctSnoc(before, Appended(Size(before), op).value);
      }
  }

  /** Over every run of key calls and appends on a new reply, all salts of the packet are pairwise
      distinct with the top bit set, exactly if every plain append of the run was harmless. */
  lemma {:induction false} SaltsStayDistinct(x: Context, ops: seq<KeyOp>, trace: seq<seq<Attr>>)
    requires IsRun(x, ops, trace)
    ensures SaltsDistinct(trace[|ops|]) <==> forall i :: 0 <= i < |ops| ==> Harmless(ops[i], trace[i])
  {
    hide Effect, Harmless;
    if ops != [] {
      var n := |ops| - 1;
      SaltsStayDistinct(x, ops[..n], trace[..n + 1]);
      assert Effect(x, ops[n], trace[n], trace[n + 1]);
      StepKeepsDistinct(x, ops[n], trace[n], trace[n + 1]);
      assert forall i :: 0 <= i < n ==> ops[i] == ops[..n][i] && trace[i] == trace[..n + 1][i];
    }
  }

  /** A plain append that spoils the salts of a new reply: a raw Tunnel-Password with a clear top bit. */
  lemma PlainAppendCanSpoil()
    ensures var op := Plain(AddAttribute(TUNNEL_PASSWORD, [0, 0, 0]));
            !Harmless(op, []) && !SaltsDistinct([RawAttribute(TUNNEL_PASSWORD, [0, 0, 0])])
  {
    var a: Attr := RawAttribute(TUNNEL_PASSWORD, [0, 0, 0]);
    EncodeOne(MessageAuthenticator.MaSlot(ZERO_DIGEST));
    assert [MessageAuthenticator.MaSlot(ZERO_DIGEST)] + [] == [MessageAuthenticator.MaSlot(ZERO_DIGEST)];
    assert a.value[1..3] == [0, 0] && [a][0] == a;
  }

  /** Calls known to add no salt of their own are harmless wherever they stand. */
  lemma NoSaltIsHarmless(op: KeyOp, before: seq<Attr>)
    requires AddsNoSalt(op)
    ensures Harmless(op, before)
  {
  }

  /** Builds a reply by a run of calls. */
  method Build(c: Crypto, code: byte, identifier: byte, requestAuth: Digest, secret: seq<byte>, ops: seq<KeyOp>)
    returns (reply: Reply, ghost trace: seq<seq<Attr>>)
    requires forall i :: 0 <= i < |ops| ==> Fair(ops[i])
    ensures fresh(reply) && fresh(reply.buf) && reply.Valid()
    ensures IsRun(Context(c, code, requestAuth, secret), ops, trace) && reply.attrs == trace[|ops|]
    ensures SaltsDistinct(reply.attrs) <==> forall i :: 0 <= i < |ops| ==> Harmless(ops[i], trace[i])
    ensures (forall i :: 0 <= i < |ops| ==> AddsNoSalt(ops[i])) ==> SaltsDistinct(reply.attrs)
  {
    hide Effect, Harmless, AddsNoSalt, SaltsDistinct;
    reply := new Reply(code, identifier);
    ghost var x := Context(c, code, requestAuth, secret);
    trace := [[]];
    for i := 0 to |ops|
      invariant fresh(reply) && fresh(reply.buf) && reply.Valid()
      invariant reply.maValueOffset.Some? && reply.buf.inner[0] == code
      invariant |trace| == i + 1 && trace[0] == [] && reply.attrs == trace[i]
      invariant forall j :: 0 <= j < i ==> Effect(x, ops[j], trace[j], trace[j + 1])
    {
      Call(reply, c, requestAuth, secret, ops[i], x);
      trace := trace + [reply.attrs];
    }
    SaltsStayDistinct(x, ops, trace);
    forall i | 0 <= i < |ops| && AddsNoSalt(ops[i])
      ensures Harmless(ops[i], trace[i])
    {
      NoSaltIsHarmless(ops[i], trace[i]);
    }
  }

  /** One call on a reply with its slot. */
  method Call(reply: Reply, c: Crypto, requestAuth: Digest, secret: seq<byte>, op: KeyOp, ghost x: Context)
    requires reply.Valid() && reply.maValueOffset.Some? && Fair(op)
    requires x == Context(c, reply.buf.inner[0], requestAuth, secret)
    modifies reply, reply.buf
    ensures reply.Valid() && reply.maValueOffset.Some? && reply.buf.inner[0] == x.code
    ensures Effect(x, op, old(reply.attrs), reply.attrs)
  {
    hide TunnelAttr, MppeAttr, Appended, FairDraws, Encode, NewSalt, AppendLimits, Passwords.PadTunnel;
    ghost var before := reply.attrs;
    assert |reply.buf.inner| == Size(before);
    match op {
      case TunnelPassword(tag, password, draws) =>
        var _, salt := reply.AddTunnelPassword(c, tag, password, requestAuth, secret, draws);
      case MppeKeys(sendKey, recvKey, draws, draws') =>
        var _, between, s, t := reply.AddMppeKeys(c, sendKey, recvKey, requestAuth, secret, draws, draws');
        assert between != before ==> NewSalt(before, s) && between == before + [SendAttr(x, sendKey, s)];
      case Plain(op) =>
        var _ := reply.Append(op);
    }
  }
}
