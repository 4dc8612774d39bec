/** Reuse distance of identifiers: the cursor goes round all 256 before it comes back. */
module RoundRobin {
  import opened Bytes
  import opened Exchange
  import opened ExchangeRuns
  import Responses

  function Cursor(st: State, peer: Addr): (r: byte) {
    TargetOf(st, peer).nextIdentifier
  }

  /** The identifier an event allocates to the peer, if it does. */
  function Allocated(st: State, e: Event, peer: Addr): (r: Option<byte>) {
    if !e.Register? || e.peer != peer then None
    else
      match Outcome(st, peer, e.limit, e.build)
      case Registered(identifier, _) => Some(identifier)
      case Refused(_) => None
  }

  /** The event searched for a free identifier of the peer and passed over `j`. */
  predicate PassedOver(st: State, e: Event, peer: Addr, j: byte) {
    && e.Register? && e.peer == peer && !st.closed && |TargetOf(st, peer).pending| < e.limit
    && Ahead(Cursor(st, peer), j) < FreeOffset(TargetOf(st, peer), 0)
  }

  predicate Touches(st: State, e: Event, peer: Addr, j: byte) {
    Allocated(st, e, peer) == Some(j) || PassedOver(st, e, peer, j)
  }

  /** An identifier is passed over only because it is in use. */
  lemma PassedOverIsTaken(st: State, e: Event, peer: Addr, j: byte)
    requires PassedOver(st, e, peer, j)
    ensures j in TargetOf(st, peer).pending
  {
  }

  /** The cursor moves only on a successful allocation, to the identifier after it; in particular a
      failed build leaves it. */
  lemma CursorStep(c: Crypto, w: World, e: Event, peer: Addr)
    ensures Cursor(Step(c, w, e).state, peer)
            == match Allocated(w.state, e, peer)
               case Some(x) => WrappingAdd(x, 1)
               case None => Cursor(w.state, peer)
  {
    hide Sends, HeaderOf, Responses.Accept, WrappingAdd;
  }

  /** What an allocation tells about every other identifier between the cursor and it. */
  lemma AllocationSweeps(st: State, e: Event, peer: Addr, x: byte, j: byte)
    requires Allocated(st, e, peer) == Some(x)
    requires Ahead(Cursor(st, peer), j) <= Ahead(Cursor(st, peer), x)
    ensures Touches(st, e, peer, j)
  {
    var n, off := Cursor(st, peer), FreeOffset(TargetOf(st, peer), 0);
    assert x == WrappingAdd(n, off);
    AheadOfSum(n, off);
    if Ahead(n, j) == off {
      assert j == x;
    }
  }

  lemma AheadOfSum(n: byte, k: nat)
    requires k < 256
    ensures Ahead(n, WrappingAdd(n, k)) == k
  {
  }

  /** Cyclic arithmetic: the arc from the cursor `n` to an allocated `x`, seen from just after `i`. */
  lemma Arc(i: byte, n: byte, x: byte, j: byte)
    requires j != i
    ensures var start := WrappingAdd(i, 1);
            var d, off := Ahead(start, n), Ahead(n, x);
            && (x != i && d + off < 255 ==> Ahead(start, WrappingAdd(x, 1)) == d + off + 1)
            && (d + off < 255 && Ahead(start, j) <= d + off ==> Ahead(start, j) < d || Ahead(n, j) <= off)
            && (d + off >= 255 ==> Ahead(start, j) < d || Ahead(n, j) <= off)
            && (x == i ==> d + off >= 255)
  {
  }

  function At(c: Crypto, w: World, events: seq<Event>, k: nat): (r: State)
    requires k <= |events|
  {
    Run(c, w, events[..k]).state
  }

  /** Some event strictly between `p` and `k` allocated `j` or passed over it. */
  ghost predicate Swept(c: Crypto, w: World, events: seq<Event>, peer: Addr, p: nat, k: nat, j: byte)
    requires k <= |events|
  {
    exists m :: p < m < k && Touches(At(c, w, events, m), events[m], peer, j)
  }

  /** After the allocation of `i` at `p` and before the next one, everything from `i + 1` up to the
      cursor has been swept, or everything has. */
  lemma {:induction false} SweptUpToCursor(c: Crypto, w: World, events: seq<Event>, peer: Addr, p: nat, k: nat, i: byte)
    requires p < k <= |events|
    requires Allocated(At(c, w, events, p), events[p], peer) == Some(i)
    requires forall m :: p < m < k ==> Allocated(At(c, w, events, m), events[m], peer) != Some(i)
    ensures var start := WrappingAdd(i, 1);
            (forall j: byte :: j != i ==> Swept(c, w, events, peer, p, k, j))
            || (forall j: byte :: j != i && Ahead(start, j) < Ahead(start, Cursor(At(c, w, events, k), peer)) ==>
                  Swept(c, w, events, peer, p, k, j))
    decreases k
  {
    hide Touches, Allocated, Ahead, WrappingAdd, Cursor, At, Run;
    var start := WrappingAdd(i, 1);
    CursorAt(c, w, events, peer, k - 1);
    if k == p + 1 {
      AheadSelf(start);
    } else {
      SweptUpToCursor(c, w, events, peer, p, k - 1, i);
      forall j: byte | Swept(c, w, events, peer, p, k - 1, j)
        ensures Swept(c, w, events, peer, p, k, j)
      {
      }
      match Allocated(At(c, w, events, k - 1), events[k - 1], peer)
      case None =>
      case Some(x) =>
        SweptByAllocation(c, w, events, peer, p, k, i, x);
    }
  }

  lemma AheadSelf(n: byte)
    ensures Ahead(n, n) == 0
  {
  }

  lemma CursorAt(c: Crypto, w: World, events: seq<Event>, peer: Addr, k: nat)
    requires k < |events|
    ensures Cursor(At(c, w, events, k + 1), peer)
            == match Allocated(At(c, w, events, k), events[k], peer)
               case Some(x) => WrappingAdd(x, 1)
               case None => Cursor(At(c, w, events, k), peer)
  {
    hide Step, Allocated, Cursor, WrappingAdd;
    var upto := events[..k + 1];
    assert upto[..|upto| - 1] == events[..k] && upto[|upto| - 1] == events[k];
    CursorStep(c, Run(c, w, events[..k]), events[k], peer);
  }

  /** One more allocation extends the swept arc, or closes the circle. */
  lemma SweptByAllocation(c: Crypto, w: World, events: seq<Event>, peer: Addr, p: nat, k: nat, i: byte, x: byte)
    requires p < k - 1 < |events|
    requires Allocated(At(c, w, events, k - 1), events[k - 1], peer) == Some(x) && x != i
    requires Cursor(At(c, w, events, k), peer) == WrappingAdd(x, 1)
    requires var start := WrappingAdd(i, 1);
             forall j: byte :: j != i && Ahead(start, j) < Ahead(start, Cursor(At(c, w, events, k - 1), peer)) ==>
               Swept(c, w, events, peer, p, k, j)
    ensures var start := WrappingAdd(i, 1);
            (forall j: byte :: j != i ==> Swept(c, w, events, peer, p, k, j))
            || (forall j: byte :: j != i && Ahead(start, j) < Ahead(start, Cursor(At(c, w, events, k), peer)) ==>
                  Swept(c, w, events, peer, p, k, j))
  {
    hide Touches, Allocated, Ahead, WrappingAdd, Cursor, At, Run;
    var st, e, start := At(c, w, events, k - 1), events[k - 1], WrappingAdd(i, 1);
    var n := Cursor(st, peer);
    forall j: byte | j != i && Ahead(n, j) <= Ahead(n, x)
      ensures Swept(c, w, events, peer, p, k, j)
    {
      AllocationSweeps(st, e, peer, x, j);
      assert Touches(At(c, w, events, k - 1), events[k - 1], peer, j);
    }
    forall j: byte | j != i {
      Arc(i, n, x, j);
    }
  }

  /** Between two successive allocations of `i` to a peer, every other identifier was allocated to it
      or was found in use by a search in between, the second allocation's own search included. */
  lemma ReuseDistance(c: Crypto, w: World, events: seq<Event>, peer: Addr, p: nat, q: nat, i: byte, j: byte)
    requires p < q < |events| && j != i
    requires Allocated(At(c, w, events, p), events[p], peer) == Some(i)
    requires Allocated(At(c, w, events, q), events[q], peer) == Some(i)
    requires forall m :: p < m < q ==> Allocated(At(c, w, events, m), events[m], peer) != Some(i)
    ensures exists m :: p < m <= q && Touches(At(c, w, events, m), events[m], peer, j)
  {
    hide Touches, Allocated, Ahead, WrappingAdd, Cursor, At, Run;
    SweptUpToCursor(c, w, events, peer, p, q, i);
    if !Swept(c, w, events, peer, p, q, j) {
      var st := At(c, w, events, q);
      Arc(i, Cursor(st, peer), i, j);
      AllocationSweeps(st, events[q], peer, i, j);
      assert Touches(At(c, w, events, q), events[q], peer, j);
    }
  }
}
