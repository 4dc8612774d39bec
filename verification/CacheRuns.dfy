/** Whole runs of the client cache: every interleaving of lookups, completions, cancellations,
    invalidation and clearing. */
module CacheRuns {
  import opened Bytes
  import opened ClientCache
  import opened DeadlineIndex

  datatype Config = Config(positiveTtl: int, negativeTtl: int, capacity: nat)

  /** The store refuses a capacity of zero. */
  predicate ValidConfig(g: Config) {
    g.capacity > 0
  }

  function Ttl(g: Config, value: Option<Client>): (r: int) {
    if value.Some? then g.positiveTtl else g.negativeTtl
  }

  /** Where one lookup future stands. The action is chosen when the lookup is called; a resolver's
      channel is numbered like the future itself. */
  datatype Phase =
    | Returned(hit: Option<Client>)
    | Direct
    | Waiting(ch: Channel)
    | Resolving
    | Published(value: Option<Client>)
    | Sent(value: Option<Client>)
    | Dropping
    | Done(value: Option<Client>)
    | Gone

  datatype Future = Future(key: Ip, phase: Phase)

  /** An answer of the backend to a resolver: for which address, what, and when. */
  datatype Answer = Answer(key: Ip, value: Option<Client>, at: int)

  datatype Event =
    | Call(key: Ip, now: int)
    | Complete(id: nat, value: Option<Client>, at: int)
    | Broadcast(id: nat)
    | Finish(id: nat)
    | Receive(id: nat)
    | AnswerDirect(id: nat, value: Option<Client>)
    | Cancel(id: nat)
    | ReleaseSender(id: nat)
    | InvalidateKey(key: Ip)
    | ClearAll

  datatype World = World(cache: Cache, futures: map<nat, Future>, sent: map<Channel, Option<Client>>,
                         answers: set<Answer>, next: nat)

  const INIT := World(Cache(map[], {}), map[], map[], {}, 0)

  predicate In(w: World, id: nat, phase: Phase) {
    id in w.futures && w.futures[id].phase == phase
  }

  function Move(w: World, id: nat, phase: Phase): (r: World)
    requires id in w.futures
  {
    w.(futures := w.futures[id := w.futures[id].(phase := phase)])
  }

  /** Someone can still send on the channel: its slot in the map or its resolver holds a sender. */
  predicate LiveSender(w: World, ch: Channel) {
    (exists k :: k in w.cache.entries && w.cache.entries[k] == Pending(ch))
    || (ch in w.futures && (w.futures[ch].phase.Resolving? || w.futures[ch].phase.Published?
                            || w.futures[ch].phase.Sent? || w.futures[ch].phase.Dropping?))
  }

  /** A waiter's receive returns: a value was sent or the channel is closed. */
  predicate CanReceive(w: World, ch: Channel) {
    ch in w.sent || !LiveSender(w, ch)
  }

  /** Where a receive leaves its waiter. */
  function ReceivedPhase(w: World, ch: Channel): (r: Phase) {
    if ch in w.sent then Done(w.sent[ch])
    else if CanReceive(w, ch) then Direct
    else Waiting(ch)
  }

  function PhaseOf(a: Action): (r: Phase) {
    match a
    case Hit(v) => Returned(v)
    case Wait(ch) => Waiting(ch)
    case Resolve(_) => Resolving
    case Uncached => Direct
  }

  ghost function Step(g: Config, w: World, e: Event): (r: World)
  {
    match e
    case Call(key, now) =>
      var d := Decide(w.cache, key, now, g.capacity, w.next);
      w.(cache := d.0, futures := w.futures[w.next := Future(key, PhaseOf(d.1))], next := w.next + 1)
    case Complete(id, value, at) =>
      if !In(w, id, Resolving) then w
      else
        var key := w.futures[id].key;
        Move(w, id, Published(value)).(cache := Publish(w.cache, key, value, at + Ttl(g, value)),
                                       answers := w.answers + {Answer(key, value, at)})
    case Broadcast(id) =>
      if id in w.futures && w.futures[id].phase.Published?
      then Move(w, id, Sent(w.futures[id].phase.value)).(sent := w.sent[id := w.futures[id].phase.value])
      else w
    case Finish(id) =>
      if id in w.futures && w.futures[id].phase.Sent?
      then Move(w, id, Done(w.futures[id].phase.value)).(cache := DropPending(w.cache, w.futures[id].key, id))
      else w
    case Receive(id) =>
      if id in w.futures && w.futures[id].phase.Waiting?
      then Move(w, id, ReceivedPhase(w, w.futures[id].phase.ch)) else w
    case AnswerDirect(id, value) => if In(w, id, Direct) then Move(w, id, Done(value)) else w
    case Cancel(id) =>
      if id !in w.futures then w
      else
        match w.futures[id].phase {
          case Resolving => Move(w, id, Dropping).(cache := DropPending(w.cache, w.futures[id].key, id))
          case Waiting(_) => Move(w, id, Gone)
          case Direct => Move(w, id, Gone)
          case Returned(_) => Move(w, id, Gone)
          case _ => w
        }
    case ReleaseSender(id) => if In(w, id, Dropping) then Move(w, id, Gone) else w
    case InvalidateKey(key) => w.(cache := Invalidate(w.cache, key))
    case ClearAll => w.(cache := Clear(w.cache))
  }

  ghost function Run(g: Config, events: seq<Event>): (r: World)
    decreases |events|
  {
    if events == [] then INIT else Step(g, Run(g, events[..|events| - 1]), events[|events| - 1])
  }

  /** Index and capacity. */
  ghost predicate Sound(g: Config, c: Cache) {
    Consistent(c) && |c.entries| <= g.capacity
  }

  /** A slot is pending on a channel exactly when the live, unpublished resolver of that channel
      looks the slot's key up. */
  ghost predicate SingleFlight(c: Cache, futures: map<nat, Future>) {
    && (forall k :: k in c.entries && c.entries[k].Pending? ==>
          c.entries[k].ch in futures && futures[c.entries[k].ch] == Future(k, Resolving))
    && (forall id :: id in futures && futures[id].phase.Resolving? ==>
          futures[id].key in c.entries && c.entries[futures[id].key] == Pending(id))
  }

  /** Resolved slots hold backend answers with the deadline of their kind. */
  ghost predicate Backed(g: Config, c: Cache, answers: set<Answer>) {
    forall k :: k in c.entries && c.entries[k].Resolved? ==>
      Answer(k, c.entries[k].value, c.entries[k].expiresAt - Ttl(g, c.entries[k].value)) in answers
  }

  ghost predicate Answered(answers: set<Answer>, key: Ip, value: Option<Client>) {
    exists at :: Answer(key, value, at) in answers
  }

  /** A resolver past publication carries an answer for its key; what was sent on a channel is its
      resolver's answer. */
  ghost predicate Resolvers(w: World) {
    && (forall id :: id in w.futures ==> id < w.next)
    && (forall id :: id in w.futures && w.futures[id].phase.Published? ==>
          id !in w.sent && Answered(w.answers, w.futures[id].key, w.futures[id].phase.value))
    && (forall id :: id in w.futures && (w.futures[id].phase.Resolving? || w.futures[id].phase.Dropping?) ==>
          id !in w.sent)
    && (forall id :: id in w.futures && w.futures[id].phase.Sent? ==> id in w.sent)
    && (forall ch :: ch in w.sent ==>
          ch in w.futures && (w.futures[ch].phase == Sent(w.sent[ch]) || w.futures[ch].phase == Done(w.sent[ch]))
          && Answered(w.answers, w.futures[ch].key, w.sent[ch]))
  }

  /** The channel a waiter waits on belongs to a resolver of the same key that is still at work, has
      sent its value, or was cancelled. */
  predicate Attended(w: World, key: Ip, ch: Channel) {
    ch in w.futures && w.futures[ch].key == key
    && (ch in w.sent || w.futures[ch].phase.Resolving? || w.futures[ch].phase.Published?
        || w.futures[ch].phase.Dropping? || w.futures[ch].phase.Gone?)
  }

  ghost predicate Waiters(w: World) {
    forall id :: id in w.futures && w.futures[id].phase.Waiting? ==>
      Attended(w, w.futures[id].key, w.futures[id].phase.ch)
  }

  ghost predicate Inv(g: Config, w: World) {
    Sound(g, w.cache) && SingleFlight(w.cache, w.futures) && Backed(g, w.cache, w.answers) && Resolvers(w) && Waiters(w)
  }

  /** A cache operation that only drops resolved slots keeps everything. */
  lemma TrimKeeps(g: Config, w: World, after: Cache)
    requires Inv(g, w) && Trimmed(w.cache, after)
    ensures Inv(g, w.(cache := after))
  {
    assert after.entries.Keys <= w.cache.entries.Keys;
    SubsetSize(after.entries.Keys, w.cache.entries.Keys);
  }

  /** What a call decides, in terms of the slots. */
  lemma DecideMeaning(g: Config, c: Cache, key: Ip, now: int, made: Channel)
    requires ValidConfig(g) && Sound(g, c)
    ensures var d := Decide(c, key, now, g.capacity, made);
            Sound(g, d.0)
            && match d.1
               case Hit(v) =>
                 Trimmed(c, d.0) && key in c.entries && c.entries[key].Resolved? && c.entries[key].value == v
                 && now < c.entries[key].expiresAt
               case Wait(ch) => Trimmed(c, d.0) && key in c.entries && c.entries[key] == Pending(ch)
               case Uncached =>
                 Trimmed(c, d.0) && d.0.expirations == {} && |d.0.entries| == g.capacity
                 && (key in c.entries ==> c.entries[key].Resolved? && c.entries[key].expiresAt <= now)
               case Resolve(ch) =>
                 ch == made && key in d.0.entries
                 && (key in c.entries ==> c.entries[key].Resolved? && c.entries[key].expiresAt <= now)
                 && d.0.entries[key] == Pending(made)
                 && (forall k :: k != key && k in d.0.entries ==> k in c.entries && d.0.entries[k] == c.entries[k])
                 && (forall k :: k != key && k in c.entries && c.entries[k].Pending? ==> k in d.0.entries)
  {
    hide EvictExpired, MakeRoom, Consistent;
    var swept := EvictExpired(c, now);
    EvictExpiredTrims(c, now);
    SubsetSize(swept.entries.Keys, c.entries.Keys);
    MakeRoomKeepsPending(swept, key, g.capacity);
    AddPending(MakeRoom(swept, key, g.capacity), key, made);
  }

  lemma AddPending(room: Cache, key: Ip, made: Channel)
    requires Consistent(room) && key !in room.entries
    ensures var c := room.(entries := room.entries[key := Pending(made)]);
            Consistent(c) && |c.entries| == |room.entries| + 1
  {
  }

  /** A new future disturbs no resolver and no waiter. */
  lemma NewFutureOthers(w: World, f: Future, after: Cache)
    requires Resolvers(w) && Waiters(w)
    requires f.phase.Returned? || f.phase.Direct? || f.phase.Resolving?
             || (f.phase.Waiting? && Attended(w, f.key, f.phase.ch))
    ensures var w' := w.(cache := after, futures := w.futures[w.next := f], next := w.next + 1);
            Resolvers(w') && Waiters(w')
  {
    hide Answered;
    var w' := w.(cache := after, futures := w.futures[w.next := f], next := w.next + 1);
    assert forall key, ch :: Attended(w, key, ch) ==> Attended(w', key, ch);
  }

  /** A new future that does not resolve changes nothing else. */
  lemma NewFutureKeeps(g: Config, w: World, f: Future)
    requires Inv(g, w)
    requires f.phase.Returned? || f.phase.Direct? || (f.phase.Waiting? && Attended(w, f.key, f.phase.ch))
    ensures Inv(g, w.(futures := w.futures[w.next := f], next := w.next + 1))
  {
    hide Sound, Backed, Waiters, Attended;
    NewFutureOthers(w, f, w.cache);
  }

  lemma NewResolverKeeps(g: Config, w: World, key: Ip, after: Cache)
    requires Inv(g, w) && Sound(g, after) && (key in w.cache.entries ==> w.cache.entries[key].Resolved?)
    requires key in after.entries && after.entries[key] == Pending(w.next)
    requires forall k :: k != key && k in after.entries ==>
               k in w.cache.entries && after.entries[k] == w.cache.entries[k]
    requires forall k :: k != key && k in w.cache.entries && w.cache.entries[k].Pending? ==> k in after.entries
    ensures Inv(g, w.(cache := after, futures := w.futures[w.next := Future(key, Resolving)], next := w.next + 1))
  {
    hide Sound, Waiters, Attended;
    NewFutureOthers(w, Future(key, Resolving), after);
  }

  lemma CallKeeps(g: Config, w: World, e: Event)
    requires ValidConfig(g) && Inv(g, w) && e.Call?
    ensures Inv(g, Step(g, w, e))
  {
    hide Inv, Sound, SingleFlight, Backed, Resolvers, Waiters, Decide, Trimmed;
    InvParts(g, w);
    DecideMeaning(g, w.cache, e.key, e.now, w.next);
    var d := Decide(w.cache, e.key, e.now, g.capacity, w.next);
    match d.1
    case Resolve(_) => NewResolverKeeps(g, w, e.key, d.0);
    case Wait(ch) =>
      TrimKeeps(g, w, d.0);
      PendingIsAttended(g, w, e.key);
      NewFutureKeeps(g, w.(cache := d.0), Future(e.key, Waiting(ch)));
    case _ =>
      TrimKeeps(g, w, d.0);
      NewFutureKeeps(g, w.(cache := d.0), Future(e.key, PhaseOf(d.1)));
  }

  lemma InvParts(g: Config, w: World)
    requires Inv(g, w)
    ensures Sound(g, w.cache)
  {
  }

  lemma PendingIsAttended(g: Config, w: World, key: Ip)
    requires Inv(g, w) && key in w.cache.entries && w.cache.entries[key].Pending?
    ensures Attended(w, key, w.cache.entries[key].ch)
  {
  }

  lemma CompleteKeeps(g: Config, w: World, e: Event)
    requires Inv(g, w) && e.Complete?
    ensures Inv(g, Step(g, w, e))
  {
    hide SingleFlight, Backed, Resolvers, Waiters, Consistent, Publish;
    if In(w, e.id, Resolving) {
      ResolverSlot(g, w, e.id);
      PublishKeepsConsistent(w.cache, w.futures[e.id].key, e.value, e.at + Ttl(g, e.value));
      CompletedFutures(g, w, e.id, e.value, e.at);
    }
  }

  lemma ResolverSlot(g: Config, w: World, id: nat)
    requires Inv(g, w) && In(w, id, Resolving)
    ensures w.futures[id].key in w.cache.entries && w.cache.entries[w.futures[id].key] == Pending(id)
  {
  }

  /** The part of a completion that concerns the futures. */
  lemma CompletedFutures(g: Config, w: World, id: nat, value: Option<Client>, at: int)
    requires Inv(g, w) && In(w, id, Resolving)
    ensures var key := w.futures[id].key;
            var w' := Move(w, id, Published(value)).(cache := Publish(w.cache, key, value, at + Ttl(g, value)),
                                                     answers := w.answers + {Answer(key, value, at)});
            SingleFlight(w'.cache, w'.futures) && Backed(g, w'.cache, w'.answers) && Resolvers(w') && Waiters(w')
  {
    hide Sound, Resolvers, Waiters;
    CompletedOthers(w, id, value, at, Publish(w.cache, w.futures[id].key, value, at + Ttl(g, value)));
  }

  lemma CompletedOthers(w: World, id: nat, value: Option<Client>, at: int, after: Cache)
    requires Resolvers(w) && Waiters(w) && In(w, id, Resolving)
    ensures var a := Answer(w.futures[id].key, value, at);
            var w' := Move(w, id, Published(value)).(cache := after, answers := w.answers + {a});
            Resolvers(w') && Waiters(w')
  {
    hide Answered;
    var key := w.futures[id].key;
    var w' := Move(w, id, Published(value)).(cache := after, answers := w.answers + {Answer(key, value, at)});
    AnswersGrow(w, w', Answer(key, value, at));
  }

  /** Publishing over the key's own pending slot keeps the index exact. */
  lemma PublishKeepsConsistent(c: Cache, key: Ip, value: Option<Client>, t: int)
    requires Consistent(c) && key in c.entries && c.entries[key].Pending?
    ensures Consistent(Publish(c, key, value, t)) && |Publish(c, key, value, t).entries| == |c.entries|
  {
  }

  lemma AnswersGrow(w: World, w': World, a: Answer)
    requires w.answers <= w'.answers && a in w'.answers
    ensures Answered(w'.answers, a.key, a.value)
    ensures forall key, value :: Answered(w.answers, key, value) ==> Answered(w'.answers, key, value)
  {
  }

  /** A step of one future that is no waiter, after which channels are attended as before. */
  lemma MoveKeeps(g: Config, w: World, id: nat, phase: Phase)
    requires Inv(g, w) && id in w.futures && !w.futures[id].phase.Resolving? && id !in w.sent
    requires !w.futures[id].phase.Published? && !w.futures[id].phase.Sent?
    requires phase.Gone?
             || (!w.futures[id].phase.Dropping? && !w.futures[id].phase.Gone? && (phase.Direct? || phase.Done?))
    requires forall x :: x in w.futures && w.futures[x].phase.Waiting? && w.futures[x].phase.ch == id ==> phase.Gone?
    ensures Inv(g, Move(w, id, phase))
  {
    hide Sound, Backed, Answered;
  }

  /** Nobody waits on a future that never was a resolver. */
  lemma NoWaitersOn(g: Config, w: World, id: nat)
    requires Inv(g, w) && id in w.futures
    requires w.futures[id].phase.Waiting? || w.futures[id].phase.Direct? || w.futures[id].phase.Returned?
    ensures id !in w.sent
    ensures forall x :: x in w.futures && w.futures[x].phase.Waiting? ==> w.futures[x].phase.ch != id
  {
  }

  lemma BroadcastKeeps(g: Config, w: World, e: Event)
    requires Inv(g, w) && e.Broadcast?
    ensures Inv(g, Step(g, w, e))
  {
    hide Sound, Backed, Answered;
  }

  /** The guard of a finished lookup never touches the cache, whatever has happened to its key. */
  lemma FinishLeavesCache(g: Config, w: World, id: nat)
    requires Inv(g, w) && id in w.futures && !w.futures[id].phase.Resolving?
    ensures DropPending(w.cache, w.futures[id].key, id) == w.cache
  {
  }

  lemma FinishKeeps(g: Config, w: World, e: Event)
    requires Inv(g, w) && e.Finish?
    ensures Inv(g, Step(g, w, e))
  {
    hide Sound, Backed, Answered, DropPending;
    if e.id in w.futures && w.futures[e.id].phase.Sent? {
      FinishLeavesCache(g, w, e.id);
    }
  }

  lemma CancelResolverKeeps(g: Config, w: World, id: nat)
    requires Inv(g, w) && In(w, id, Resolving)
    ensures Inv(g, Move(w, id, Dropping).(cache := DropPending(w.cache, w.futures[id].key, id)))
  {
    hide SingleFlight, Backed, Resolvers, Waiters, Consistent;
    var key := w.futures[id].key;
    ResolverSlot(g, w, id);
    RemoveKeepsConsistent(w.cache, key);
    SubsetSize(Remove(w.cache, key).entries.Keys, w.cache.entries.Keys);
    CancelledFutures(g, w, id, Remove(w.cache, key));
  }

  lemma CancelledFutures(g: Config, w: World, id: nat, after: Cache)
    requires Inv(g, w) && In(w, id, Resolving)
    requires forall k :: k in after.entries <==> k in w.cache.entries && k != w.futures[id].key
    requires forall k :: k in after.entries ==> after.entries[k] == w.cache.entries[k]
    ensures var w' := Move(w, id, Dropping).(cache := after);
            SingleFlight(w'.cache, w'.futures) && Backed(g, w'.cache, w'.answers) && Resolvers(w') && Waiters(w')
  {
    hide Answered, Sound;
  }

  lemma CancelKeeps(g: Config, w: World, e: Event)
    requires Inv(g, w) && e.Cancel?
    ensures Inv(g, Step(g, w, e))
  {
    hide Inv;
    if e.id in w.futures {
      match w.futures[e.id].phase
      case Resolving => CancelResolverKeeps(g, w, e.id);
      case Waiting(_) => NoWaitersOn(g, w, e.id); MoveKeeps(g, w, e.id, Gone);
      case Direct => NoWaitersOn(g, w, e.id); MoveKeeps(g, w, e.id, Gone);
      case Returned(_) => NoWaitersOn(g, w, e.id); MoveKeeps(g, w, e.id, Gone);
      case _ =>
    }
  }

  lemma ReceiveKeeps(g: Config, w: World, e: Event)
    requires Inv(g, w) && e.Receive?
    ensures Inv(g, Step(g, w, e))
  {
    hide Inv, LiveSender;
    if e.id in w.futures && w.futures[e.id].phase.Waiting? {
      var phase := ReceivedPhase(w, w.futures[e.id].phase.ch);
      NoWaitersOn(g, w, e.id);
      if phase.Waiting? {
        assert Step(g, w, e) == w;
      } else {
        MoveKeeps(g, w, e.id, phase);
      }
    }
  }

  lemma OthersKeep(g: Config, w: World, e: Event)
    requires Inv(g, w) && (e.AnswerDirect? || e.ReleaseSender? || e.InvalidateKey? || e.ClearAll?)
    ensures Inv(g, Step(g, w, e))
  {
    hide Inv;
    match e
    case AnswerDirect(id, value) =>
      if In(w, id, Direct) {
        NoWaitersOn(g, w, id);
        MoveKeeps(g, w, id, Done(value));
      }
    case ReleaseSender(id) =>
      if In(w, id, Dropping) {
        DroppingSentNothing(g, w, id);
        MoveKeeps(g, w, id, Gone);
      }
    case InvalidateKey(key) =>
      ForgettingTrims(g, w, key);
      TrimKeeps(g, w, Invalidate(w.cache, key));
    case ClearAll =>
      ForgettingTrims(g, w, 0);
      TrimKeeps(g, w, Clear(w.cache));
  }

  lemma DroppingSentNothing(g: Config, w: World, id: nat)
    requires Inv(g, w) && In(w, id, Dropping)
    ensures id !in w.sent
  {
  }

  lemma ForgettingTrims(g: Config, w: World, key: Ip)
    requires Inv(g, w)
    ensures Trimmed(w.cache, Invalidate(w.cache, key)) && Trimmed(w.cache, Clear(w.cache))
  {
    hide SingleFlight, Backed, Resolvers, Waiters;
    RemoveKeepsConsistent(w.cache, key);
  }

  lemma StepKeepsInv(g: Config, w: World, e: Event)
    requires ValidConfig(g) && Inv(g, w)
    ensures Inv(g, Step(g, w, e))
  {
    hide Inv, Step;
    match e
    case Call(_, _) => CallKeeps(g, w, e);
    case Complete(_, _, _) => CompleteKeeps(g, w, e);
    case Broadcast(_) => BroadcastKeeps(g, w, e);
    case Finish(_) => FinishKeeps(g, w, e);
    case Receive(_) => ReceiveKeeps(g, w, e);
    case Cancel(_) => CancelKeeps(g, w, e);
    case _ => OthersKeep(g, w, e);
  }

  /** Every interleaving keeps the index exact, the size within capacity, and a slot pending exactly
      while its one live resolver is unpublished. */
  lemma {:induction false} RunKeepsInv(g: Config, events: seq<Event>)
    requires ValidConfig(g)
    ensures Inv(g, Run(g, events))
    decreases |events|
  {
    if events != [] {
      RunKeepsInv(g, events[..|events| - 1]);
      StepKeepsInv(g, Run(g, events[..|events| - 1]), events[|events| - 1]);
    }
  }

  lemma StepAnswers(g: Config, w: World, e: Event)
    ensures forall a :: a in Step(g, w, e).answers ==>
              a in w.answers
              || (e.Complete? && In(w, e.id, Resolving) && a == Answer(w.futures[e.id].key, e.value, e.at))
  {
  }

  /** Every answer on record is a completion of the run, for its resolver's key. */
  lemma {:induction false} AnswersAreCompletions(g: Config, events: seq<Event>, a: Answer)
    requires a in Run(g, events).answers
    ensures exists i :: 0 <= i < |events| && CompletesWith(g, events, i, a)
    decreases |events|
  {
    hide Step;
    var before, e := events[..|events| - 1], events[|events| - 1];
    StepAnswers(g, Run(g, before), e);
    if a in Run(g, before).answers {
      AnswersAreCompletions(g, before, a);
      var i :| 0 <= i < |before| && CompletesWith(g, before, i, a);
      assert events[..i] == before[..i];
      assert CompletesWith(g, events, i, a);
    } else {
      assert events[..|events| - 1] == before;
      assert CompletesWith(g, events, |events| - 1, a);
    }
  }

  /** Event `i` is a live resolver's completion for `a.key` with `a.value` at time `a.at`. */
  ghost predicate CompletesWith(g: Config, events: seq<Event>, i: nat, a: Answer)
    requires i < |events|
  {
    var e, w := events[i], Run(g, events[..i]);
    e.Complete? && In(w, e.id, Resolving) && a == Answer(w.futures[e.id].key, e.value, e.at)
  }

  /** A hit at `now` returns what the backend answered for that address at a completion of the run
      whose lifetime for that kind of answer has not passed. No assumption on the clock is needed. */
  lemma HitIsFresh(g: Config, events: seq<Event>, key: Ip, now: int) returns (i: nat, a: Answer)
    requires ValidConfig(g)
    requires var w := Run(g, events); Decide(w.cache, key, now, g.capacity, w.next).1.Hit?
    ensures i < |events| && CompletesWith(g, events, i, a)
    ensures var w := Run(g, events);
            a.key == key && Decide(w.cache, key, now, g.capacity, w.next).1 == Hit(a.value)
            && now < a.at + (if a.value.Some? then g.positiveTtl else g.negativeTtl)
  {
    hide Run, Decide, Inv, CompletesWith;
    RunKeepsInv(g, events);
    a := HitIsBacked(g, Run(g, events), key, now);
    AnswersAreCompletions(g, events, a);
    i :| i < |events| && CompletesWith(g, events, i, a);
  }

  lemma HitIsBacked(g: Config, w: World, key: Ip, now: int) returns (a: Answer)
    requires ValidConfig(g) && Inv(g, w) && Decide(w.cache, key, now, g.capacity, w.next).1.Hit?
    ensures a in w.answers && a.key == key && now < a.at + Ttl(g, a.value)
    ensures Decide(w.cache, key, now, g.capacity, w.next).1 == Hit(a.value)
  {
    hide Decide, Trimmed, Consistent;
    DecideMeaning(g, w.cache, key, now, w.next);
    var slot := w.cache.entries[key];
    a := Answer(key, slot.value, slot.expiresAt - Ttl(g, slot.value));
  }

  /** While a resolver is at work every other lookup of its address waits for it, at any time; once it
      has completed they hit its answer until that expires. */
  lemma LookupsCollapse(g: Config, events: seq<Event>, id: nat, value: Option<Client>, at: int, now: int, made: Channel)
    requires ValidConfig(g) && In(Run(g, events), id, Resolving)
    ensures var w := Run(g, events);
            var after := Step(g, w, Complete(id, value, at));
            Decide(w.cache, w.futures[id].key, now, g.capacity, made).1 == Wait(id)
            && (Decide(after.cache, w.futures[id].key, now, g.capacity, made).1 == Hit(value)
                <==> now < at + (if value.Some? then g.positiveTtl else g.negativeTtl))
  {
    hide Run, Inv, EvictExpired, Step, Sound;
    var w := Run(g, events);
    RunKeepsInv(g, events);
    var after := Step(g, w, Complete(id, value, at));
    StepKeepsInv(g, w, Complete(id, value, at));
    ResolverSlot(g, w, id);
    CompletedSlot(g, w, id, value, at);
    InvParts(g, w);
    InvParts(g, after);
    DecideMeaning(g, w.cache, w.futures[id].key, now, made);
    DecideMeaning(g, after.cache, w.futures[id].key, now, made);
  }

  lemma CompletedSlot(g: Config, w: World, id: nat, value: Option<Client>, at: int)
    requires In(w, id, Resolving)
    ensures var after := Step(g, w, Complete(id, value, at)).cache;
            var key := w.futures[id].key;
            key in after.entries && after.entries[key] == Resolved(value, at + Ttl(g, value))
  {
  }

  /** A lookup starts as its address's slot says: it returns a fresh answer, waits for the resolver at
      work, and otherwise resolves or, with the map full of pending slots, goes to the backend. */
  lemma LookupStarts(g: Config, events: seq<Event>, key: Ip, now: int)
    requires ValidConfig(g)
    ensures var w := Run(g, events);
            var w' := Step(g, w, Call(key, now));
            var young := key in w.cache.entries && w.cache.entries[key].Resolved?
                          && now < w.cache.entries[key].expiresAt;
            var pending := key in w.cache.entries && w.cache.entries[key].Pending?;
            w.next !in w.futures && w.next in w'.futures && w'.futures[w.next].key == key
            && w'.futures == w.futures[w.next := w'.futures[w.next]]
            && var phase := w'.futures[w.next].phase;
               (young ==> phase == Returned(w.cache.entries[key].value))
               && (pending ==> phase == Waiting(w.cache.entries[key].ch))
               && (!young && !pending ==>
                     phase == Resolving
                     || (phase == Direct && |w'.cache.entries| == g.capacity && w'.cache.expirations == {}))
  {
    hide Run, Decide, Inv;
    var w := Run(g, events);
    RunKeepsInv(g, events);
    InvParts(g, w);
    NextIsNew(g, w);
    DecideMeaning(g, w.cache, key, now, w.next);
  }

  lemma NextIsNew(g: Config, w: World)
    requires Inv(g, w)
    ensures w.next !in w.futures
  {
  }

  /** A resolver left alone returns what the backend gave it, and so does a direct lookup; a waiter
      takes what was sent, or goes to the backend itself once nobody can send any more. */
  lemma LookupFinishes(g: Config, events: seq<Event>, id: nat, value: Option<Client>, at: int)
    requires ValidConfig(g)
    ensures var w := Run(g, events);
            (In(w, id, Resolving) ==>
               In(Step(g, Step(g, Step(g, w, Complete(id, value, at)), Broadcast(id)), Finish(id)), id, Done(value)))
            && (In(w, id, Direct) ==> In(Step(g, w, AnswerDirect(id, value)), id, Done(value)))
            && (id in w.futures && w.futures[id].phase.Waiting? ==>
                  var ch, after := w.futures[id].phase.ch, Step(g, w, Receive(id));
                  (ch in w.sent ==> In(after, id, Done(w.sent[ch])))
                  && (ch !in w.sent && !LiveSender(w, ch) ==> In(after, id, Direct))
                  && In(Step(g, w, Cancel(id)), id, Gone))
  {
    hide Run;
  }

  /** Invalidation forgets a resolved slot together with its deadline, so that no lookup at any time
      hits before the address is resolved again; a pending slot, every other slot and every future
      are left alone. */
  lemma InvalidateForgets(g: Config, events: seq<Event>, key: Ip, now: int, made: Channel)
    requires ValidConfig(g)
    ensures var w := Run(g, events);
            var w' := Step(g, w, InvalidateKey(key));
            !Decide(w'.cache, key, now, g.capacity, made).1.Hit?
            && (forall k :: k in w'.cache.entries
                            <==> k in w.cache.entries && (k == key ==> w.cache.entries[k].Pending?))
            && (forall k :: k in w'.cache.entries ==> w'.cache.entries[k] == w.cache.entries[k])
            && (forall x :: x in w'.cache.expirations <==> x in w.cache.expirations && x.1 != key)
            && w'.(cache := w.cache) == w
  {
    hide Run, Decide, Inv;
    var w := Run(g, events);
    RunKeepsInv(g, events);
    StepKeepsInv(g, w, InvalidateKey(key));
    InvParts(g, w);
    InvParts(g, Step(g, w, InvalidateKey(key)));
    DecideMeaning(g, Step(g, w, InvalidateKey(key)).cache, key, now, made);
    forall x | x in w.cache.expirations
      ensures x == (x.0, x.1)
    {
    }
  }

  /** Clearing forgets every resolved slot, so that no address hits at any time; pending slots and
      futures are left alone. */
  lemma ClearForgets(g: Config, events: seq<Event>, key: Ip, now: int, made: Channel)
    requires ValidConfig(g)
    ensures var w := Run(g, events);
            var w' := Step(g, w, ClearAll);
            !Decide(w'.cache, key, now, g.capacity, made).1.Hit?
            && (forall k :: k in w'.cache.entries <==> k in w.cache.entries && w.cache.entries[k].Pending?)
            && (forall k :: k in w'.cache.entries ==> w'.cache.entries[k] == w.cache.entries[k])
            && w'.cache.expirations == {} && w'.(cache := w.cache) == w
  {
    hide Run, Decide, Inv;
    var w := Run(g, events);
    RunKeepsInv(g, events);
    StepKeepsInv(g, w, ClearAll);
    InvParts(g, Step(g, w, ClearAll));
    DecideMeaning(g, Step(g, w, ClearAll).cache, key, now, made);
  }

  /** What a lookup takes out of the cache besides its own key's stale slot: expired slots, and at most
      one that is not expired, when the map is full, and then the one with the earliest deadline. */
  lemma DecideEvicts(g: Config, c: Cache, key: Ip, now: int, made: Channel, k: Ip, j: Ip)
    requires ValidConfig(g) && Sound(g, c)
    requires var after := Decide(c, key, now, g.capacity, made).0;
             k != key && k in c.entries && k !in after.entries
             && !(c.entries[k].Resolved? && c.entries[k].expiresAt <= now)
    ensures var d := Decide(c, key, now, g.capacity, made);
            c.entries[k].Resolved? && |c.entries| == g.capacity && (d.1.Resolve? || d.1.Uncached?)
            && (j != key && j in c.entries && j !in d.0.entries && j != k ==>
                  c.entries[j].Resolved? && c.entries[j].expiresAt <= now)
            && (j in d.0.entries && d.0.entries[j].Resolved? ==>
                  Leq((c.entries[k].expiresAt, k), (d.0.entries[j].expiresAt, j)))
  {
    hide EvictExpired;
    var swept := EvictExpired(c, now);
    EvictExpiredTrims(c, now);
    SubsetSize(swept.entries.Keys, c.entries.Keys);
    RemoveKeepsConsistent(swept, key);
    SubsetSize(Remove(swept, key).entries.Keys, swept.entries.Keys);
  }

  /** A lookup sweeps first: it leaves no expired slot if there were at most 64, and at least 64 fewer
      otherwise. */
  lemma DecideSweeps(g: Config, c: Cache, key: Ip, now: int, made: Channel)
    requires ValidConfig(g) && Sound(g, c)
    ensures var n := |Expired(c.expirations, now)|;
            var n' := |Expired(Decide(c, key, now, g.capacity, made).0.expirations, now)|;
            if n <= 64 then n' == 0 else n' <= n - 64
  {
    hide Swept, Decide, Sound, EvictExpired;
    SweepMeaning(c.expirations, now, SWEEP_BUDGET);
    DecideShrinks(g, c, key, now, made);
    var gone, rest := Swept(c.expirations, now, SWEEP_BUDGET), Decide(c, key, now, g.capacity, made).0.expirations;
    var before, after := Expired(c.expirations, now), Expired(rest, now);
    assert after <= before - gone;
    SubsetSize(after, before - gone);
    assert |before - gone| == |before| - |gone|;
  }

  /** After its sweep a lookup adds no deadline. */
  lemma DecideShrinks(g: Config, c: Cache, key: Ip, now: int, made: Channel)
    ensures Decide(c, key, now, g.capacity, made).0.expirations
            <= c.expirations - Swept(c.expirations, now, SWEEP_BUDGET)
  {
    hide Swept, Keys;
  }

  /** At most one resolver per address is at work, and it owns the address's slot. */
  lemma OneResolverPerKey(g: Config, events: seq<Event>, x: nat, y: nat)
    requires ValidConfig(g)
    requires var w := Run(g, events); In(w, x, Resolving) && In(w, y, Resolving) && w.futures[x].key == w.futures[y].key
    ensures x == y
  {
    RunKeepsInv(g, events);
  }

  /** A waiter's receive gives its own resolver's value, which is a backend answer for the waiter's
      own address; or, only after that resolver was cancelled, a direct lookup. */
  lemma WaiterGetsResolversValue(g: Config, events: seq<Event>, id: nat)
    requires ValidConfig(g)
    requires var w := Run(g, events); id in w.futures && w.futures[id].phase.Waiting?
    ensures var w := Run(g, events);
            var ch := w.futures[id].phase.ch;
            match ReceivedPhase(w, ch)
            case Done(v) =>
              ch in w.sent && w.sent[ch] == v && ch in w.futures
              && (w.futures[ch].phase == Sent(v) || w.futures[ch].phase == Done(v))
              && w.futures[ch].key == w.futures[id].key && Answered(w.answers, w.futures[id].key, v)
            case Direct => ch !in w.sent && exists i :: 0 <= i < |events| && CancelsResolver(g, events, i, ch)
            case _ => true
  {
    hide Run, CancelsResolver;
    RunKeepsInv(g, events);
    var w := Run(g, events);
    if In(w, w.futures[id].phase.ch, Gone) {
      AbandonedWasCancelled(g, events, id);
    }
  }

  /** Event `i` cancels the resolver of channel `ch` while it is at work. */
  ghost predicate CancelsResolver(g: Config, events: seq<Event>, i: nat, ch: Channel)
    requires i < |events|
  {
    events[i] == Cancel(ch) && In(Run(g, events[..i]), ch, Resolving)
  }

  /** Future `id` waits on a channel whose future has given up, or is about to. */
  predicate Abandoned(w: World, id: nat) {
    id in w.futures && w.futures[id].phase.Waiting?
    && var ch := w.futures[id].phase.ch;
       In(w, ch, Gone) || In(w, ch, Dropping)
  }

  /** A waiter is abandoned only by the cancellation of its resolver. */
  lemma AbandonedBefore(g: Config, w: World, e: Event, id: nat)
    requires ValidConfig(g) && Inv(g, w) && Abandoned(Step(g, w, e), id)
    ensures var ch := Step(g, w, e).futures[id].phase.ch;
            (Abandoned(w, id) && w.futures[id].phase.ch == ch) || (e == Cancel(ch) && In(w, ch, Resolving))
  {
    hide Inv, Sound, Decide, LiveSender, Trimmed;
    match e
    case Call(key, now) =>
      InvParts(g, w);
      DecideMeaning(g, w.cache, key, now, w.next);
      if key in w.cache.entries && w.cache.entries[key].Pending? {
        PendingIsResolving(g, w, key);
      }
    case Cancel(x) =>
      if x in w.futures && (w.futures[x].phase.Waiting? || w.futures[x].phase.Direct? || w.futures[x].phase.Returned?) {
        NoWaitersOn(g, w, x);
      }
    case _ =>
  }

  lemma PendingIsResolving(g: Config, w: World, key: Ip)
    requires Inv(g, w) && key in w.cache.entries && w.cache.entries[key].Pending?
    ensures In(w, w.cache.entries[key].ch, Resolving)
  {
  }

  lemma {:induction false} AbandonedWasCancelled(g: Config, events: seq<Event>, id: nat)
    requires ValidConfig(g) && Abandoned(Run(g, events), id)
    ensures var ch := Run(g, events).futures[id].phase.ch;
            exists i :: 0 <= i < |events| && CancelsResolver(g, events, i, ch)
    decreases |events|
  {
    hide Step, Inv;
    var before, e := events[..|events| - 1], events[|events| - 1];
    var w, ch := Run(g, before), Run(g, events).futures[id].phase.ch;
    RunKeepsInv(g, before);
    AbandonedBefore(g, w, e, id);
    if e == Cancel(ch) && In(w, ch, Resolving) {
      assert CancelsResolver(g, events, |events| - 1, ch);
    } else {
      AbandonedWasCancelled(g, before, id);
      var i :| 0 <= i < |before| && CancelsResolver(g, before, i, ch);
      assert events[..i] == before[..i];
      assert CancelsResolver(g, events, i, ch);
    }
  }

  /** No waiter is stuck: if its receive cannot return yet, its resolver is alive, and the resolver's
      own next steps make it return, whether it completes or is cancelled. */
  lemma NoStuckWaiter(g: Config, events: seq<Event>, id: nat, value: Option<Client>, at: int)
    requires ValidConfig(g)
    requires var w := Run(g, events);
             id in w.futures && w.futures[id].phase.Waiting? && !CanReceive(w, w.futures[id].phase.ch)
    ensures var w := Run(g, events);
            var ch := w.futures[id].phase.ch;
            ch in w.futures
            && match w.futures[ch].phase
               case Resolving =>
                 CanReceive(Step(g, Step(g, w, Complete(ch, value, at)), Broadcast(ch)), ch)
                 && CanReceive(Step(g, Step(g, w, Cancel(ch)), ReleaseSender(ch)), ch)
               case Published(_) => CanReceive(Step(g, w, Broadcast(ch)), ch)
               case Dropping => CanReceive(Step(g, w, ReleaseSender(ch)), ch)
               case _ => false
  {
    hide Run;
    RunKeepsInv(g, events);
    var w := Run(g, events);
    var ch := w.futures[id].phase.ch;
    if In(w, ch, Resolving) {
      CancelledChannelCloses(g, w, ch);
    } else if In(w, ch, Dropping) {
      ReleasedChannelCloses(g, w, ch);
    }
  }

  lemma ReleasedChannelCloses(g: Config, w: World, ch: Channel)
    requires Inv(g, w) && In(w, ch, Dropping)
    ensures !LiveSender(Step(g, w, ReleaseSender(ch)), ch)
  {
  }

  lemma CancelledChannelCloses(g: Config, w: World, ch: Channel)
    requires Inv(g, w) && In(w, ch, Resolving)
    ensures !LiveSender(Step(g, Step(g, w, Cancel(ch)), ReleaseSender(ch)), ch)
  {
  }
}
