/** Per-request processing gates held through weak pointers: every interleaving of arrivals,
    acquisitions, cancellations, releases and late cleanups. */
module RequestGate {

  /** A request key; keys of all shards are treated alike. */
  type Key = nat

  /** An allocation of a gate. Its address is not reused while a weak pointer to it exists. */
  type Gate = nat

  type Task = nat

  /** The map part of locking a request, under the shard lock: join the gate in the map if it still
      has a strong reference, else put a new one there. */
  function Entered(slots: map<Key, Gate>, key: Key, live: set<Gate>, made: Gate): (r: (map<Key, Gate>, Gate)) {
    if key in slots && slots[key] in live then (slots, slots[key]) else (slots[key := made], made)
  }

  /** The cleanup of a gate removes the map's weak pointer only if it is that gate's. */
  function Cleaned(slots: map<Key, Gate>, key: Key, gate: Gate): (r: map<Key, Gate>) {
    if key in slots && slots[key] == gate then slots - {key} else slots
  }

  class RequestShard {
    var slots: map<Key, Gate>

    constructor ()
      ensures slots == map[]
    {
      slots := map[];
    }

    method Enter(key: Key, live: set<Gate>, made: Gate) returns (gate: Gate)
      modifies this
      ensures (slots, gate) == Entered(old(slots), key, live, made)
    {
      if key in slots {
        var weak := slots[key];
        if weak in live {
          return weak;
        }
      }
      slots := slots[key := made];
      return made;
    }

    method Cleanup(key: Key, gate: Gate)
      modifies this
      ensures slots == Cleaned(old(slots), key, gate)
    {
      if key in slots && slots[key] == gate {
        slots := slots - {key};
      }
    }
  }

  /** A task that holds a strong reference to a gate: waiting for its lock, holding it, or past
      unlocking and about to let go. */
  datatype Phase = Waiting | Holding | Leaving

  datatype Stake = Stake(key: Key, gate: Gate, phase: Phase)

  datatype Event =
    | Enter(task: Task, key: Key)
    | Acquire(task: Task)
    | Cancel(task: Task)
    | Unlock(task: Task)
    | Leave(task: Task)
    | Cleanup(gate: Gate)

  /** The map, the tasks with their references, the key each gate was made for, and the gates whose
      last reference is gone but whose cleanup has not run yet. */
  datatype World = World(slots: map<Key, Gate>, stakes: map<Task, Stake>, keyOf: map<Gate, Key>, dying: set<Gate>,
                         next: Gate)

  const INIT := World(map[], map[], map[], {}, 0)

  /** Gates with a strong reference. */
  function Live(stakes: map<Task, Stake>): (r: set<Gate>)
    ensures forall t :: t in stakes ==> stakes[t].gate in r
    ensures forall g :: g in r ==> exists t :: t in stakes && stakes[t].gate == g
  {
    set t | t in stakes :: stakes[t].gate
  }

  predicate Locked(stakes: map<Task, Stake>, gate: Gate) {
    exists t :: t in stakes && stakes[t].gate == gate && stakes[t].phase == Holding
  }

  /** Drop one strong reference; with the last one the gate starts dying. */
  function LetGo(w: World, task: Task): (r: World)
    requires task in w.stakes
  {
    var gate, rest := w.stakes[task].gate, w.stakes - {task};
    w.(stakes := rest, dying := if gate in Live(rest) then w.dying else w.dying + {gate})
  }

  function Step(w: World, e: Event): (r: World)
  {
    match e
    case Enter(task, key) =>
      if task in w.stakes then w
      else
        var (slots, gate) := Entered(w.slots, key, Live(w.stakes), w.next);
        World(slots, w.stakes[task := Stake(key, gate, Waiting)],
              if gate == w.next then w.keyOf[gate := key] else w.keyOf, w.dying, w.next + 1)
    case Acquire(task) =>
      if task in w.stakes && w.stakes[task].phase.Waiting? && !Locked(w.stakes, w.stakes[task].gate)
      then w.(stakes := w.stakes[task := w.stakes[task].(phase := Holding)]) else w
    case Cancel(task) => if task in w.stakes && w.stakes[task].phase.Waiting? then LetGo(w, task) else w
    case Unlock(task) =>
      if task in w.stakes && w.stakes[task].phase.Holding?
      then w.(stakes := w.stakes[task := w.stakes[task].(phase := Leaving)]) else w
    case Leave(task) => if task in w.stakes && w.stakes[task].phase.Leaving? then LetGo(w, task) else w
    case Cleanup(gate) =>
      if gate in w.dying && gate in w.keyOf
      then w.(slots := Cleaned(w.slots, w.keyOf[gate], gate), dying := w.dying - {gate}) else w
  }

  function Run(events: seq<Event>): (r: World)
    decreases |events|
  {
    if events == [] then INIT else Step(Run(events[..|events| - 1]), events[|events| - 1])
  }

  /** Every referenced gate is the one in the map for its key. */
  predicate Registered(w: World) {
    forall t :: t in w.stakes ==>
      var s := w.stakes[t];
      s.gate in w.keyOf && w.keyOf[s.gate] == s.key && s.key in w.slots && w.slots[s.key] == s.gate
  }

  predicate Numbered(w: World) {
    && (forall g :: g in w.keyOf ==> g < w.next)
    && (forall g :: g in w.dying ==> g in w.keyOf && g !in Live(w.stakes))
  }

  /** Every gate in the map is referenced or about to be cleaned up. */
  predicate NoLeak(w: World) {
    forall k :: k in w.slots ==>
      w.slots[k] in w.keyOf && w.keyOf[w.slots[k]] == k && (w.slots[k] in Live(w.stakes) || w.slots[k] in w.dying)
  }

  predicate Exclusive(stakes: map<Task, Stake>) {
    forall x, y :: x in stakes && y in stakes && x != y && stakes[x].phase.Holding? && stakes[y].phase.Holding? ==>
      stakes[x].gate != stakes[y].gate
  }

  predicate Inv(w: World) {
    Registered(w) && Numbered(w) && NoLeak(w) && Exclusive(w.stakes)
  }

  lemma EnterKeeps(w: World, task: Task, key: Key)
    requires Inv(w)
    ensures Inv(Step(w, Enter(task, key)))
  {
    hide Live, Inv;
    if task !in w.stakes {
      if key in w.slots && w.slots[key] in Live(w.stakes) {
        JoinKeeps(w, task, key);
      } else {
        MakeKeeps(w, task, key);
      }
    }
  }

  /** Joining the gate in the map. */
  lemma JoinKeeps(w: World, task: Task, key: Key)
    requires Inv(w) && task !in w.stakes && key in w.slots && w.slots[key] in Live(w.stakes)
    ensures w.slots[key] != w.next
    ensures Inv(w.(stakes := w.stakes[task := Stake(key, w.slots[key], Waiting)], next := w.next + 1))
  {
    hide Live;
    LiveSnoc(w.stakes, task, Stake(key, w.slots[key], Waiting));
  }

  /** Making a gate, in place of one that nobody references any more. */
  lemma MakeKeeps(w: World, task: Task, key: Key)
    requires Inv(w) && task !in w.stakes && !(key in w.slots && w.slots[key] in Live(w.stakes))
    ensures Inv(World(w.slots[key := w.next], w.stakes[task := Stake(key, w.next, Waiting)],
                      w.keyOf[w.next := key], w.dying, w.next + 1))
  {
    hide Live;
    LiveSnoc(w.stakes, task, Stake(key, w.next, Waiting));
    forall t | t in w.stakes
      ensures w.stakes[t].key != key
    {
      StakeIsLive(w.stakes, t);
    }
  }

  lemma LiveSnoc(stakes: map<Task, Stake>, task: Task, s: Stake)
    requires task !in stakes
    ensures Live(stakes[task := s]) == Live(stakes) + {s.gate}
  {
    var after := stakes[task := s];
    assert after[task].gate in Live(after);
    forall g | g in Live(stakes)
      ensures g in Live(after)
    {
      var t :| t in stakes && stakes[t].gate == g;
      assert after[t].gate == g;
    }
  }

  /** Changing only a task's phase keeps the references. */
  lemma SameLive(w: World, task: Task, phase: Phase)
    requires task in w.stakes
    ensures Live(w.stakes[task := w.stakes[task].(phase := phase)]) == Live(w.stakes)
  {
    var after := w.stakes[task := w.stakes[task].(phase := phase)];
    assert after[task].gate == w.stakes[task].gate;
    forall g | g in Live(w.stakes)
      ensures g in Live(after)
    {
      var t :| t in w.stakes && w.stakes[t].gate == g;
      assert after[t].gate == g;
    }
  }

  lemma PhaseKeeps(w: World, task: Task, phase: Phase)
    requires Inv(w) && task in w.stakes
    requires phase.Leaving? || (phase.Holding? && !Locked(w.stakes, w.stakes[task].gate))
    ensures Inv(w.(stakes := w.stakes[task := w.stakes[task].(phase := phase)]))
  {
    SameLive(w, task, phase);
    hide Live;
  }

  lemma LetGoKeeps(w: World, task: Task)
    requires Inv(w) && task in w.stakes
    ensures Inv(LetGo(w, task))
  {
    var w' := LetGo(w, task);
    forall g | g in Live(w.stakes) && g != w.stakes[task].gate
      ensures g in Live(w'.stakes)
    {
      var t :| t in w.stakes && w.stakes[t].gate == g;
      assert w'.stakes[t].gate == g;
    }
    forall g | g in Live(w'.stakes)
      ensures g in Live(w.stakes)
    {
      var t :| t in w'.stakes && w'.stakes[t].gate == g;
      assert w.stakes[t].gate == g;
    }
  }

  lemma CleanupKeeps(w: World, gate: Gate)
    requires Inv(w)
    ensures Inv(Step(w, Cleanup(gate)))
  {
  }

  lemma StakeIsLive(stakes: map<Task, Stake>, t: Task)
    requires t in stakes
    ensures stakes[t].gate in Live(stakes)
  {
  }

  lemma StepKeepsInv(w: World, e: Event)
    requires Inv(w)
    ensures Inv(Step(w, e))
  {
    hide Inv;
    match e
    case Enter(task, key) => EnterKeeps(w, task, key);
    case Acquire(task) =>
      if task in w.stakes && w.stakes[task].phase.Waiting? && !Locked(w.stakes, w.stakes[task].gate) {
        PhaseKeeps(w, task, Holding);
      }
    case Unlock(task) =>
      if task in w.stakes && w.stakes[task].phase.Holding? {
        PhaseKeeps(w, task, Leaving);
      }
    case Cancel(task) =>
      if task in w.stakes {
        LetGoKeeps(w, task);
      }
    case Leave(task) =>
      if task in w.stakes {
        LetGoKeeps(w, task);
      }
    case Cleanup(gate) => CleanupKeeps(w, gate);
  }

  lemma {:induction false} RunKeepsInv(events: seq<Event>)
    ensures Inv(Run(events))
    decreases |events|
  {
    if events != [] {
      RunKeepsInv(events[..|events| - 1]);
      StepKeepsInv(Run(events[..|events| - 1]), events[|events| - 1]);
    }
  }

  /** At any time at most one task processes a request key, and all references to gates of one key are
      to the same gate, even while replaced gates await their cleanup. */
  lemma OneReservationPerKey(events: seq<Event>, x: Task, y: Task)
    requires var w := Run(events); x in w.stakes && y in w.stakes && w.stakes[x].key == w.stakes[y].key
    ensures var w := Run(events);
            w.stakes[x].gate == w.stakes[y].gate
            && (w.stakes[x].phase.Holding? && w.stakes[y].phase.Holding? ==> x == y)
  {
    hide Run;
    RunKeepsInv(events);
  }

  /** An arrival waits for its key; a waiter gets the gate as soon as no task of its key holds it, and
      nobody else is affected; a cancelled waiter is gone. */
  lemma WaiterProceeds(events: seq<Event>, task: Task, key: Key)
    ensures var w := Run(events);
            (task !in w.stakes ==>
               var after := Step(w, Enter(task, key)).stakes;
               task in after && after[task].key == key && after[task].phase == Waiting && after - {task} == w.stakes)
            && (task in w.stakes && w.stakes[task].phase.Waiting? ==>
                  var held := exists t :: t in w.stakes && w.stakes[t].key == w.stakes[task].key
                                          && w.stakes[t].phase == Holding;
                  Step(w, Acquire(task)).stakes
                  == (if held then w.stakes else w.stakes[task := w.stakes[task].(phase := Holding)])
                  && Step(w, Cancel(task)).stakes == w.stakes - {task})
  {
    hide Run, Live;
    RunKeepsInv(events);
    var w := Run(events);
    if task in w.stakes {
      forall t | t in w.stakes
        ensures w.stakes[t].key == w.stakes[task].key <==> w.stakes[t].gate == w.stakes[task].gate
      {
      }
    } else {
      var after := Step(w, Enter(task, key)).stakes;
      assert after - {task} == w.stakes;
    }
  }

  /** A holder that unlocks lets every waiter of its key proceed, and leaving drops its reference. */
  lemma UnlockLetsProceed(events: seq<Event>, holder: Task, waiter: Task)
    requires var w := Run(events);
             holder in w.stakes && w.stakes[holder].phase.Holding? && waiter in w.stakes
             && w.stakes[waiter].phase.Waiting? && w.stakes[waiter].key == w.stakes[holder].key
    ensures var w := Run(events);
            var freed := Step(w, Unlock(holder));
            var next := Step(freed, Acquire(waiter)).stakes;
            waiter in next && next[waiter].phase == Holding
            && holder in freed.stakes && Step(freed, Leave(holder)).stakes == freed.stakes - {holder}
  {
    hide Run, Live;
    RunKeepsInv(events);
  }

  /** A cleanup, however late, leaves the map pointing at every gate that is in use. */
  lemma LateCleanupIsHarmless(events: seq<Event>, gate: Gate, task: Task)
    requires task in Run(events).stakes
    ensures var w := Run(events);
            var key := w.stakes[task].key;
            var after := Step(w, Cleanup(gate));
            key in after.slots && after.slots[key] == w.stakes[task].gate && after.stakes == w.stakes
  {
    hide Run;
    RunKeepsInv(events);
    StakeIsLive(Run(events).stakes, task);
  }

  /** The cleanup of a dead gate takes its mapping away, if the key still has it, and is then over. */
  lemma CleanupForgets(events: seq<Event>, gate: Gate)
    requires gate in Run(events).dying
    ensures var w := Run(events);
            var w' := Step(w, Cleanup(gate));
            gate !in w'.dying && w'.dying == w.dying - {gate}
            && (forall k :: k in w'.slots <==> k in w.slots && w.slots[k] != gate)
            && (forall k :: k in w'.slots ==> w'.slots[k] == w.slots[k])
  {
    hide Run, Live;
    RunKeepsInv(events);
  }

  /** Once all holders and waiters are gone and their cleanups have run, the map is empty. */
  lemma QuiescentMapIsEmpty(events: seq<Event>)
    requires Run(events).stakes == map[] && Run(events).dying == {}
    ensures Run(events).slots == map[]
  {
    hide Run;
    RunKeepsInv(events);
    assert Live(map[]) == {};
    assert Run(events).slots.Keys == {};
  }
}
