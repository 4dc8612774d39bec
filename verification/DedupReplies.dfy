/** The sharded reply cache behind duplicate detection (section 2.2.2 of RFC 5080). */
module DedupReplies {
  import opened Bytes
  import opened DeadlineIndex

  /** A (source, code, identifier, request authenticator) tuple, numbered in the order of tuples. */
  type Key = nat

  type Reply = seq<byte>

  const SHARD_COUNT := 16
  const SWEEP_BUDGET := 64

  datatype Entry = Entry(reply: Reply, expiresAt: int)

  datatype Shard = Shard(entries: map<Key, Entry>, expirations: set<Stamp>)

  const EMPTY := Shard(map[], {})

  /** The deadline index is the set of deadlines of the entries. */
  ghost predicate Consistent(s: Shard) {
    && (forall x :: x in s.expirations ==> x.1 in s.entries && s.entries[x.1].expiresAt == x.0)
    && (forall k :: k in s.entries ==> (s.entries[k].expiresAt, k) in s.expirations)
  }

  ghost function Evict(s: Shard, now: int): (r: Shard) {
    var gone := Swept(s.expirations, now, SWEEP_BUDGET);
    Shard(s.entries - Keys(gone), s.expirations - gone)
  }

  /** The reply found, if its deadline is ahead. */
  function Found(s: Shard, key: Key, now: int): (r: Option<Reply>) {
    if key in s.entries && s.entries[key].expiresAt > now then Some(s.entries[key].reply) else None
  }

  function AfterLookup(s: Shard, key: Key, now: int): (r: Shard) {
    if key in s.entries && s.entries[key].expiresAt <= now
    then Shard(s.entries - {key}, s.expirations - {(s.entries[key].expiresAt, key)}) else s
  }

  ghost function AfterInsert(s: Shard, key: Key, reply: Reply, now: int, ttl: int): (r: Shard) {
    var e := Evict(s, now);
    var kept := if key in e.entries then e.expirations - {(e.entries[key].expiresAt, key)} else e.expirations;
    Shard(e.entries[key := Entry(reply, now + ttl)], kept + {(now + ttl, key)})
  }

  /** One shard as it is mutated under its lock. */
  class ReplyShard {
    var entries: map<Key, Entry>
    var expirations: set<Stamp>

    ghost function View(): (r: Shard)
      reads this
    {
      Shard(entries, expirations)
    }

    constructor ()
      ensures View() == EMPTY
    {
      entries, expirations := map[], {};
    }

    /** At most 64 evictions, from the expired end of the index. */
    method EvictExpired(now: int)
      modifies this
      ensures View() == Evict(old(View()), now)
    {
      hide Swept, Keys, First;
      ghost var gone: set<Stamp> := {};
      var i := 0;
      assert Keys(gone) == {};
      while i < SWEEP_BUDGET
        invariant 0 <= i <= SWEEP_BUDGET && gone <= old(expirations)
        invariant expirations == old(expirations) - gone && entries == old(entries) - Keys(gone)
        invariant Swept(old(expirations), now, SWEEP_BUDGET) == gone + Swept(expirations, now, SWEEP_BUDGET - i)
      {
        if expirations == {} {
          break;
        }
        FirstExists(expirations);
        var first: Stamp :| IsFirst(expirations, first);
        if first.0 > now {
          break;
        }
        SweptStep(expirations, now, SWEEP_BUDGET - i, first);
        KeysSnoc(gone, first);
        expirations := expirations - {first};
        entries := entries - {first.1};
        gone := gone + {first};
        i := i + 1;
      }
      SweptEnd(expirations, now, SWEEP_BUDGET - i);
    }

    method Lookup(key: Key, now: int) returns (r: Option<Reply>)
      modifies this
      ensures r == Found(old(View()), key, now) && View() == AfterLookup(old(View()), key, now)
    {
      if key in entries {
        var entry := entries[key];
        if entry.expiresAt > now {
          return Some(entry.reply);
        }
        entries := entries - {key};
        expirations := expirations - {(entry.expiresAt, key)};
      }
      return None;
    }

    method Insert(key: Key, reply: Reply, now: int, ttl: int)
      modifies this
      ensures View() == AfterInsert(old(View()), key, reply, now, ttl)
    {
      EvictExpired(now);
      var expiresAt := now + ttl;
      if key in entries {
        var previous := entries[key];
        entries := entries[key := Entry(reply, expiresAt)];
        expirations := expirations - {(previous.expiresAt, key)};
      } else {
        entries := entries[key := Entry(reply, expiresAt)];
      }
      expirations := expirations + {(expiresAt, key)};
    }
  }

  function ShardFor(hash: Key -> nat, key: Key): (r: nat)
    ensures r < SHARD_COUNT && (hash(key) - r) % 16 == 0
  {
    hash(key) % SHARD_COUNT
  }

  /** The cache: sixteen independently locked shards. */
  class DedupCache {
    const shards: seq<ReplyShard>
    const ttl: int
    const hash: Key -> nat

    ghost predicate Valid() {
      |shards| == SHARD_COUNT && forall i, j :: 0 <= i < j < |shards| ==> shards[i] != shards[j]
    }

    ghost function View(): (r: seq<Shard>)
      reads shards
    {
      seq(|shards|, i requires 0 <= i < |shards| reads shards => shards[i].View())
    }

    constructor (ttl: int, hash: Key -> nat)
      ensures Valid() && View() == Run(hash, ttl, []) && this.ttl == ttl && this.hash == hash
    {
      var made: seq<ReplyShard> := [];
      for i := 0 to SHARD_COUNT
        invariant |made| == i && forall k :: 0 <= k < i ==> made[k].View() == EMPTY
        invariant forall j, k :: 0 <= j < k < i ==> made[j] != made[k]
      {
        var shard := new ReplyShard();
        made := made + [shard];
      }
      shards := made;
      this.ttl, this.hash := ttl, hash;
    }

    method Lookup(key: Key, now: int) returns (r: Option<Reply>)
      requires Valid()
      modifies shards
      ensures r == Answer(hash, old(View()), key, now)
      ensures View() == Step(hash, ttl, old(View()), DoLookup(key, now))
    {
      r := shards[ShardFor(hash, key)].Lookup(key, now);
    }

    method Insert(key: Key, reply: Reply, now: int)
      requires Valid()
      modifies shards
      ensures View() == Step(hash, ttl, old(View()), DoInsert(key, reply, now))
    {
      shards[ShardFor(hash, key)].Insert(key, reply, now, ttl);
    }
  }

  datatype Op = DoInsert(key: Key, reply: Reply, at: int) | DoLookup(key: Key, at: int)

  ghost function StepShard(ttl: int, s: Shard, op: Op): (r: Shard) {
    match op
    case DoInsert(key, reply, at) => AfterInsert(s, key, reply, at, ttl)
    case DoLookup(key, at) => AfterLookup(s, key, at)
  }

  ghost function Step(hash: Key -> nat, ttl: int, cache: seq<Shard>, op: Op): (r: seq<Shard>)
    requires |cache| == SHARD_COUNT
    ensures |r| == SHARD_COUNT
  {
    cache[ShardFor(hash, op.key) := StepShard(ttl, cache[ShardFor(hash, op.key)], op)]
  }

  ghost function Run(hash: Key -> nat, ttl: int, ops: seq<Op>): (r: seq<Shard>)
    ensures |r| == SHARD_COUNT
    decreases |ops|
  {
    if ops == [] then seq(SHARD_COUNT, i => EMPTY)
    else Step(hash, ttl, Run(hash, ttl, ops[..|ops| - 1]), ops[|ops| - 1])
  }

  function Answer(hash: Key -> nat, cache: seq<Shard>, key: Key, now: int): (r: Option<Reply>)
    requires |cache| == SHARD_COUNT
  {
    Found(cache[ShardFor(hash, key)], key, now)
  }

  /** The plain timed map that the cache stands for: the last insertion of each key. */
  function Latest(ops: seq<Op>, key: Key): (r: Option<(Reply, int)>)
    decreases |ops|
  {
    if ops == [] then None
    else
      var op := ops[|ops| - 1];
      if op.DoInsert? && op.key == key then Some((op.reply, op.at)) else Latest(ops[..|ops| - 1], key)
  }

  /** Time of the last operation on a shard: its lock serialises them. */
  function LastAt(hash: Key -> nat, ops: seq<Op>, shard: nat): (r: Option<int>)
    decreases |ops|
  {
    if ops == [] then None
    else
      var op := ops[|ops| - 1];
      if ShardFor(hash, op.key) == shard then Some(op.at) else LastAt(hash, ops[..|ops| - 1], shard)
  }

  /** The clock never goes back within a shard, where it is read under the shard's lock. */
  predicate MonotonePerShard(hash: Key -> nat, ops: seq<Op>)
    decreases |ops|
  {
    ops == []
    || (MonotonePerShard(hash, ops[..|ops| - 1])
        && NotBefore(hash, ops[..|ops| - 1], ops[|ops| - 1].key, ops[|ops| - 1].at))
  }

  /** `at` is no earlier than the last operation on the key's shard. */
  predicate NotBefore(hash: Key -> nat, ops: seq<Op>, key: Key, at: int) {
    match LastAt(hash, ops, ShardFor(hash, key))
    case Some(t) => t <= at
    case None => true
  }

  /** What a shard knows of a key after a history: its latest insertion, unless that had expired by
      the shard's last operation. */
  ghost predicate Tracks(hash: Key -> nat, ttl: int, ops: seq<Op>, s: Shard, key: Key) {
    if key in s.entries then Latest(ops, key) == Some((s.entries[key].reply, s.entries[key].expiresAt - ttl))
    else
      match Latest(ops, key)
      case None => true
      case Some((_, t)) =>
        var last := LastAt(hash, ops, ShardFor(hash, key));
        last.Some? && t + ttl <= last.value
  }

  lemma EvictKeeps(s: Shard, now: int)
    requires Consistent(s)
    ensures Consistent(Evict(s, now))
    ensures forall k :: k in Evict(s, now).entries ==> k in s.entries && Evict(s, now).entries[k] == s.entries[k]
    ensures forall k :: k in s.entries && k !in Evict(s, now).entries ==> s.entries[k].expiresAt <= now
  {
    SweepMeaning(s.expirations, now, SWEEP_BUDGET);
    var gone := Swept(s.expirations, now, SWEEP_BUDGET);
    forall x | x in gone
      ensures x.1 in s.entries && s.entries[x.1].expiresAt == x.0 <= now
    {
      assert x in Expired(s.expirations, now);
    }
    forall k | k in Keys(gone)
      ensures k in s.entries && (s.entries[k].expiresAt, k) in gone && s.entries[k].expiresAt <= now
    {
      var x :| x in gone && x.1 == k;
      assert x == (x.0, x.1);
    }
    forall x | x in s.expirations - gone
      ensures x.1 !in Keys(gone)
    {
      assert x == (x.0, x.1);
    }
  }

  /** One operation on a shard: the index stays exact, the key gets its new entry, and other entries
      only disappear once expired. */
  lemma StepShardKeeps(ttl: int, s: Shard, op: Op)
    requires Consistent(s)
    ensures var s' := StepShard(ttl, s, op);
            Consistent(s')
            && (op.DoInsert? ==> op.key in s'.entries && s'.entries[op.key] == Entry(op.reply, op.at + ttl))
            && (forall k :: k in s'.entries && !(op.DoInsert? && k == op.key) ==>
                  k in s.entries && s'.entries[k] == s.entries[k])
            && (forall k :: k in s.entries && k !in s'.entries ==> s.entries[k].expiresAt <= op.at)
  {
    hide Evict;
    EvictKeeps(s, op.at);
  }

  /** Every shard's index is exact, and every key is tracked by its shard. */
  lemma {:induction false} RunTracks(hash: Key -> nat, ttl: int, ops: seq<Op>, shard: nat, key: Key)
    requires MonotonePerShard(hash, ops) && shard < SHARD_COUNT
    ensures Consistent(Run(hash, ttl, ops)[shard])
    ensures ShardFor(hash, key) == shard ==> Tracks(hash, ttl, ops, Run(hash, ttl, ops)[shard], key)
    decreases |ops|
  {
    hide ShardFor, StepShard, Consistent;
    if ops == [] {
      EmptyIsConsistent();
    } else {
      var before, op := ops[..|ops| - 1], ops[|ops| - 1];
      RunTracks(hash, ttl, before, shard, key);
      StepShardKeeps(ttl, Run(hash, ttl, before)[shard], op);
    }
  }

  lemma EmptyIsConsistent()
    ensures Consistent(EMPTY)
  {
  }

  /** Sixteen shards with lazy, bounded sweeps answer like one plain timed map: a lookup returns a
      reply exactly when the key's latest insertion had it and is younger than the lifetime. */
  lemma RefinesTimedMap(hash: Key -> nat, ttl: int, ops: seq<Op>, key: Key, now: int)
    requires MonotonePerShard(hash, ops) && NotBefore(hash, ops, key, now)
    ensures Answer(hash, Run(hash, ttl, ops), key, now)
            == match Latest(ops, key)
               case Some((reply, t)) => if now < t + ttl then Some(reply) else None
               case None => None
  {
    RunTracks(hash, ttl, ops, ShardFor(hash, key), key);
  }

  /** A lookup forgets its key once expired, from map and index alike, and touches nothing else. */
  lemma LookupForgetsExpired(s: Shard, key: Key, now: int, ttl: int)
    requires Consistent(s)
    ensures var s' := StepShard(ttl, s, DoLookup(key, now));
            Consistent(s')
            && (forall k :: k in s'.entries <==> k in s.entries && (k == key ==> now < s.entries[k].expiresAt))
            && (forall k :: k in s'.entries ==> s'.entries[k] == s.entries[k])
            && (key !in s'.entries ==> forall t :: (t, key) !in s'.expirations)
  {
  }

  /** An insertion takes as many expired entries out as the budget allows, the earliest first. */
  lemma InsertSweeps(s: Shard, now: int)
    requires Consistent(s)
    ensures var gone, n := s.expirations - Evict(s, now).expirations, |Expired(s.expirations, now)|;
            gone <= Expired(s.expirations, now) && |gone| == (if n <= 64 then n else 64)
            && (forall x, y :: x in gone && y in Evict(s, now).expirations ==> Leq(x, y))
            && Evict(s, now).entries.Keys == s.entries.Keys - Keys(gone)
  {
    SweepMeaning(s.expirations, now, SWEEP_BUDGET);
    var swept := Swept(s.expirations, now, SWEEP_BUDGET);
    assert s.expirations - (s.expirations - swept) == swept;
  }

  /** One insertion clears a backlog of up to 64 expired entries. */
  lemma InsertClearsBacklog(s: Shard, key: Key, reply: Reply, now: int, ttl: int)
    requires Consistent(s) && ttl > 0
    ensures var s' := AfterInsert(s, key, reply, now, ttl);
            |Expired(s.expirations, now)| <= SWEEP_BUDGET ==> Expired(s'.expirations, now) == {}
  {
    if |Expired(s.expirations, now)| <= SWEEP_BUDGET {
      SweepClears(s.expirations, now, SWEEP_BUDGET);
    }
  }
}
