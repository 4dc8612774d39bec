/** The client cache: its state under the lock and the operations on it. */
module ClientCache {
  import opened Bytes
  import opened DeadlineIndex

  /** A source address, numbered in the order of addresses. */
  type Ip = nat

  /** A resolved client; only its identity matters here. */
  type Client = nat

  /** A broadcast channel. */
  type Channel = nat

  const SWEEP_BUDGET := 64

  datatype Slot = Resolved(value: Option<Client>, expiresAt: int) | Pending(ch: Channel)

  datatype Cache = Cache(entries: map<Ip, Slot>, expirations: set<Stamp>)

  datatype Action = Hit(value: Option<Client>) | Wait(ch: Channel) | Resolve(ch: Channel) | Uncached

  function Remove(c: Cache, key: Ip): (r: Cache)
  {
    if key !in c.entries then c
    else
      match c.entries[key]
      case Resolved(_, t) => Cache(c.entries - {key}, c.expirations - {(t, key)})
      case Pending(_) => c.(entries := c.entries - {key})
  }

  ghost function EvictFirst(c: Cache): (r: Cache)
  {
    if c.expirations == {} then c
    else Cache(c.entries - {First(c.expirations).1}, c.expirations - {First(c.expirations)})
  }

  ghost function EvictExpired(c: Cache, now: int): (r: Cache)
  {
    var gone := Swept(c.expirations, now, SWEEP_BUDGET);
    Cache(c.entries - Keys(gone), c.expirations - gone)
  }

  /** Room for one more key: drop the key's own stale slot, then one other if the map is full. */
  ghost function MakeRoom(c: Cache, key: Ip, capacity: nat): (r: Cache)
  {
    var removed := Remove(c, key);
    if |removed.entries| >= capacity then EvictFirst(removed) else removed
  }

  /** What a lookup at `now` decides; `made` names the channel it would create. */
  ghost function Decide(c: Cache, key: Ip, now: int, capacity: nat, made: Channel): (r: (Cache, Action))
  {
    var swept := EvictExpired(c, now);
    if key in swept.entries && swept.entries[key].Resolved? && swept.entries[key].expiresAt > now
    then (swept, Hit(swept.entries[key].value))
    else if key in swept.entries && swept.entries[key].Pending?
    then (swept, Wait(swept.entries[key].ch))
    else
      var room := MakeRoom(swept, key, capacity);
      if |room.entries| >= capacity then (room, Uncached)
      else (room.(entries := room.entries[key := Pending(made)]), Resolve(made))
  }

  function Publish(c: Cache, key: Ip, value: Option<Client>, expiresAt: int): (r: Cache)
  {
    Cache(c.entries[key := Resolved(value, expiresAt)], c.expirations + {(expiresAt, key)})
  }

  function Invalidate(c: Cache, key: Ip): (r: Cache)
  {
    if key in c.entries && c.entries[key].Resolved? then Remove(c, key) else c
  }

  function Clear(c: Cache): (r: Cache)
  {
    Cache(map k | k in c.entries && c.entries[k].Pending? :: c.entries[k], {})
  }

  /** The guard of an unfinished lookup removes the slot only if it still holds its own channel. */
  function DropPending(c: Cache, key: Ip, ch: Channel): (r: Cache)
  {
    if key in c.entries && c.entries[key] == Pending(ch) then Remove(c, key) else c
  }

  /** The deadline index is the set of deadlines of the resolved slots. */
  ghost predicate Consistent(c: Cache) {
    && (forall x :: x in c.expirations ==>
          x.1 in c.entries && c.entries[x.1].Resolved? && c.entries[x.1].expiresAt == x.0)
    && (forall k :: k in c.entries && c.entries[k].Resolved? ==> (c.entries[k].expiresAt, k) in c.expirations)
  }

  /** The cache state as the store mutates it under its lock. */
  class CacheState {
    var entries: map<Ip, Slot>
    var expirations: set<Stamp>

    ghost function View(): (r: Cache)
      reads this
    {
      Cache(entries, expirations)
    }

    constructor ()
      ensures View() == Cache(map[], {})
    {
      entries, expirations := map[], {};
    }

    method RemoveKey(key: Ip)
      modifies this
      ensures View() == Remove(old(View()), key)
    {
      if key in entries {
        var slot := entries[key];
        entries := entries - {key};
        if slot.Resolved? {
          expirations := expirations - {(slot.expiresAt, key)};
        }
      }
    }

    method PopFirst()
      modifies this
      ensures View() == EvictFirst(old(View()))
    {
      if expirations != {} {
        FirstExists(expirations);
        var first: Stamp :| IsFirst(expirations, first);
        assert first == First(expirations);
        expirations := expirations - {first};
        entries := entries - {first.1};
      }
    }

    /** At most 64 evictions, from the expired end of the index. */
    method Sweep(now: int)
      modifies this
      ensures View() == EvictExpired(old(View()), now)
    {
      hide Swept, Keys, First;
      ghost var gone: set<Stamp> := {};
      var i := 0;
      assert Keys(gone) == {};
      while i < SWEEP_BUDGET
        invariant 0 <= i <= SWEEP_BUDGET && gone <= old(expirations)
        invariant expirations == old(expirations) - gone && entries == old(entries) - Keys(gone)
        invariant Swept(old(expirations), now, SWEEP_BUDGET) == gone + Swept(expirations, now, SWEEP_BUDGET - i)
      {
        if expirations == {} {
          break;
        }
        FirstExists(expirations);
        var first: Stamp :| IsFirst(expirations, first);
        if first.0 > now {
          break;
        }
        SweptStep(expirations, now, SWEEP_BUDGET - i, first);
        KeysSnoc(gone, first);
        assert first == First(expirations);
        PopFirst();
        gone := gone + {first};
        i := i + 1;
      }
      SweptEnd(expirations, now, SWEEP_BUDGET - i);
    }

    method Act(key: Ip, now: int, capacity: nat, made: Channel) returns (action: Action)
      modifies this
      ensures (View(), action) == Decide(old(View()), key, now, capacity, made)
    {
      Sweep(now);
      if key in entries {
        match entries[key] {
          case Resolved(value, expiresAt) =>
            if expiresAt > now {
              return Hit(value);
            }
          case Pending(ch) => return Wait(ch);
        }
      }
      RemoveKey(key);
      if |entries| >= capacity {
        PopFirst();
      }
      if |entries| >= capacity {
        return Uncached;
      }
      entries := entries[key := Pending(made)];
      return Resolve(made);
    }

    /** A resolver records its answer. */
    method Record(key: Ip, value: Option<Client>, expiresAt: int)
      modifies this
      ensures View() == Publish(old(View()), key, value, expiresAt)
    {
      entries := entries[key := Resolved(value, expiresAt)];
      expirations := expirations + {(expiresAt, key)};
    }

    method InvalidateKey(key: Ip)
      modifies this
      ensures View() == Invalidate(old(View()), key)
      ensures forall k :: k in entries <==> k in old(entries) && (k == key ==> old(entries)[k].Pending?)
      ensures forall k :: k in entries ==> entries[k] == old(entries)[k]
    {
      if key in entries && entries[key].Resolved? {
        RemoveKey(key);
      }
    }

    method ClearAll()
      modifies this
      ensures View() == Clear(old(View()))
      ensures forall k :: k in entries <==> k in old(entries) && old(entries)[k].Pending?
      ensures (forall k :: k in entries ==> entries[k] == old(entries)[k]) && expirations == {}
    {
      entries := map k | k in entries && entries[k].Pending? :: entries[k];
      expirations := {};
    }

    method DropGuard(key: Ip, ch: Channel)
      modifies this
      ensures View() == DropPending(old(View()), key, ch)
    {
      if key in entries && entries[key] == Pending(ch) {
        RemoveKey(key);
      }
    }
  }

  /** `after` differs from `before` only by having fewer resolved slots. */
  ghost predicate Trimmed(before: Cache, after: Cache) {
    && Consistent(after)
    && (forall k :: k in after.entries ==> k in before.entries && after.entries[k] == before.entries[k])
    && (forall k :: k in before.entries && before.entries[k].Pending? ==> k in after.entries)
  }

  /** The sweep removes only resolved slots whose deadline has passed. */
  lemma EvictExpiredTrims(c: Cache, now: int)
    requires Consistent(c)
    ensures Trimmed(c, EvictExpired(c, now))
    ensures forall k :: k in c.entries && k !in EvictExpired(c, now).entries ==> c.entries[k].expiresAt <= now
  {
    SweepMeaning(c.expirations, now, SWEEP_BUDGET);
    var gone := Swept(c.expirations, now, SWEEP_BUDGET);
    forall x | x in gone
      ensures x.1 in c.entries && c.entries[x.1].Resolved? && c.entries[x.1].expiresAt == x.0 <= now
    {
      assert x in Expired(c.expirations, now);
    }
    forall k | k in Keys(gone)
      ensures k in c.entries && c.entries[k].Resolved? && (c.entries[k].expiresAt, k) in gone
              && c.entries[k].expiresAt <= now
    {
      var x :| x in gone && x.1 == k;
      assert x == (x.0, x.1);
    }
    forall x | x in c.expirations - gone
      ensures x.1 !in Keys(gone)
    {
      assert x == (x.0, x.1);
    }
  }

  lemma RemoveKeepsConsistent(c: Cache, key: Ip)
    requires Consistent(c)
    ensures Consistent(Remove(c, key))
    ensures forall k :: k in Remove(c, key).entries <==> k in c.entries && k != key
    ensures forall k :: k in Remove(c, key).entries ==> Remove(c, key).entries[k] == c.entries[k]
  {
  }

  /** Making room keeps every pending slot but the key's own, and leaves space unless every slot is
      pending. */
  lemma MakeRoomKeepsPending(c: Cache, key: Ip, capacity: nat)
    requires Consistent(c) && |c.entries| <= capacity && capacity > 0
    ensures var room := MakeRoom(c, key, capacity);
            Consistent(room) && key !in room.entries && |room.entries| <= capacity
            && (forall k :: k in room.entries ==> k in c.entries && room.entries[k] == c.entries[k])
            && (forall k :: k != key && k in c.entries && c.entries[k].Pending? ==> k in room.entries)
            && (|room.entries| >= capacity ==> room.expirations == {})
  {
  }
}
