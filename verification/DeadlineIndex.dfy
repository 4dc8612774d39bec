/** The ordered set of (deadline, key) pairs that both caches keep beside their map, and the bounded
    sweep of its expired end. */
module DeadlineIndex {

  /** A deadline and a key. Keys are numbered in their own order. */
  type Stamp = (int, nat)

  predicate Leq(a: Stamp, b: Stamp) {
    a.0 < b.0 || (a.0 == b.0 && a.1 <= b.1)
  }

  predicate IsFirst(s: set<Stamp>, x: Stamp) {
    x in s && forall y :: y in s ==> Leq(x, y)
  }

  lemma {:induction false} FirstExists(s: set<Stamp>)
    requires s != {}
    ensures exists x :: IsFirst(s, x)
    decreases |s|
  {
    var x :| x in s;
    if s == {x} {
      assert IsFirst(s, x);
    } else {
      var rest := s - {x};
      assert s == rest + {x};
      FirstExists(rest);
      var y :| IsFirst(rest, y);
      assert IsFirst(s, if Leq(x, y) then x else y);
    }
  }

  ghost function First(s: set<Stamp>): (x: Stamp)
    requires s != {}
    ensures IsFirst(s, x)
    ensures forall y :: IsFirst(s, y) ==> y == x
  {
    FirstExists(s);
    var x :| IsFirst(s, x);
    x
  }

  /** What a sweep at `now` removes when it may remove `budget` pairs. */
  ghost function Swept(s: set<Stamp>, now: int, budget: nat): (r: set<Stamp>)
    ensures r <= s
    decreases budget
  {
    if budget == 0 || s == {} || First(s).0 > now then {}
    else {First(s)} + Swept(s - {First(s)}, now, budget - 1)
  }

  function Expired(s: set<Stamp>, now: int): (r: set<Stamp>) {
    set x | x in s && x.0 <= now
  }

  function Keys(s: set<Stamp>): (r: set<nat>)
    ensures forall x :: x in s ==> x.1 in r
    ensures forall k :: k in r ==> exists x :: x in s && x.1 == k
  {
    set x | x in s :: x.1
  }

  /** One step of the sweep. */
  lemma SweptStep(s: set<Stamp>, now: int, budget: nat, x: Stamp)
    requires IsFirst(s, x) && x.0 <= now && budget > 0
    ensures x in s && Swept(s, now, budget) == {x} + Swept(s - {x}, now, budget - 1)
  {
    assert x == First(s);
  }

  lemma SweptEnd(s: set<Stamp>, now: int, budget: nat)
    requires s == {} || budget == 0 || exists x :: IsFirst(s, x) && x.0 > now
    ensures Swept(s, now, budget) == {}
  {
  }

  lemma KeysSnoc(s: set<Stamp>, x: Stamp)
    ensures Keys(s + {x}) == Keys(s) + {x.1}
  {
  }

  lemma {:induction false} SweptSize(s: set<Stamp>, now: int, budget: nat)
    ensures var gone, expired := Swept(s, now, budget), Expired(s, now);
            gone <= expired && |gone| == if |expired| <= budget then |expired| else budget
    decreases budget
  {
    var expired := Expired(s, now);
    if s == {} || First(s).0 > now {
      assert expired == {};
    } else if budget > 0 {
      var f := First(s);
      var rest := s - {f};
      SweptSize(rest, now, budget - 1);
      assert expired == Expired(rest, now) + {f};
      var gone := Swept(rest, now, budget - 1);
      assert Swept(s, now, budget) == {f} + gone && f !in gone;
    }
  }

  lemma {:induction false} SweptIsEarliest(s: set<Stamp>, now: int, budget: nat, x: Stamp, y: Stamp)
    requires x in Swept(s, now, budget) && y in s - Swept(s, now, budget)
    ensures Leq(x, y)
    decreases budget
  {
    var f := First(s);
    if x != f {
      SweptIsEarliest(s - {f}, now, budget - 1, x, y);
    }
  }

  /** The sweep removes the earliest expired pairs and no others: all of them if they fit the budget,
      exactly the budget otherwise. */
  lemma SweepMeaning(s: set<Stamp>, now: int, budget: nat)
    ensures var gone, expired := Swept(s, now, budget), Expired(s, now);
            gone <= expired
            && |gone| == (if |expired| <= budget then |expired| else budget)
            && (forall x, y :: x in gone && y in s - gone ==> Leq(x, y))
  {
    hide Swept, Leq;
    SweptSize(s, now, budget);
    forall x, y | x in Swept(s, now, budget) && y in s - Swept(s, now, budget)
      ensures Leq(x, y)
    {
      SweptIsEarliest(s, now, budget, x, y);
    }
  }

  /** With a budget for all of them, no expired pair is left. */
  lemma SweepClears(s: set<Stamp>, now: int, budget: nat)
    requires |Expired(s, now)| <= budget
    ensures forall x :: x in s - Swept(s, now, budget) ==> x.0 > now
  {
    SweepMeaning(s, now, budget);
    var gone, expired := Swept(s, now, budget), Expired(s, now);
    assert expired == gone + (expired - gone);
  }
}
