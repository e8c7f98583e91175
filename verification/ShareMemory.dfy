/** The duplicate-share memory of a session: a live set and the one before it. */
module ShareMemory {

  const MAX_SEEN: nat := 16384

  datatype Memory<!K(==)> = Memory(current: set<K>, previous: set<K>)

  /** A submitted share, or a clean job. */
  datatype Event<K> = Submit(key: K) | Clean

  function Rotated<K>(m: Memory<K>): Memory<K>
  {
    Memory({}, m.current)
  }

  predicate Known<K>(m: Memory<K>, key: K)
  {
    key in m.current || key in m.previous
  }

  predicate Rotates<K>(m: Memory<K>, e: Event<K>)
  {
    match e
    case Submit(key) => !Known(m, key) && |m.current| >= MAX_SEEN
    case Clean => m.current != {}
  }

  function Next<K>(m: Memory<K>, e: Event<K>): Memory<K>
  {
    var r := if Rotates(m, e) then Rotated(m) else m;
    match e
    case Submit(key) => if Known(m, key) then r else r.(current := r.current + {key})
    case Clean => r
  }

  function After<K>(m: Memory<K>, events: seq<Event<K>>): Memory<K>
    decreases |events|
  {
    if events == [] then m else After(Next(m, events[0]), events[1..])
  }

  function Rotations<K>(m: Memory<K>, events: seq<Event<K>>): nat
    decreases |events|
  {
    if events == [] then 0 else (if Rotates(m, events[0]) then 1 else 0) + Rotations(Next(m, events[0]), events[1..])
  }

  function Accepted<K>(m: Memory<K>, events: seq<Event<K>>): nat
    decreases |events|
  {
    if events == [] then 0
    else (if events[0].Submit? && !Known(m, events[0].key) then 1 else 0) + Accepted(Next(m, events[0]), events[1..])
  }

  predicate Bounded<K>(m: Memory<K>)
  {
    |m.current| <= MAX_SEEN && |m.previous| <= MAX_SEEN
  }

  lemma {:induction false} StaysBounded<K>(m: Memory<K>, events: seq<Event<K>>)
    requires Bounded(m)
    ensures Bounded(After(m, events))
    decreases |events|
  {
    if events != [] {
      StaysBounded(Next(m, events[0]), events[1..]);
    }
  }

  /** A key in the live set is refused as long as at most one rotation has followed. */
  lemma {:induction false} RefusedUntilTwoRotations<K>(m: Memory<K>, key: K, events: seq<Event<K>>)
    requires Known(m, key) && (key in m.current || Rotations(m, events) == 0) && Rotations(m, events) <= 1
    ensures Known(After(m, events), key)
    decreases |events|
  {
    if events != [] {
      RefusedUntilTwoRotations(Next(m, events[0]), key, events[1..]);
    }
  }

  ghost predicate Submits<K>(events: seq<Event<K>>, key: K)
  {
    Submit(key) in events
  }

  /** After two rotations it is forgotten, unless it was submitted again. */
  lemma {:induction false} ForgottenAfterTwoRotations<K>(m: Memory<K>, key: K, events: seq<Event<K>>)
    requires !Submits(events, key)
    requires (Known(m, key) ==> Rotations(m, events) >= 1) && (key in m.current ==> Rotations(m, events) >= 2)
    ensures !Known(After(m, events), key)
    decreases |events|
  {
    if events != [] {
      assert events[0] in events;
      ForgottenAfterTwoRotations(Next(m, events[0]), key, events[1..]);
    }
  }

  predicate NoClean<K>(events: seq<Event<K>>)
  {
    forall i :: 0 <= i < |events| ==> events[i].Submit?
  }

  /** Without clean jobs every rotation retires exactly a full set. */
  lemma {:induction false} FullSetsRetired<K>(m: Memory<K>, events: seq<Event<K>>)
    requires Bounded(m) && NoClean(events)
    ensures |After(m, events).current| == |m.current| + Accepted(m, events) - MAX_SEEN * Rotations(m, events)
    ensures Rotations(m, events) > 0 ==> |After(m, events).current| > 0
    decreases |events|
  {
    if events != [] {
      FullSetsRetired(Next(m, events[0]), events[1..]);
      if Rotates(m, events[0]) {
        assert events[0].key in Next(m, events[0]).current;
        CurrentNeverEmpties(Next(m, events[0]), events[1..]);
      }
    }
  }

  lemma {:induction false} CurrentNeverEmpties<K>(m: Memory<K>, events: seq<Event<K>>)
    requires m.current != {} && NoClean(events)
    ensures After(m, events).current != {}
    decreases |events|
  {
    if events != [] {
      assert events[0].Submit? && Next(m, events[0]).current != {};
      CurrentNeverEmpties(Next(m, events[0]), events[1..]);
    }
  }

  /** So without clean jobs a remembered key is refused through at least 16384 newer keys. */
  lemma SurvivesNewerKeys<K>(m: Memory<K>, key: K, events: seq<Event<K>>)
    requires Bounded(m) && key in m.current && NoClean(events) && Accepted(m, events) <= MAX_SEEN
    ensures Known(After(m, events), key)
  {
    FullSetsRetired(m, events);
    RefusedUntilTwoRotations(m, key, events);
  }

  /** The two sets as a session holds them. */
  class SeenShares<K(==)> {
    var current: set<K>
    var previous: set<K>

    ghost function Contents(): Memory<K>
      reads this
    {
      Memory(current, previous)
    }

    constructor ()
      ensures Contents() == Memory({}, {})
    {
      current, previous := {}, {};
    }

    method Rotate()
      modifies this
      ensures Contents() == Rotated(old(Contents()))
    {
      previous := current;
      current := {};
    }

    /** Whether the key is new; a full live set is retired first. */
    method Remember(key: K) returns (fresh': bool)
      modifies this
      ensures fresh' == !Known(old(Contents()), key)
      ensures Contents() == Next(old(Contents()), Submit(key))
    {
      if key in current || key in previous {
        return false;
      }
      if |current| >= MAX_SEEN {
        Rotate();
      }
      current := current + {key};
      fresh' := true;
    }

    /** A clean job keeps one generation; an empty live set is left alone. */
    method CleanJob()
      modifies this
      ensures Contents() == Next(old(Contents()), Clean)
    {
      if current != {} {
        Rotate();
      }
    }
  }
}
