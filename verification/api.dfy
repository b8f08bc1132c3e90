/**
 The guarded-object interface (api::Guard) as the rest of the model sees it.

 The object behind an `api::Guard&` is not part of this model: what it answers
 to `isConstructed()`, `lock()` and `unlock()` is passed in as data, and what is
 done to it is recorded as a sequence of events.
 */
module Api {

  /** The answers one guarded object gives during one critical section. */
  datatype GuardObject = GuardObject(isConstructed: bool, lockResult: bool, unlockResult: bool)

  /** What happens to a guarded object, in order: a `lock()` call, an `unlock()`
      call, or the guarded body running in between. */
  datatype Event = LockCall | UnlockCall | Body

  /** Number of occurrences of `e` in `events`. */
  function Occurrences(events: seq<Event>, e: Event): nat
  {
    if events == [] then 0
    else (if events[0] == e then 1 else 0) + Occurrences(events[1..], e)
  }

  /** A single event occurs once in itself and nowhere else. */
  lemma OccurrencesSingle(x: Event, e: Event)
    ensures Occurrences([x], e) == if x == e then 1 else 0
  {
    assert [x][1..] == [];
  }

  /** An event occurs zero times exactly when it is absent. */
  lemma {:induction false} OccurrencesZero(events: seq<Event>, e: Event)
    ensures Occurrences(events, e) == 0 <==> e !in events
    decreases |events|
  {
    if events != [] {
      OccurrencesZero(events[1..], e);
      assert events == [events[0]] + events[1..];
    }
  }

  /** Counting distributes over concatenation. */
  lemma {:induction false} OccurrencesConcat(a: seq<Event>, b: seq<Event>, e: Event)
    ensures Occurrences(a + b, e) == Occurrences(a, e) + Occurrences(b, e)
    decreases |a|
  {
    if a == [] {
      assert a + b == b;
    } else {
      assert (a + b)[1..] == a[1..] + b;
      OccurrencesConcat(a[1..], b, e);
    }
  }
}
