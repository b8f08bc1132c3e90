/**
 lib::Guard: a scoped lock. The constructor locks the guarded object (when both
 the Guard's own base and the object report constructed) and remembers the
 answer in `isLocked`; the destructor unlocks it only when that flag is set.
 */
module Guard {
  import opened Api

  /** One Guard: the construction flag of its NonCopyable base, `isLocked_`,
      and the calls it has made on the guarded object so far. */
  datatype GuardState = GuardState(constructed: bool, isLocked: bool, events: seq<Event>)

  /** The inputs of one Guard lifetime: whether the NonCopyable base reports
      constructed (that class is not part of this model) and the answers of
      the guarded object. */
  datatype Scope = Scope(parentConstructed: bool, target: GuardObject)

  /** Constructor with its `construct()` as written: `res` starts false and is
      never set, so the Guard always ends not-constructed. `lock()` is called
      only when the base and the guarded object both report constructed. */
  function Construct(parentConstructed: bool, target: GuardObject): (g: GuardState)
    ensures !g.constructed
    ensures g.events == [] || g.events == [LockCall]
    ensures LockCall in g.events <==> parentConstructed && target.isConstructed
    ensures g.isLocked <==> LockCall in g.events && target.lockResult
  {
    var res := false;
    if !parentConstructed || !target.isConstructed then
      GuardState(res, false, [])
    else
      GuardState(res, target.lockResult, [LockCall])
  }

  /** Destructor: `unlock()` is called exactly when the Guard holds the lock,
      and `isLocked_` becomes the negation of its answer. */
  function Destruct(g: GuardState, target: GuardObject): (g': GuardState)
    ensures g'.constructed == g.constructed
    ensures !g.isLocked ==> g' == g
    ensures g.isLocked ==> g'.events == g.events + [UnlockCall]
    ensures g.isLocked ==> (g'.isLocked <==> !target.unlockResult)
  {
    if g.isLocked then
      g.(isLocked := !target.unlockResult, events := g.events + [UnlockCall])
    else
      g
  }

  /** A Guard from construction to destruction. */
  function Lifetime(s: Scope): GuardState
  {
    Destruct(Construct(s.parentConstructed, s.target), s.target)
  }

  /** Over its whole lifetime a Guard calls `lock()` at most once and
      `unlock()` at most once, and `unlock()` only after a successful `lock()`. */
  lemma LifetimeCalls(s: Scope)
    ensures Occurrences(Lifetime(s).events, LockCall) <= 1
    ensures Occurrences(Lifetime(s).events, UnlockCall) <= 1
    ensures UnlockCall in Lifetime(s).events ==>
              Lifetime(s).events == [LockCall, UnlockCall] && s.target.lockResult
    ensures Lifetime(s).events == [] <==> !(s.parentConstructed && s.target.isConstructed)
  {
    var entered := Construct(s.parentConstructed, s.target);
    var left := Lifetime(s);
    var tail := left.events[|entered.events|..];
    assert left.events == entered.events + tail;
    OccurrencesConcat(entered.events, tail, LockCall);
    OccurrencesConcat(entered.events, tail, UnlockCall);
    if entered.events != [] {
      OccurrencesSingle(LockCall, LockCall);
      OccurrencesSingle(LockCall, UnlockCall);
    }
    if tail != [] {
      OccurrencesSingle(UnlockCall, LockCall);
      OccurrencesSingle(UnlockCall, UnlockCall);
    }
  }

  /** The calls a Guard scoped around a body makes, with the body in between:
      the body runs exactly once, after any `lock()` and before any `unlock()`,
      and it runs whether or not the lock was obtained. The Guard is built
      with the corrected constructor, which makes the same calls as the one
      written. */
  function Events(s: Scope): (events: seq<Event>)
    ensures Occurrences(events, Body) == 1
    ensures events == [Body] <==> !(s.parentConstructed && s.target.isConstructed)
    ensures s.parentConstructed && s.target.isConstructed ==>
              |events| >= 2 && events[0] == LockCall && events[1] == Body
    ensures UnlockCall in events <==>
              s.parentConstructed && s.target.isConstructed && s.target.lockResult
    ensures UnlockCall in events ==> events == [LockCall, Body, UnlockCall]
    ensures s.parentConstructed && s.target.isConstructed && !s.target.lockResult ==>
              events == [LockCall, Body]
  {
    var entered := ConstructIntended(s.parentConstructed, s.target);
    var left := Destruct(entered, s.target);
    var events := entered.events + [Body] + left.events[|entered.events|..];
    BodyOnce(entered.events, left.events[|entered.events|..]);
    events
  }

  /** Building the scope with the constructor as written gives the same
      events: the body placed between the calls of a Guard's whole lifetime. */
  lemma EventsAsWritten(s: Scope)
    ensures var entered := Construct(s.parentConstructed, s.target);
            Events(s) == entered.events + [Body] + Lifetime(s).events[|entered.events|..]
  {
  }

  /** A body placed between calls that are not bodies occurs once. */
  lemma BodyOnce(before: seq<Event>, after: seq<Event>)
    requires Body !in before && Body !in after
    ensures Occurrences(before + [Body] + after, Body) == 1
  {
    OccurrencesConcat(before + [Body], after, Body);
    OccurrencesConcat(before, [Body], Body);
    OccurrencesSingle(Body, Body);
    OccurrencesZero(before, Body);
    OccurrencesZero(after, Body);
  }

  /** Corrected constructor: the Guard reports constructed exactly when it
      obtained the lock. It makes the same calls and holds the same lock as
      the constructor as written; only the reported validity differs. */
  function ConstructIntended(parentConstructed: bool, target: GuardObject): (g: GuardState)
    ensures g.constructed <==> g.isLocked
    ensures g.isLocked <==> parentConstructed && target.isConstructed && target.lockResult
    ensures g.events == Construct(parentConstructed, target).events
  {
    var written := Construct(parentConstructed, target);
    written.(constructed := written.isLocked)
  }

  /** The constructor as written reports failure even when `lock()` succeeded:
      a constructed base and a guarded object that locks successfully still
      give a not-constructed Guard that holds the lock. */
  lemma ConstructHidesLockSuccess()
    ensures Construct(true, GuardObject(true, true, true)).isLocked
    ensures !Construct(true, GuardObject(true, true, true)).constructed
    ensures ConstructIntended(true, GuardObject(true, true, true)).constructed
  {
  }
}
