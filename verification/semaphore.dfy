/**
 sys::Semaphore as far as its own code decides anything: the stored permit
 count, the fairness flag, construction success, and the poisoning rule of
 `release()`. The kernel primitives it would call (`sem_init`, `sem_post`,
 `sched_getscheduler`) are stubbed in the source; their answers are
 parameters here, and the stubbed answers are the constants below.
 */
module Semaphore {

  /** `int32_t`. */
  type Int32 = x: int | -0x8000_0000 <= x < 0x8000_0000

  /** The private kernel-facing helpers, recorded in the order they are called. */
  datatype KernelCall = Initialize | IsFair | Post | Deinitialize

  /** One Semaphore: the NonCopyable construction flag, `isFair_`,
      `permits_`, and the kernel helpers called on it so far. */
  datatype SemaphoreState = SemaphoreState(
    constructed: bool,
    isFair: bool,
    permits: Int32,
    kernel: seq<KernelCall>)

  /** What the stubbed `initialize()`, `isFair()` and `post()` return. */
  const InitializeAsWritten := false
  const IsFairAsWritten := false
  const PostAsWritten := false

  /** Constructor with its `construct()`: `permits_` is stored unconditionally;
      `initialize()` is called only when the NonCopyable base reports
      constructed; `isFair_` is sampled only after `initialize()` succeeded. */
  function Construct(permits: Int32, parentConstructed: bool, initializeResult: bool, isFairResult: bool)
    : (s: SemaphoreState)
    ensures s.permits == permits
    ensures s.constructed <==> parentConstructed && initializeResult
    ensures s.isFair <==> s.constructed && isFairResult
    ensures Initialize in s.kernel <==> parentConstructed
    ensures IsFair in s.kernel <==> s.constructed
    ensures |s.kernel| <= 2
    ensures s.kernel != [] ==> s.kernel[0] == Initialize
    ensures IsFair in s.kernel ==> s.kernel == [Initialize, IsFair]
    ensures s.kernel == [] || s.kernel == [Initialize] || s.kernel == [Initialize, IsFair]
    ensures Post !in s.kernel && Deinitialize !in s.kernel
  {
    if !parentConstructed then
      SemaphoreState(false, false, permits, [])
    else if !initializeResult then
      SemaphoreState(false, false, permits, [Initialize])
    else
      SemaphoreState(true, isFairResult, permits, [Initialize, IsFair])
  }

  /** `acquire()`: the kernel wait is not issued in the source, so the result
      stays at its initial false; in particular it never reports success on an
      object that is not constructed. The state is not changed. */
  function Acquire(s: SemaphoreState): (acquired: bool)
    ensures acquired ==> s.constructed
  {
    var res := false;
    res
  }

  /** With the body as written, `acquire()` never reports success. */
  lemma AcquireAsWrittenFails(s: SemaphoreState)
    ensures !Acquire(s)
  {
  }

  /** `release()`: on a constructed object `post()` is called and a failed post
      clears the construction flag; on any other object nothing happens. */
  function Release(s: SemaphoreState, postResult: bool): (s': SemaphoreState)
    ensures s'.permits == s.permits && s'.isFair == s.isFair
    ensures !s.constructed ==> s' == s
    ensures s.constructed ==> s'.kernel == s.kernel + [Post]
    ensures s.constructed ==> (s'.constructed <==> postResult)
  {
    if !s.constructed then s
    else
      var posted := s.(kernel := s.kernel + [Post]);
      if postResult then posted else posted.(constructed := false)
  }

  /** Destructor: `deinitialize()` is called whatever the state. */
  function Destruct(s: SemaphoreState): (s': SemaphoreState)
    ensures s'.kernel == s.kernel + [Deinitialize]
    ensures s'.constructed == s.constructed && s'.permits == s.permits && s'.isFair == s.isFair
  {
    s.(kernel := s.kernel + [Deinitialize])
  }

  /** A public operation on a Semaphore, with the answer its `post()` gives. */
  datatype Op = AcquireOp | ReleaseOp(postResult: bool)

  /** The state after running `ops` in order. */
  function Run(s: SemaphoreState, ops: seq<Op>): SemaphoreState
    decreases |ops|
  {
    if ops == [] then s
    else
      var next := match ops[0]
        case AcquireOp => s
        case ReleaseOp(postResult) => Release(s, postResult);
      Run(next, ops[1..])
  }

  /** Every `release()` in `ops` would see its `post()` succeed. */
  predicate AllPostsSucceed(ops: seq<Op>)
  {
    forall i :: 0 <= i < |ops| ==> ops[i].ReleaseOp? ==> ops[i].postResult
  }

  /** No operation changes `permits_` or `isFair_`. */
  lemma {:induction false} RunKeepsPermitsAndFairness(s: SemaphoreState, ops: seq<Op>)
    ensures Run(s, ops).permits == s.permits
    ensures Run(s, ops).isFair == s.isFair
    decreases |ops|
  {
    if ops != [] {
      var next := if ops[0].AcquireOp? then s else Release(s, ops[0].postResult);
      RunKeepsPermitsAndFairness(next, ops[1..]);
    }
  }

  /** The `permits` argument of the constructor is what `permits_` holds for
      the object's whole life, whatever the kernel answers. */
  lemma PermitsFixedForLife(permits: Int32, parentConstructed: bool, initializeResult: bool,
                            isFairResult: bool, ops: seq<Op>)
    ensures Run(Construct(permits, parentConstructed, initializeResult, isFairResult), ops).permits == permits
  {
    RunKeepsPermitsAndFairness(Construct(permits, parentConstructed, initializeResult, isFairResult), ops);
  }

  /** A Semaphore is still constructed after a run exactly when it was
      constructed before and no `post()` failed: one failed post poisons it for
      good, since nothing sets the flag back. */
  lemma {:induction false} RunPoisoning(s: SemaphoreState, ops: seq<Op>)
    ensures Run(s, ops).constructed <==> s.constructed && AllPostsSucceed(ops)
    decreases |ops|
  {
    if ops == [] {
    } else {
      var next := if ops[0].AcquireOp? then s else Release(s, ops[0].postResult);
      RunPoisoning(next, ops[1..]);
      assert AllPostsSucceed(ops) <==>
             (ops[0].ReleaseOp? ==> ops[0].postResult) && AllPostsSucceed(ops[1..]) by {
        if AllPostsSucceed(ops[1..]) && (ops[0].ReleaseOp? ==> ops[0].postResult) {
          forall i | 0 <= i < |ops| && ops[i].ReleaseOp?
            ensures ops[i].postResult
          {
            if i > 0 {
              assert ops[1..][i - 1] == ops[i];
            }
          }
        }
        if AllPostsSucceed(ops) {
          forall i | 0 <= i < |ops[1..]| && ops[1..][i].ReleaseOp?
            ensures ops[1..][i].postResult
          {
            assert ops[1..][i] == ops[i + 1];
          }
        }
      }
    }
  }

  /** A Semaphore that is not constructed (never was, or was poisoned) is
      inert: no operation changes it or calls into the kernel. */
  lemma {:induction false} PoisonedIsInert(s: SemaphoreState, ops: seq<Op>)
    requires !s.constructed
    ensures Run(s, ops) == s
    decreases |ops|
  {
    if ops != [] {
      PoisonedIsInert(s, ops[1..]);
    }
  }

  /** With `initialize()` and `isFair()` as written, every Semaphore ends its
      construction not constructed and not fair, and stays inert afterwards:
      no `post()` is ever issued on it. */
  lemma StubbedSemaphoreIsInert(permits: Int32, parentConstructed: bool, ops: seq<Op>)
    ensures !Construct(permits, parentConstructed, InitializeAsWritten, IsFairAsWritten).constructed
    ensures !Construct(permits, parentConstructed, InitializeAsWritten, IsFairAsWritten).isFair
    ensures Post !in Run(Construct(permits, parentConstructed, InitializeAsWritten, IsFairAsWritten), ops).kernel
  {
    PoisonedIsInert(Construct(permits, parentConstructed, InitializeAsWritten, IsFairAsWritten), ops);
  }

  /** With `post()` as written, the first `release()` on a constructed
      Semaphore poisons it. */
  lemma StubbedReleasePoisons(s: SemaphoreState)
    requires s.constructed
    ensures !Release(s, PostAsWritten).constructed
    ensures Release(s, PostAsWritten).kernel == s.kernel + [Post]
  {
  }
}
