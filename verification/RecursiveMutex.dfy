/** The recursive debug lock, one shared read or write at a time, for any number of threads
    under sequential consistency.  `lock` and `unlock` read the counter and the owner field
    without holding the mutex; the proofs show why that is safe. */
module RecursiveMutex {

  /** Where a thread is.  `Out`: in neither function.  `tmp` is the value just read. */
  datatype Point =
    | Out
    | LockReadCount
    | LockReadOwner
    | LockAcquire
    | LockWriteOwner
    | LockIncRead
    | LockIncWrite(tmp: int)
    | UnlockDecRead
    | UnlockDecWrite(tmp: int)
    | UnlockTest
    | UnlockRelease

  /** The shared fields, and per thread its program point and how many locks it holds. */
  datatype State = State(locked: int, owner: nat, mutex: int, pc: seq<Point>, depth: seq<nat>)

  const FREE := -1

  ghost predicate Shaped(s: State) {
    |s.pc| == |s.depth| && -1 <= s.mutex < |s.pc|
  }

  function At(s: State, t: nat, p: Point): State
    requires t < |s.pc|
  {
    s.(pc := s.pc[t := p])
  }

  /** A caller unlocks only what it has locked; any thread may call `lock`. */
  predicate Enabled(s: State, t: nat, unlock: bool)
    requires t < |s.pc| == |s.depth|
  {
    match s.pc[t]
    case Out => unlock ==> s.depth[t] > 0
    case LockAcquire => s.mutex == FREE
    case _ => true
  }

  /** The next atomic action of thread `t`; `unlock` is the call it makes when it is outside. */
  function Step(s: State, t: nat, unlock: bool): State
    requires t < |s.pc| == |s.depth| && Enabled(s, t, unlock)
  {
    match s.pc[t]
    case Out => At(s, t, if unlock then UnlockDecRead else LockReadCount)
    case LockReadCount => At(s, t, if s.locked == 0 then LockAcquire else LockReadOwner)
    case LockReadOwner => At(s, t, if s.owner == t then LockIncRead else LockAcquire)
    case LockAcquire => At(s, t, LockWriteOwner).(mutex := t)
    case LockWriteOwner => At(s, t, LockIncRead).(owner := t)
    case LockIncRead => At(s, t, LockIncWrite(s.locked))
    case LockIncWrite(tmp) => At(s, t, Out).(locked := tmp + 1, depth := s.depth[t := s.depth[t] + 1])
    case UnlockDecRead => At(s, t, UnlockDecWrite(s.locked))
    case UnlockDecWrite(tmp) =>
      At(s, t, UnlockTest).(locked := tmp - 1, depth := s.depth[t := if s.depth[t] > 0 then s.depth[t] - 1 else 0])
    case UnlockTest => At(s, t, if s.locked == 0 then UnlockRelease else Out)
    case UnlockRelease => At(s, t, Out).(mutex := FREE)
  }

  /** `n` threads, none inside; the owner field holds whatever it was initialised with. */
  function Initial(n: nat, owner: nat): State {
    State(0, owner, FREE, seq(n, _ => Out), seq(n, _ => 0))
  }

  // ---------------------------------------------------------------- the invariant

  /** What is known about a thread that does not hold the mutex.  The last line is the heart
      of the matter: once it has seen a nonzero counter, the owner field names someone else
      for as long as it stays outside, because only `t` itself ever writes `t` there. */
  ghost predicate Outsider(s: State, t: nat)
    requires t < |s.pc| == |s.depth|
  {
    && s.depth[t] == 0
    && s.pc[t] in {Out, LockReadCount, LockReadOwner, LockAcquire}
    && (s.pc[t] == LockReadOwner ==> s.owner != t)
  }

  /** What is known about the thread that holds the mutex, at each of its program points. */
  ghost predicate Holder(s: State, t: nat)
    requires t < |s.pc| == |s.depth|
  {
    && s.locked == s.depth[t]
    && (s.pc[t] != LockWriteOwner ==> s.owner == t)
    && match s.pc[t]
       case Out => s.depth[t] > 0
       case LockReadCount => s.depth[t] > 0
       case LockReadOwner => s.depth[t] > 0
       case LockAcquire => false
       case LockWriteOwner => s.depth[t] == 0
       case LockIncRead => true
       case LockIncWrite(tmp) => tmp == s.locked
       case UnlockDecRead => s.depth[t] > 0
       case UnlockDecWrite(tmp) => tmp == s.locked && s.depth[t] > 0
       case UnlockTest => true
       case UnlockRelease => s.depth[t] == 0
  }

  ghost predicate Inv(s: State) {
    && Shaped(s)
    && (s.mutex == FREE ==> s.locked == 0)
    && forall t :: 0 <= t < |s.pc| ==> if t == s.mutex then Holder(s, t) else Outsider(s, t)
  }

  lemma InitialInv(n: nat, owner: nat)
    ensures Inv(Initial(n, owner))
  {
  }

  lemma StepInv(s: State, t: nat, unlock: bool)
    requires Inv(s) && t < |s.pc| && Enabled(s, t, unlock)
    ensures Inv(Step(s, t, unlock))
  {
    var s' := Step(s, t, unlock);
    assert if t == s.mutex then Holder(s, t) else Outsider(s, t);
    assert s.mutex != FREE ==> Holder(s, s.mutex);
    forall u | 0 <= u < |s'.pc| ensures if u == s'.mutex then Holder(s', u) else Outsider(s', u) {
      assert if u == s.mutex then Holder(s, u) else Outsider(s, u);
    }
  }

  datatype Action = Action(thread: nat, unlock: bool)

  ghost predicate Reaches(s: State, run: seq<Action>, s': State)
    decreases |run|
  {
    if run == [] then s' == s
    else
      Shaped(s) && run[0].thread < |s.pc| && Enabled(s, run[0].thread, run[0].unlock)
      && Reaches(Step(s, run[0].thread, run[0].unlock), run[1..], s')
  }

  lemma {:induction false} RunInv(s: State, run: seq<Action>, s': State)
    requires Inv(s) && Reaches(s, run, s')
    ensures Inv(s')
    decreases |run|
  {
    if run != [] {
      StepInv(s, run[0].thread, run[0].unlock);
      RunInv(Step(s, run[0].thread, run[0].unlock), run[1..], s');
    }
  }

  // ---------------------------------------------------------------- what it gives

  /** A thread is about to change the counter or release the mutex. */
  predicate Updating(p: Point) {
    p.LockIncWrite? || p.UnlockDecWrite? || p.LockWriteOwner? || p.LockIncRead? || p.UnlockTest? || p.UnlockRelease?
  }

  /** Over every run of any number of threads, whatever the owner field started as:
      at most one thread holds the lock or updates its fields; the counter is the nesting
      depth of that thread; a nonzero counter means the owner field names it; and no thread
      waits for the mutex while it holds it itself. */
  lemma RunSafe(n: nat, owner: nat, run: seq<Action>, s: State, t: nat, u: nat)
    requires Reaches(Initial(n, owner), run, s)
    requires t < |s.pc| && u < |s.pc|
    ensures |s.depth| == |s.pc| == n
    ensures t != u && (s.depth[t] > 0 || Updating(s.pc[t])) ==> s.depth[u] == 0 && !Updating(s.pc[u])
    ensures s.depth[t] > 0 ==> s.locked == s.depth[t] && s.owner == t && s.mutex == t
    ensures s.locked != 0 ==> s.owner < |s.pc| && s.depth[s.owner] == s.locked
    ensures s.pc[t].LockAcquire? ==> s.mutex != t && s.depth[t] == 0
  {
    InitialInv(n, owner);
    RunInv(Initial(n, owner), run, s);
    RunThreads(Initial(n, owner), run, s);
    assert if t == s.mutex then Holder(s, t) else Outsider(s, t);
    assert if u == s.mutex then Holder(s, u) else Outsider(s, u);
    assert s.mutex != FREE ==> Holder(s, s.mutex);
  }

  lemma {:induction false} RunThreads(s: State, run: seq<Action>, s': State)
    requires Reaches(s, run, s')
    ensures |s'.pc| == |s.pc|
    decreases |run|
  {
    if run != [] {
      RunThreads(Step(s, run[0].thread, run[0].unlock), run[1..], s');
    }
  }

  /** Some thread can always move, unless every thread waits outside for a mutex that a
      thread between calls holds: the lock itself never deadlocks. */
  lemma NeverStuck(s: State, t: nat)
    requires Inv(s) && t < |s.pc| && !Enabled(s, t, false)
    ensures s.mutex != FREE && s.mutex != t && Enabled(s, s.mutex, s.pc[s.mutex] == Out)
  {
    assert s.mutex != FREE ==> Holder(s, s.mutex);
  }

  // ---------------------------------------------------------------- whole calls

  /** A run, with any actions of other threads in between, that ends as soon as `t` is outside. */
  ghost predicate Inside(s: State, run: seq<Action>, s': State, t: nat)
    requires Shaped(s) && t < |s.pc|
    decreases |run|
  {
    if run == [] then s' == s && s.pc[t] == Out
    else
      && s.pc[t] != Out && run[0].thread < |s.pc| && Enabled(s, run[0].thread, run[0].unlock)
      && var next := Step(s, run[0].thread, run[0].unlock);
        Shaped(next) && |next.pc| == |s.pc| && Inside(next, run[1..], s', t)
  }

  /** One call of `lock` or `unlock` by `t`, from the action with which `t` enters it to the one
      with which it returns. */
  ghost predicate WholeCall(s: State, run: seq<Action>, s': State, t: nat, unlock: bool)
    requires Shaped(s) && t < |s.pc|
  {
    && run != [] && run[0] == Action(t, unlock) && s.pc[t] == Out && Enabled(s, t, unlock)
    && var next := Step(s, t, unlock);
      Shaped(next) && |next.pc| == |s.pc| && Inside(next, run[1..], s', t)
  }

  function ActionsOf(run: seq<Action>, t: nat): nat {
    if run == [] then 0 else (if run[0].thread == t then 1 else 0) + ActionsOf(run[1..], t)
  }

  lemma {:induction false} ActionsOfLast(run: seq<Action>, a: Action, t: nat)
    ensures ActionsOf(run + [a], t) == ActionsOf(run, t) + if a.thread == t then 1 else 0
  {
    if run == [] {
      assert [a][1..] == [] && run + [a] == [a];
    } else {
      assert (run + [a])[1..] == run[1..] + [a];
      ActionsOfLast(run[1..], a, t);
    }
  }

  /** How deep `t` holds the lock at each point of a call it entered at depth `d`. */
  ghost predicate InCall(s: State, t: nat, unlock: bool, d: nat)
    requires t < |s.pc| == |s.depth|
  {
    match s.pc[t]
    case Out => s.depth[t] == (if unlock then d - 1 else d + 1) && (unlock && d == 1 ==> s.mutex == FREE)
    case UnlockDecRead => unlock && s.depth[t] == d
    case UnlockDecWrite(_) => unlock && s.depth[t] == d
    case UnlockTest => unlock && s.depth[t] == d - 1
    case UnlockRelease => unlock && s.depth[t] == 0 && d == 1
    case _ => !unlock && s.depth[t] == d
  }

  /** The most actions a thread still has to take before it is outside. */
  function StepsLeft(p: Point): nat {
    match p
    case Out => 0
    case LockReadCount => 6
    case LockReadOwner => 5
    case LockAcquire => 4
    case LockWriteOwner => 3
    case LockIncRead => 2
    case LockIncWrite(_) => 1
    case UnlockDecRead => 4
    case UnlockDecWrite(_) => 3
    case UnlockTest => 2
    case UnlockRelease => 1
  }

  lemma InCallStep(s: State, t: nat, unlock: bool, d: nat, a: Action)
    requires Inv(s) && t < |s.pc| && a.thread < |s.pc| && Enabled(s, a.thread, a.unlock)
    requires s.pc[t] != Out && InCall(s, t, unlock, d)
    ensures InCall(Step(s, a.thread, a.unlock), t, unlock, d)
    ensures StepsLeft(Step(s, a.thread, a.unlock).pc[t]) <= StepsLeft(s.pc[t]) - if a.thread == t then 1 else 0
  {
    assert if t == s.mutex then Holder(s, t) else Outsider(s, t);
  }

  lemma {:induction false} InsideEffect(s: State, run: seq<Action>, s': State, t: nat, unlock: bool, d: nat)
    requires Inv(s) && t < |s.pc| && InCall(s, t, unlock, d) && Inside(s, run, s', t)
    ensures Inv(s') && |s'.pc| == |s.pc| && s'.pc[t] == Out && InCall(s', t, unlock, d)
    ensures ActionsOf(run, t) <= StepsLeft(s.pc[t])
    decreases |run|
  {
    if run != [] {
      InCallStep(s, t, unlock, d, run[0]);
      StepInv(s, run[0].thread, run[0].unlock);
      InsideEffect(Step(s, run[0].thread, run[0].unlock), run[1..], s', t, unlock, d);
    }
  }

  /** What a call does, whatever the other threads do meanwhile.  When `lock` returns, the
      caller holds the mutex one level deeper; when `unlock` returns, one level less deep, and
      at depth 1 it has given the mutex up.  A call of `lock` takes at most 7 actions of its own
      thread, one of `unlock` at most 5. */
  lemma CallEffect(s: State, run: seq<Action>, s': State, t: nat, unlock: bool)
    requires Inv(s) && t < |s.pc| && WholeCall(s, run, s', t, unlock)
    ensures |s'.pc| == |s'.depth| == |s.pc| && s'.pc[t] == Out
    ensures !unlock ==> s'.depth[t] == s.depth[t] + 1 && s'.mutex == t
    ensures unlock ==> s'.depth[t] == s.depth[t] - 1 && s'.mutex == if s.depth[t] == 1 then FREE else t
    ensures ActionsOf(run, t) <= if unlock then 5 else 7
  {
    StepInv(s, t, unlock);
    var next := Step(s, t, unlock);
    InsideEffect(next, run[1..], s', t, unlock, s.depth[t]);
    assert if t == s'.mutex then Holder(s', t) else Outsider(s', t);
  }

  /** Between its calls a thread's depth and its hold on the mutex are nobody else's business. */
  lemma OthersLeaveAlone(s: State, t: nat, a: Action)
    requires Inv(s) && t < |s.pc| && a.thread < |s.pc| && a.thread != t && Enabled(s, a.thread, a.unlock)
    ensures var next := Step(s, a.thread, a.unlock);
      && |next.pc| == |next.depth| == |s.pc| && next.pc[t] == s.pc[t] && next.depth[t] == s.depth[t]
      && (s.mutex == t ==> next.mutex == t)
  {
    assert s.mutex == t ==> Holder(s, t) && Outsider(s, a.thread);
  }

  // ---------------------------------------------------------------- refinement

  /** The lock as its users see it: free, or held by one thread to some depth. */
  datatype Abstract = Free | Held(thread: nat, depth: nat)

  /** The atomic recursive lock: what one visible event may do. */
  ghost predicate AbstractStep(a: Abstract, a': Abstract, t: nat) {
    || a' == a
    || (a == Free && a' == Held(t, 1))
    || (a.Held? && a.thread == t && a' == Held(t, a.depth + 1))
    || (a.Held? && a.thread == t && a' == if a.depth <= 1 then Free else Held(t, a.depth - 1))
  }

  function Abstraction(s: State): Abstract
    requires |s.pc| == |s.depth|
  {
    if 0 <= s.mutex < |s.depth| && s.depth[s.mutex] > 0 then Held(s.mutex, s.depth[s.mutex]) else Free
  }

  /** Every atomic action of the unsynchronised code is a step of the atomic recursive lock:
      the increment is where a lock takes effect, the decrement where an unlock does, and
      nothing else is visible. */
  lemma StepRefines(s: State, t: nat, unlock: bool)
    requires Inv(s) && t < |s.pc| && Enabled(s, t, unlock)
    ensures var s' := Step(s, t, unlock);
      && AbstractStep(Abstraction(s), Abstraction(s'), t)
      && (s.pc[t].LockIncWrite? ==>
            Abstraction(s') == Held(t, if Abstraction(s).Held? then Abstraction(s).depth + 1 else 1))
      && (s.pc[t].UnlockDecWrite? ==>
            Abstraction(s).Held? && Abstraction(s).thread == t
            && Abstraction(s') == if Abstraction(s).depth <= 1 then Free else Held(t, Abstraction(s).depth - 1))
      && (!s.pc[t].LockIncWrite? && !s.pc[t].UnlockDecWrite? ==> Abstraction(s') == Abstraction(s))
  {
    assert if t == s.mutex then Holder(s, t) else Outsider(s, t);
    assert s.mutex != FREE ==> Holder(s, s.mutex);
  }
}
