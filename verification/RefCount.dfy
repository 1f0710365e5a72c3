/** The reference count control block of ref_base.hpp as a concurrent step machine: any
    number of threads, one atomic operation per step. */
module RefCount {
  type Handle = nat
  type Thread = nat

  /** The counters are 32 bit wide and wrap. */
  const WRAP: nat := 0x1_0000_0000

  function Inc(c: nat): nat { (c + 1) % WRAP }
  function Dec(c: nat): nat { (c + WRAP - 1) % WRAP }

  /** Where a thread stands inside an operation on the block. */
  datatype Pc =
    | Locking(handle: Handle, seen: nat)   // try_increase, before a compare_exchange_weak
    | Destructing                          // strong reached zero, on_destruct is next
    | Releasing                            // on_destruct is done, the weak decrement is next
    | Deallocating                         // weak reached zero, on_deallocate is next

  datatype Event = Destruct | Deallocate

  /** Counters, live handles, threads inside an operation, and the callbacks made so far. */
  datatype State = State(
    strong: nat, weak: nat,
    strongs: set<Handle>, weaks: set<Handle>,
    threads: map<Thread, Pc>,
    log: seq<Event>)

  /** A fresh block with its first strong handle. */
  predicate Init(s: State) {
    s.strong == 1 && s.weak == 1 && |s.strongs| == 1 && s.weaks == {} && s.threads == map[] && s.log == []
  }

  datatype Step =
    | CopyStrong(from: Handle, to: Handle)
    | MakeWeak(from: Handle, to: Handle)
    | CopyWeak(from: Handle, to: Handle)
    | BeginLock(thread: Thread, handle: Handle)
    | CompareExchange(thread: Thread, to: Handle, spurious: bool)
    | DropStrong(thread: Thread, handle: Handle)
    | RunDestruct(thread: Thread)
    | ReleaseWeak(thread: Thread)
    | DropWeak(thread: Thread, handle: Handle)
    | RunDeallocate(thread: Thread)

  predicate At(s: State, t: Thread, pc: Pc) {
    t in s.threads && s.threads[t] == pc
  }

  predicate Pinned(s: State, h: Handle) {
    exists t :: t in s.threads && s.threads[t].Locking? && s.threads[t].handle == h
  }

  /** What the program may do next. A handle is used only while it is alive, a weak handle is
      not destroyed while a thread locks through it, and fewer than 2^32 handles exist. */
  predicate Enabled(s: State, step: Step) {
    match step
    case CopyStrong(from, to) => from in s.strongs && to !in s.strongs && |s.strongs| + 1 < WRAP
    case MakeWeak(from, to) => from in s.strongs && to !in s.weaks && |s.weaks| + 2 < WRAP
    case CopyWeak(from, to) => from in s.weaks && to !in s.weaks && |s.weaks| + 2 < WRAP
    case BeginLock(t, h) => t !in s.threads && h in s.weaks
    case CompareExchange(t, to, _) =>
      t in s.threads && s.threads[t].Locking? && to !in s.strongs && |s.strongs| + 1 < WRAP
    case DropStrong(t, h) => t !in s.threads && h in s.strongs
    case RunDestruct(t) => At(s, t, Destructing)
    case ReleaseWeak(t) => At(s, t, Releasing)
    case DropWeak(t, h) => t !in s.threads && h in s.weaks && !Pinned(s, h)
    case RunDeallocate(t) => At(s, t, Deallocating)
  }

  /** The effect of one atomic operation. */
  function Next(s: State, step: Step): State {
    match step
    case CopyStrong(_, to) => s.(strong := Inc(s.strong), strongs := s.strongs + {to})
    case MakeWeak(_, to) => s.(weak := Inc(s.weak), weaks := s.weaks + {to})
    case CopyWeak(_, to) => s.(weak := Inc(s.weak), weaks := s.weaks + {to})
    case BeginLock(t, h) =>
      if s.strong == 0 then s else s.(threads := s.threads[t := Locking(h, s.strong)])
    case CompareExchange(t, to, spurious) =>
      if t in s.threads && s.threads[t].Locking? then
        if s.strong == s.threads[t].seen && !spurious then
          s.(strong := Inc(s.strong), strongs := s.strongs + {to}, threads := s.threads - {t})
        else if s.strong == 0 then s.(threads := s.threads - {t})
        else s.(threads := s.threads[t := Locking(s.threads[t].handle, s.strong)])
      else s
    case DropStrong(t, h) =>
      s.(strong := Dec(s.strong), strongs := s.strongs - {h},
         threads := if s.strong == 1 then s.threads[t := Destructing] else s.threads)
    case RunDestruct(t) => s.(log := s.log + [Destruct], threads := s.threads[t := Releasing])
    case ReleaseWeak(t) =>
      s.(weak := Dec(s.weak),
         threads := if s.weak == 1 then s.threads[t := Deallocating] else s.threads - {t})
    case DropWeak(t, h) =>
      s.(weak := Dec(s.weak), weaks := s.weaks - {h},
         threads := if s.weak == 1 then s.threads[t := Deallocating] else s.threads)
    case RunDeallocate(t) => s.(log := s.log + [Deallocate], threads := s.threads - {t})
  }

  // ----- The invariant -----

  ghost predicate Somewhere(s: State, pc: Pc) {
    exists t :: At(s, t, pc)
  }

  /** At most one thread in all of these places together. */
  ghost predicate AtMostOne(s: State) {
    forall t, u ::
      (t in s.threads && u in s.threads && !s.threads[t].Locking? && !s.threads[u].Locking?) ==> t == u
  }

  /** The weak count holds one more until the last strong release has given it back. */
  ghost predicate StrongSide(s: State) {
    s.strong > 0 || Somewhere(s, Destructing) || Somewhere(s, Releasing)
  }

  ghost predicate Inv(s: State) {
    && s.strong == |s.strongs| < WRAP
    && s.weak == |s.weaks| + (if StrongSide(s) then 1 else 0) < WRAP
    && AtMostOne(s)
    && (forall t :: t in s.threads && s.threads[t].Locking? ==> s.threads[t].handle in s.weaks && s.threads[t].seen > 0)
    && (forall t :: t in s.threads && !s.threads[t].Locking? ==> s.strong == 0)
    && (Somewhere(s, Deallocating) ==> s.weak == 0)
    && s.log == (if s.strong > 0 || Somewhere(s, Destructing) then []
                 else if s.weak > 0 || Somewhere(s, Deallocating) then [Destruct]
                 else [Destruct, Deallocate])
  }

  lemma InitInv(s: State)
    requires Init(s)
    ensures Inv(s)
  {}

  lemma IncStep(c: nat)
    requires c + 1 < WRAP
    ensures Inc(c) == c + 1
  {}

  lemma DecStep(c: nat)
    requires 0 < c < WRAP
    ensures Dec(c) == c - 1
  {
    assert c + WRAP - 1 == WRAP + (c - 1);
    assert (WRAP + (c - 1)) % WRAP == c - 1;
  }

  lemma CopyStrongKeepsInv(s: State, step: Step)
    requires Inv(s) && Enabled(s, step) && step.CopyStrong?
    ensures Inv(Next(s, step))
  {
    IncStep(s.strong);
    assert |s.strongs + {step.to}| == |s.strongs| + 1;
  }

  lemma CopyWeakKeepsInv(s: State, step: Step)
    requires Inv(s) && Enabled(s, step) && (step.MakeWeak? || step.CopyWeak?)
    ensures Inv(Next(s, step))
  {
    var s' := Next(s, step);
    IncStep(s.weak);
    assert |s'.weaks| == |s.weaks| + 1;
    forall pc: Pc ensures Somewhere(s, pc) <==> Somewhere(s', pc) {
      if t :| At(s, t, pc) { assert At(s', t, pc); }
      if t :| At(s', t, pc) { assert At(s, t, pc); }
    }
  }

  lemma LockKeepsInv(s: State, step: Step)
    requires Inv(s) && Enabled(s, step) && (step.BeginLock? || step.CompareExchange?)
    ensures Inv(Next(s, step))
  {
    LockKeepsPlaces(s, step);
    if step.CompareExchange? && Next(s, step).strongs != s.strongs {
      IncStep(s.strong);
    }
  }

  /** A lock moves no thread in or out of a release. */
  lemma LockKeepsPlaces(s: State, step: Step)
    requires Enabled(s, step) && (step.BeginLock? || step.CompareExchange?)
    ensures forall pc: Pc :: !pc.Locking? ==> (Somewhere(s, pc) <==> Somewhere(Next(s, step), pc))
  {
    var s' := Next(s, step);
    forall pc: Pc | !pc.Locking? ensures Somewhere(s, pc) <==> Somewhere(s', pc) {
      if t :| At(s, t, pc) { assert At(s', t, pc); }
      if t :| At(s', t, pc) { assert At(s, t, pc); }
    }
  }

  lemma DropStrongKeepsInv(s: State, step: Step)
    requires Inv(s) && Enabled(s, step) && step.DropStrong?
    ensures Inv(Next(s, step))
  {
    var s' := Next(s, step);
    DecStep(s.strong);
    assert forall t :: t in s.threads ==> s.threads[t].Locking?;
    if s.strong == 1 {
      assert At(s', step.thread, Destructing);
    }
  }

  lemma RunDestructKeepsInv(s: State, step: Step)
    requires Inv(s) && Enabled(s, step) && step.RunDestruct?
    ensures Inv(Next(s, step))
  {
    var s' := Next(s, step);
    assert At(s, step.thread, Destructing) && At(s', step.thread, Releasing);
    assert forall u :: u in s'.threads && u != step.thread ==> s'.threads[u].Locking?;
  }

  lemma ReleaseWeakKeepsInv(s: State, step: Step)
    requires Inv(s) && Enabled(s, step) && step.ReleaseWeak?
    ensures Inv(Next(s, step))
  {
    var s' := Next(s, step);
    assert At(s, step.thread, Releasing);
    DecStep(s.weak);
    assert forall u :: u in s.threads && u != step.thread ==> s.threads[u].Locking?;
    if s.weak == 1 {
      assert At(s', step.thread, Deallocating);
    }
  }

  lemma DropWeakKeepsInv(s: State, step: Step)
    requires Inv(s) && Enabled(s, step) && step.DropWeak?
    ensures Inv(Next(s, step))
  {
    var s' := Next(s, step);
    DecStep(s.weak);
    forall pc | pc == Destructing || pc == Releasing ensures Somewhere(s, pc) <==> Somewhere(s', pc) {
      if t :| At(s, t, pc) { assert At(s', t, pc); }
      if t :| At(s', t, pc) { assert At(s, t, pc); }
    }
    if s.weak == 1 {
      assert At(s', step.thread, Deallocating);
      assert !StrongSide(s);
      forall t | t in s.threads ensures s.threads[t].Locking? {
        if s.threads[t] == Deallocating {
          assert At(s, t, Deallocating);
        } else if !s.threads[t].Locking? {
          assert At(s, t, s.threads[t]);
        }
      }
    } else {
      assert forall t, pc :: At(s', t, pc) <==> At(s, t, pc);
    }
  }

  lemma RunDeallocateKeepsInv(s: State, step: Step)
    requires Inv(s) && Enabled(s, step) && step.RunDeallocate?
    ensures Inv(Next(s, step))
  {
    var s' := Next(s, step);
    assert At(s, step.thread, Deallocating);
    assert s.weaks == {};
    assert forall u :: u in s.threads ==> u == step.thread;
  }

  /** Every atomic step of every thread keeps the invariant. */
  lemma StepKeepsInv(s: State, step: Step)
    requires Inv(s) && Enabled(s, step)
    ensures Inv(Next(s, step))
  {
    match step
    case CopyStrong(_, _) => CopyStrongKeepsInv(s, step);
    case MakeWeak(_, _) => CopyWeakKeepsInv(s, step);
    case CopyWeak(_, _) => CopyWeakKeepsInv(s, step);
    case BeginLock(_, _) => LockKeepsInv(s, step);
    case CompareExchange(_, _, _) => LockKeepsInv(s, step);
    case DropStrong(_, _) => DropStrongKeepsInv(s, step);
    case RunDestruct(_) => RunDestructKeepsInv(s, step);
    case ReleaseWeak(_) => ReleaseWeakKeepsInv(s, step);
    case DropWeak(_, _) => DropWeakKeepsInv(s, step);
    case RunDeallocate(_) => RunDeallocateKeepsInv(s, step);
  }

  // ----- Whole runs -----

  /** An interleaving: every step is enabled where it happens. */
  ghost predicate IsRun(s: State, steps: seq<Step>)
    decreases |steps|
  {
    steps == [] || (Enabled(s, steps[0]) && IsRun(Next(s, steps[0]), steps[1..]))
  }

  ghost function Run(s: State, steps: seq<Step>): State
    decreases |steps|
  {
    if steps == [] then s else Run(Next(s, steps[0]), steps[1..])
  }

  lemma {:induction false} RunKeepsInv(s: State, steps: seq<Step>)
    requires Inv(s) && IsRun(s, steps)
    ensures Inv(Run(s, steps))
    decreases |steps|
  {
    if steps != [] {
      StepKeepsInv(s, steps[0]);
      RunKeepsInv(Next(s, steps[0]), steps[1..]);
    }
  }

  /** Over every interleaving: the counters count the handles, on_destruct runs once and only
      after the last strong handle is gone, on_deallocate runs at most once, after it, and only
      when no handle of either kind is left. */
  lemma SafeOverEveryRun(s0: State, steps: seq<Step>)
    requires Init(s0) && IsRun(s0, steps)
    ensures var s := Run(s0, steps);
      && s.strong == |s.strongs|
      && s.weak == |s.weaks| + (if StrongSide(s) then 1 else 0)
      && s.log <= [Destruct, Deallocate]
      && (Destruct in s.log ==> s.strongs == {})
      && (Deallocate in s.log ==> s.strongs == {} && s.weaks == {})
  {
    InitInv(s0);
    RunKeepsInv(s0, steps);
  }

  /** Once there is no strong handle there will never be one again. */
  lemma {:induction false} StrongStaysZero(s: State, steps: seq<Step>)
    requires Inv(s) && IsRun(s, steps) && s.strong == 0
    ensures Run(s, steps).strong == 0
    decreases |steps|
  {
    if steps != [] {
      StepKeepsInv(s, steps[0]);
      StrongStaysZero(Next(s, steps[0]), steps[1..]);
    }
  }

  /** Steps that read or write the counters; the callbacks touch the object or free it. */
  /** Nothing can happen to the block any more after it was freed, and each callback has its one
      place. */
  lemma NothingTouchedAfterFree(s0: State, steps: seq<Step>, step: Step)
    requires Init(s0) && IsRun(s0, steps) && Enabled(Run(s0, steps), step)
    ensures Deallocate !in Run(s0, steps).log
    ensures step.RunDestruct? ==> Run(s0, steps).log == []
    ensures step.RunDeallocate? ==> Run(s0, steps).log == [Destruct]
  {
    InitInv(s0);
    RunKeepsInv(s0, steps);
    var s := Run(s0, steps);
    match step
    case BeginLock(_, h) => assert s.weak > 0;
    case ReleaseWeak(t) => assert At(s, t, Releasing);
    case RunDestruct(t) => assert At(s, t, Destructing);
    case RunDeallocate(t) =>
      assert At(s, t, Deallocating);
      assert !Somewhere(s, Destructing);
    case _ =>
  }

  /** The thread that takes a step, if the step is one of an operation with several. */
  function Actor(step: Step): set<Thread> {
    match step
    case CopyStrong(_, _) => {}
    case MakeWeak(_, _) => {}
    case CopyWeak(_, _) => {}
    case _ => {step.thread}
  }

  /** A step changes no other thread. */
  lemma ThreadsFrame(s: State, step: Step, u: Thread)
    requires u !in Actor(step)
    ensures u in Next(s, step).threads <==> u in s.threads
    ensures u in s.threads ==> Next(s, step).threads[u] == s.threads[u]
  {}

  /** A step changes no handle but the one it names, and logs its own callback only. */
  lemma HandlesFrame(s: State, step: Step)
    ensures var s' := Next(s, step);
      && s'.strongs == (if step.CopyStrong? then s.strongs + {step.to}
                        else if step.DropStrong? then s.strongs - {step.handle}
                        else if step.CompareExchange? && step.to in s'.strongs then s.strongs + {step.to} else s.strongs)
      && s'.weaks == (if step.MakeWeak? || step.CopyWeak? then s.weaks + {step.to}
                      else if step.DropWeak? then s.weaks - {step.handle} else s.weaks)
      && s'.log == (if step.RunDestruct? then s.log + [Destruct] else if step.RunDeallocate? then s.log + [Deallocate] else s.log)
  {}

  /** A lock begins exactly if a strong handle exists; otherwise it has failed and nothing changed. */
  lemma LockBegins(s: State, t: Thread, h: Handle)
    requires Inv(s) && Enabled(s, BeginLock(t, h))
    ensures var s' := Next(s, BeginLock(t, h));
      && (t in s'.threads <==> s.strongs != {})
      && s' == (if s.strongs == {} then s else s.(threads := s.threads[t := Locking(h, |s.strongs|)]))
  {}

  /** Every outcome of a compare-exchange: a new counted handle if the count is as it was seen,
      failure if no strong handle is left, and otherwise another round with the count seen anew. */
  lemma CompareExchangeOutcome(s: State, t: Thread, to: Handle, spurious: bool)
    requires Inv(s) && Enabled(s, CompareExchange(t, to, spurious))
    ensures var s', hit := Next(s, CompareExchange(t, to, spurious)), |s.strongs| == s.threads[t].seen && !spurious;
      && (hit ==> s'.strongs == s.strongs + {to} && s'.strong == |s.strongs| + 1 && s'.threads == s.threads - {t})
      && (!hit && s.strongs == {} ==> s' == s.(threads := s.threads - {t}))
      && (!hit && s.strongs != {} ==> s' == s.(threads := s.threads[t := Locking(s.threads[t].handle, |s.strongs|)]))
  {}

  /** A lock that nobody disturbs takes two steps, and yields a handle exactly if a strong one
      existed when it began. */
  lemma UndisturbedLock(s0: State, steps: seq<Step>, t: Thread, h: Handle, to: Handle)
    requires Init(s0) && IsRun(s0, steps) && t !in Run(s0, steps).threads && h in Run(s0, steps).weaks
    requires to !in Run(s0, steps).strongs && |Run(s0, steps).strongs| + 1 < 0x1_0000_0000
    ensures var s := Run(s0, steps);
      var s1 := Next(s, BeginLock(t, h));
      if s.strongs == {} then s1 == s
      else
        && Enabled(s, BeginLock(t, h)) && Enabled(s1, CompareExchange(t, to, false))
        && Next(s1, CompareExchange(t, to, false)) == s.(strong := s.strong + 1, strongs := s.strongs + {to})
  {
    InitInv(s0);
    RunKeepsInv(s0, steps);
    LockInTwoSteps(Run(s0, steps), t, h, to);
  }

  lemma LockInTwoSteps(s: State, t: Thread, h: Handle, to: Handle)
    requires Inv(s) && Enabled(s, BeginLock(t, h)) && to !in s.strongs && |s.strongs| + 1 < WRAP
    ensures var s1 := Next(s, BeginLock(t, h));
      if s.strongs == {} then s1 == s
      else
        && Enabled(s1, CompareExchange(t, to, false))
        && Next(s1, CompareExchange(t, to, false)) == s.(strong := s.strong + 1, strongs := s.strongs + {to})
  {
    LockBegins(s, t, h);
    if s.strongs != {} {
      var s1 := Next(s, BeginLock(t, h));
      assert s1.threads - {t} == s.threads;
      assert Inc(s.strong) == s.strong + 1;
    }
  }

  /** The last strong release is done: the object is destructed, its weak count given back, and
      the block freed if no weak handle is left. */
  lemma LastRelease(s: State, t: Thread, h: Handle)
    requires Inv(s) && t !in s.threads && s.strongs == {h}
    ensures var s1 := Next(s, DropStrong(t, h));
      var s2 := Next(s1, RunDestruct(t));
      var s3 := Next(s2, ReleaseWeak(t));
      var s4 := Next(s3, RunDeallocate(t));
      && Enabled(s, DropStrong(t, h)) && Enabled(s1, RunDestruct(t)) && Enabled(s2, ReleaseWeak(t))
      && (if s.weaks != {} then s3 == s.(strong := 0, strongs := {}, weak := |s.weaks|, log := [Destruct])
          else Enabled(s3, RunDeallocate(t)) && s4 == s.(strong := 0, strongs := {}, weak := 0, log := [Destruct, Deallocate]))
  {
    var s1 := Next(s, DropStrong(t, h));
    assert s1 == s.(strong := 0, strongs := {}, threads := s.threads[t := Destructing]);
    var s2 := Next(s1, RunDestruct(t));
    assert s2.threads == s.threads[t := Releasing] && s2.log == [Destruct];
    assert s2.threads - {t} == s.threads;
    assert s2.threads[t := Deallocating] - {t} == s.threads;
  }

  /** Any other release gives one count back and does nothing else. */
  lemma OtherRelease(s: State, t: Thread, h: Handle)
    requires Inv(s) && t !in s.threads
    ensures h in s.strongs && |s.strongs| > 1 ==>
              && Enabled(s, DropStrong(t, h))
              && Next(s, DropStrong(t, h)) == s.(strong := s.strong - 1, strongs := s.strongs - {h})
    ensures h in s.weaks && !Pinned(s, h) && (|s.weaks| > 1 || s.strongs != {}) ==>
              && Enabled(s, DropWeak(t, h))
              && Next(s, DropWeak(t, h)) == s.(weak := s.weak - 1, weaks := s.weaks - {h})
  {}

  /** A lock through a weak handle yields a strong handle exactly if one existed at the
      compare-exchange that decided it. */
  lemma LockSucceedsIffStrongExists(s: State, t: Thread, to: Handle, spurious: bool)
    requires Inv(s) && Enabled(s, CompareExchange(t, to, spurious))
    requires t !in Next(s, CompareExchange(t, to, spurious)).threads
    ensures to in Next(s, CompareExchange(t, to, spurious)).strongs <==> s.strongs != {}
  {}

  /** When all handles are gone and every thread has finished, the object was destructed and
      the block freed: nothing leaks. */
  lemma NothingLeaks(s0: State, steps: seq<Step>)
    requires Init(s0) && IsRun(s0, steps)
    requires Run(s0, steps).strongs == {} && Run(s0, steps).weaks == {} && Run(s0, steps).threads == map[]
    ensures Run(s0, steps).log == [Destruct, Deallocate]
  {
    InitInv(s0);
    RunKeepsInv(s0, steps);
  }

  /** The step a thread inside a release has to take next. */
  function Pending(t: Thread, pc: Pc): Step
    requires !pc.Locking?
  {
    match pc
    case Destructing => RunDestruct(t)
    case Releasing => ReleaseWeak(t)
    case Deallocating => RunDeallocate(t)
  }

  /** Until the block is freed, a state without handles always has a thread whose next step
      towards freeing it is enabled. */
  lemma ReleaseNeverStuck(s: State)
    requires Inv(s) && s.strongs == {} && s.weaks == {} && s.log != [Destruct, Deallocate]
    ensures exists t :: t in s.threads && !s.threads[t].Locking? && Enabled(s, Pending(t, s.threads[t]))
  {
    var pc := if Somewhere(s, Destructing) then Destructing
              else if Somewhere(s, Releasing) then Releasing else Deallocating;
    assert Somewhere(s, pc);
    var t :| At(s, t, pc);
    assert Enabled(s, Pending(t, pc));
  }

  /** The bound on live handles is exact: copying one handle more makes the counter read zero
      while handles are alive. */
  lemma WrapBreaksTheCount(s: State, from: Handle, to: Handle)
    requires Inv(s) && |s.strongs| == WRAP - 1 && from in s.strongs && to !in s.strongs
    ensures var c := Next(s, CopyStrong(from, to)); c.strong == 0 && |c.strongs| == WRAP && !Inv(c)
  {
    assert s.strong == WRAP - 1;
  }
}
