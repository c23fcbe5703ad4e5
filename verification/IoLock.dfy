/** The lock around disk access: the scope object through which a worker uses it, and all the ways
    through `compressFile` of any number of workers. */
module IoLock {
  import opened Wrappers

  // ---------- the scope ----------

  /** The two flags of a scope: whether it has locked the mutex, and whether it is to unlock it. */
  datatype Scope = Scope(locked: bool, unlockFlag: bool)

  const LAZY := Scope(false, false)

  /** Locking blocks unless the scope has locked before or the mutex is free. */
  predicate CanLock(scope: Scope, owner: Option<nat>) {
    scope.locked || owner == None
  }

  function OwnerAfterLock(scope: Scope, owner: Option<nat>, me: nat): Option<nat> {
    if scope.locked then owner else Some(me)
  }

  function AfterLock(scope: Scope): Scope {
    if scope.locked then scope else Scope(true, true)
  }

  function OwnerAfterUnlock(scope: Scope, owner: Option<nat>): Option<nat> {
    if scope.unlockFlag then None else owner
  }

  /** The mutex, not recursive. */
  class MutexEx {
    var owner: Option<nat>

    constructor ()
      ensures owner == None
    {
      owner := None;
    }

    /** By the time it returns the mutex has become free. */
    method PerfLock(me: nat)
      requires owner == None
      modifies this
      ensures owner == Some(me)
    {
      owner := Some(me);
    }

    method PerfUnlock()
      modifies this
      ensures owner == None
    {
      owner := None;
    }
  }

  class MutexScope {
    const cs: MutexEx
    const me: nat
    var locked: bool
    var unlockFlag: bool

    function State(): Scope
      reads this
    {
      Scope(locked, unlockFlag)
    }

    /** With a timeout of 0 the constructor does not lock. */
    constructor Lazy(cs: MutexEx, me: nat)
      ensures this.cs == cs && this.me == me && State() == LAZY
    {
      this.cs, this.me, locked, unlockFlag := cs, me, false, false;
    }

    method Lock()
      requires CanLock(State(), cs.owner)
      modifies this, cs
      ensures State() == AfterLock(old(State()))
      ensures cs.owner == OwnerAfterLock(old(State()), old(cs.owner), me)
    {
      if !locked {
        cs.PerfLock(me);
        unlockFlag := true;
        locked := true;
      }
    }

    method InternalUnlock()
      modifies cs
      ensures cs.owner == OwnerAfterUnlock(State(), old(cs.owner))
    {
      if unlockFlag {
        cs.PerfUnlock();
      }
    }

    method Unlock()
      modifies this, cs
      ensures State() == LAZY
      ensures cs.owner == OwnerAfterUnlock(old(State()), old(cs.owner))
    {
      InternalUnlock();
      unlockFlag := false;
      locked := false;
    }

    /** The destructor unlocks what is still locked. */
    method Destroy()
      modifies cs
      ensures cs.owner == OwnerAfterUnlock(State(), old(cs.owner))
    {
      InternalUnlock();
    }
  }

  // ---------- workers in compressFile ----------

  /** Where a worker is with its item: before the first lock, at it, reading, at the unlock after
      that, compressing, at the second lock, rewriting the file, at the label `bail`, past its
      unlock; or between items. */
  datatype Pc =
    | Idle
    | Entered
    | WantRead
    | Reading
    | DoneReading
    | Compressing
    | WantWrite
    | Writing
    | Bailing
    | Leaving

  datatype Worker = Worker(pc: Pc, scope: Scope)

  datatype State = State(exclusive: bool, owner: Option<nat>, workers: seq<Worker>)

  /** What a worker does next. Early returns skip the label `bail` and leave the unlocking to the
      scope's destructor. */
  datatype Act =
    | NextItem
    | ReturnEarly
    | GoOn
    | GotoBail
    | EndScope

  datatype Step = Step(i: nat, act: Act)

  function Init(exclusive: bool, n: nat): State {
    State(exclusive, None, seq(n, _ => Worker(Idle, LAZY)))
  }

  predicate Enabled(s: State, step: Step) {
    && step.i < |s.workers|
    && var w := s.workers[step.i];
      match step.act
      case NextItem => w.pc == Idle
      case ReturnEarly => w.pc == Entered || w.pc == Reading
      case GotoBail => w.pc == Reading || w.pc == Compressing || w.pc == Writing
      case EndScope => w.pc == Leaving
      case GoOn =>
        match w.pc
        case Idle => false
        case WantRead => s.exclusive ==> CanLock(w.scope, s.owner)
        case WantWrite => CanLock(w.scope, s.owner)
        case Leaving => false
        case _ => true
  }

  function Put(s: State, i: nat, pc: Pc): State
    requires i < |s.workers|
  {
    s.(workers := s.workers[i := s.workers[i].(pc := pc)])
  }

  function PutLock(s: State, i: nat, pc: Pc): State
    requires i < |s.workers|
  {
    var scope := s.workers[i].scope;
    s.(workers := s.workers[i := Worker(pc, AfterLock(scope))], owner := OwnerAfterLock(scope, s.owner, i))
  }

  function PutUnlock(s: State, i: nat, pc: Pc): State
    requires i < |s.workers|
  {
    s.(workers := s.workers[i := Worker(pc, LAZY)], owner := OwnerAfterUnlock(s.workers[i].scope, s.owner))
  }

  function Apply(s: State, step: Step): State
    requires Enabled(s, step)
  {
    var i, w := step.i, s.workers[step.i];
    match step.act
    case NextItem => s.(workers := s.workers[i := Worker(Entered, LAZY)])
    case ReturnEarly => Put(s, i, Leaving)
    case GotoBail => Put(s, i, Bailing)
    case EndScope => PutUnlock(s, i, Idle)
    case GoOn =>
      match w.pc
      case Entered => Put(s, i, WantRead)
      case WantRead => if s.exclusive then PutLock(s, i, Reading) else Put(s, i, Reading)
      case Reading => Put(s, i, DoneReading)
      case DoneReading => if s.exclusive then PutUnlock(s, i, Compressing) else Put(s, i, Compressing)
      case Compressing => Put(s, i, WantWrite)
      case WantWrite => PutLock(s, i, Writing)
      case Writing => Put(s, i, Bailing)
      case Bailing => PutUnlock(s, i, Leaving)
  }

  function Run(s: State, steps: seq<Step>): Option<State> {
    if steps == [] then Some(s)
    else
      match Run(s, steps[..|steps| - 1])
      case None => None
      case Some(t) => if Enabled(t, steps[|steps| - 1]) then Some(Apply(t, steps[|steps| - 1])) else None
  }

  // ---------- what every reachable state keeps ----------

  /** The scope's flags agree with each other, with the mutex's owner and with where the worker is. */
  ghost predicate Ordered(s: State, i: nat)
    requires i < |s.workers|
  {
    var w := s.workers[i];
    && w.scope.locked == w.scope.unlockFlag
    && (w.scope.locked <==> s.owner == Some(i))
    && (w.pc == Writing || (s.exclusive && (w.pc == Reading || w.pc == DoneReading)) ==> w.scope.locked)
    && (w.pc == Idle || w.pc == Entered || w.pc == WantRead || w.pc == Compressing || w.pc == WantWrite ==>
          !w.scope.locked)
    && (!s.exclusive && (w.pc == Reading || w.pc == DoneReading || w.pc == Leaving) ==> !w.scope.locked)
  }

  ghost predicate Inv(s: State) {
    && (forall i :: 0 <= i < |s.workers| ==> Ordered(s, i))
    && (s.owner.Some? ==> s.owner.value < |s.workers|)
  }

  /** At most one scope is locked: that of the owner. */
  lemma InvNext(s: State, step: Step)
    requires Enabled(s, step) && Inv(s)
    ensures Inv(Apply(s, step)) && Apply(s, step).exclusive == s.exclusive
    ensures |Apply(s, step).workers| == |s.workers|
  {
    var t := Apply(s, step);
    assert Ordered(s, step.i);
    assert Ordered(t, step.i);
    forall i | 0 <= i < |s.workers| && i != step.i
      ensures Ordered(t, i)
    {
      assert Ordered(s, i);
      assert t.workers[i] == s.workers[i];
    }
  }

  lemma {:induction false} InvRun(exclusive: bool, n: nat, steps: seq<Step>)
    requires Run(Init(exclusive, n), steps).Some?
    ensures var s := Run(Init(exclusive, n), steps).value;
      Inv(s) && |s.workers| == n && s.exclusive == exclusive
  {
    hide Enabled, Apply;
    if steps != [] {
      InvRun(exclusive, n, steps[..|steps| - 1]);
      hide Inv;
      InvNext(Run(Init(exclusive, n), steps[..|steps| - 1]).value, steps[|steps| - 1]);
    }
  }

  // ---------- what it means ----------

  /** The file is being rewritten, or in exclusive mode read. */
  predicate UsesDisk(s: State, i: nat)
    requires i < |s.workers|
  {
    s.workers[i].pc == Writing || (s.exclusive && (s.workers[i].pc == Reading || s.workers[i].pc == DoneReading))
  }

  /** Only one worker at a time uses the disk, and nobody who compresses keeps others from it. */
  lemma OneAtATime(exclusive: bool, n: nat, steps: seq<Step>, s: State, i: nat, j: nat)
    requires Run(Init(exclusive, n), steps) == Some(s) && i < |s.workers| && j < |s.workers|
    ensures UsesDisk(s, i) && UsesDisk(s, j) ==> i == j
    ensures s.workers[i].scope.locked && s.workers[j].scope.locked ==> i == j
    ensures s.workers[i].pc == Compressing || s.workers[i].pc == Idle ==> s.owner != Some(i)
  {
    InvRun(exclusive, n, steps);
    assert Ordered(s, i) && Ordered(s, j);
  }

  /** A worker never waits for a mutex it holds itself. */
  lemma NoSelfDeadlock(exclusive: bool, n: nat, steps: seq<Step>, s: State, i: nat)
    requires Run(Init(exclusive, n), steps) == Some(s) && i < |s.workers|
    requires s.workers[i].pc == WantRead || s.workers[i].pc == WantWrite
    ensures s.owner != Some(i)
    ensures s.owner == None ==> Enabled(s, Step(i, GoOn))
  {
    InvRun(exclusive, n, steps);
    assert Ordered(s, i);
  }

  /** An unlock on a path on which this worker holds no lock releases nobody else's; and the end of
      the scope gives back what any path has left locked. */
  lemma UnlockIsOwn(exclusive: bool, n: nat, steps: seq<Step>, s: State, step: Step)
    requires Run(Init(exclusive, n), steps) == Some(s) && Enabled(s, step)
    ensures s.owner.Some? && s.owner != Some(step.i) ==> Apply(s, step).owner == s.owner
    ensures step.act == EndScope ==> Apply(s, step).owner != Some(step.i)
    ensures s.workers[step.i].pc == Bailing && step.act == GoOn ==> Apply(s, step).owner != Some(step.i)
  {
    InvRun(exclusive, n, steps);
    assert Ordered(s, step.i);
  }

  /** There is always a worker that can go on: the owner of the mutex, or anybody if there is none. */
  lemma NoDeadlock(exclusive: bool, n: nat, steps: seq<Step>, s: State) returns (step: Step)
    requires Run(Init(exclusive, n), steps) == Some(s) && n > 0
    ensures Enabled(s, step)
    ensures s.owner.Some? ==> step.i == s.owner.value
  {
    InvRun(exclusive, n, steps);
    var i := if s.owner.Some? then s.owner.value else 0;
    assert Ordered(s, i);
    var act := match s.workers[i].pc
      case Idle => NextItem
      case Leaving => EndScope
      case _ => GoOn;
    step := Step(i, act);
  }
}
