/** The compression property of a ZFS dataset that workers change for the time of a rewrite: counted
    references, of which the decrement is outside the lock; the disk lock that by default covers a
    whole rewrite; and quit requests, which go to the pool if there is one. */
module DataSet {
  import opened Wrappers

  /** What is the same for a whole run: with a pool of workers or in the main thread alone, and
      whether workers are to rewrite one at a time, which only `-J` turns off. */
  datatype Config = Config(initial: string, workers: nat, pool: bool, exclusive: bool) {
    predicate UsesIoLock() {
      pool && exclusive
    }
  }

  /** A worker between files; in `compressFile`, before and after taking the disk lock; in
      setCompression with the dataset's lock: before and after counting itself, and past the test
      with the zfs command running; rewriting a file; in resetCompression with the count gone to
      zero, before and with the lock; and done, the disk lock not yet given back. */
  datatype Pc =
    | Outside
    | Reading
    | Ready
    | Locked(newComp: string)
    | Counted(newComp: string)
    | Commanding(newComp: string)
    | Rewriting
    | MustRestore
    | Restoring
    | Done

  datatype State = State(
    config: Config,
    current: string,
    refcount: int,
    critsect: Option<nat>,
    ioLock: Option<nat>,
    quit: bool,           // the flag that _setCompression looks at
    stopped: bool,        // the pool's own
    workers: seq<Pc>,
    abandoned: nat,       // references never given back: of failed rewrites, and of all when
                          // only the end of the run is to restore
    ended: Option<bool>)  // whether with the forced reset

  datatype Step =
    | Take(i: nat)
    | Skip(i: nat)
    | LockIo(i: nat)
    | LockToSet(i: nat, newComp: string)
    | CountUp(i: nat)
    | Test(i: nat)
    | SetCompression(i: nat, ok: bool)  // ok: the zfs command succeeds
    | Abandon(i: nat)
    | CountDown(i: nat)
    | LockToRestore(i: nat)
    | Restore(i: nat)
    | UnlockIo(i: nat)
    | RequestQuit
    | End(forced: bool)

  function Init(config: Config): State {
    State(config, config.initial, 0, None, None, false, false, seq(config.workers, _ => Outside), 0, None)
  }

  predicate At(s: State, i: nat, pc: Pc) {
    i < |s.workers| && s.workers[i] == pc
  }

  predicate Enabled(s: State, step: Step) {
    match step
    case Take(i) => At(s, i, Outside) && !s.quit && !s.stopped && s.ended == None
    case Skip(i) => At(s, i, Reading)
    case LockIo(i) => At(s, i, Reading) && (s.config.UsesIoLock() ==> s.ioLock == None)
    case LockToSet(i, _) => At(s, i, Ready) && s.critsect == None
    case CountUp(i) => i < |s.workers| && s.workers[i].Locked?
    case Test(i) => i < |s.workers| && s.workers[i].Counted?
    case SetCompression(i, _) => i < |s.workers| && s.workers[i].Commanding?
    case Abandon(i) => At(s, i, Rewriting)
    case CountDown(i) => At(s, i, Rewriting)
    case LockToRestore(i) => At(s, i, MustRestore) && s.critsect == None
    case Restore(i) => At(s, i, Restoring)
    case UnlockIo(i) => At(s, i, Done)
    case RequestQuit => true
    case End(_) => s.ended == None && Quiet(s)
  }

  predicate Quiet(s: State) {
    forall i :: 0 <= i < |s.workers| ==> s.workers[i] == Outside
  }

  /** The test in _setCompression: nothing new once the flag is up, and no command when nothing
      would change. */
  predicate Passes(s: State, newComp: string) {
    !(s.quit && newComp != s.config.initial) && s.current != newComp
  }

  /** _setCompression as a whole. The command for the initial value is assumed to succeed. */
  function SetTo(s: State, newComp: string, ok: bool): string {
    if Passes(s, newComp) && ok then newComp else s.current
  }

  function Move(s: State, i: nat, pc: Pc): State
    requires i < |s.workers|
  {
    s.(workers := s.workers[i := pc])
  }

  function Apply(s: State, step: Step): State
    requires Enabled(s, step)
  {
    match step
    case Take(i) => Move(s, i, Reading)
    case Skip(i) => Move(s, i, Outside)
    case LockIo(i) => Move(s, i, Ready).(ioLock := if s.config.UsesIoLock() then Some(i) else s.ioLock)
    case LockToSet(i, newComp) => Move(s, i, Locked(newComp)).(critsect := Some(i))
    case CountUp(i) => Move(s, i, Counted(s.workers[i].newComp)).(refcount := s.refcount + 1)
    case Test(i) =>
      var newComp := s.workers[i].newComp;
      if Passes(s, newComp) then Move(s, i, Commanding(newComp)) else Move(s, i, Rewriting).(critsect := None)
    case SetCompression(i, ok) =>
      Move(s, i, Rewriting).(current := if ok then s.workers[i].newComp else s.current, critsect := None)
    case Abandon(i) => Move(s, i, Done).(abandoned := s.abandoned + 1)
    case CountDown(i) => Move(s, i, if s.refcount == 1 then MustRestore else Done).(refcount := s.refcount - 1)
    case LockToRestore(i) => Move(s, i, Restoring).(critsect := Some(i))
    case Restore(i) => Move(s, i, Done).(current := SetTo(s, s.config.initial, true), critsect := None)
    case UnlockIo(i) => Move(s, i, Outside).(ioLock := if s.config.UsesIoLock() then None else s.ioLock)
    case RequestQuit => if s.config.pool then s.(stopped := true) else s.(quit := true)
    case End(forced) => Ended(s, forced)
  }

  /** The end of a dataset's record once the workers are done: resetCompression by force, if so
      configured, and the destructor. */
  function Ended(s: State, forced: bool): State {
    var t := if forced then s.(refcount := s.refcount - 1, current := SetTo(s, s.config.initial, true)) else s;
    t.(current := SetTo(t, t.config.initial, true), ended := Some(forced))
  }

  function Run(s: State, steps: seq<Step>): Option<State> {
    if steps == [] then Some(s)
    else
      match Run(s, steps[..|steps| - 1])
      case None => None
      case Some(t) => if Enabled(t, steps[|steps| - 1]) then Some(Apply(t, steps[|steps| - 1])) else None
  }

  // ---------- the two calls, undisturbed ----------

  /** The record of a dataset. Its methods are what the steps of one worker amount to when nothing
      else comes between them. */
  class CompressionInfo {
    const initialCompression: string
    var currentCompression: string
    var refcount: int
    var quitRequested: bool

    constructor (compression: string)
      ensures initialCompression == compression
      ensures AsState(Outside) == Init(Config(compression, 1, false, true))
    {
      initialCompression, currentCompression, refcount, quitRequested := compression, compression, 0, false;
    }

    ghost function AsState(pc: Pc): State
      reads this
    {
      State(Config(initialCompression, 1, false, true), currentCompression, refcount, None, None,
            quitRequested, false, [pc], 0, None)
    }

    /** _setCompression; `ok` says whether the zfs command succeeds. */
    method SetProperty(newComp: string, ok: bool) returns (ret: bool)
      modifies this`currentCompression
      ensures currentCompression == SetTo(old(AsState(Outside)), newComp, ok)
    {
      ret := false;
      if quitRequested && newComp != initialCompression {
        return;
      }
      if currentCompression != newComp && ok {
        currentCompression := newComp;
        ret := true;
      }
    }

    method SetCompression(newComp: string, ok: bool) returns (ret: bool)
      modifies this`currentCompression, this`refcount
      ensures
        var tested := Apply(Apply(Apply(old(AsState(Ready)), LockToSet(0, newComp)), CountUp(0)), Test(0));
        AsState(Rewriting) ==
          if tested.workers[0].Commanding? then Apply(tested, Step.SetCompression(0, ok)) else tested
    {
      refcount := refcount + 1;
      ret := SetProperty(newComp, ok);
    }

    method ResetCompression() returns (ret: bool)
      modifies this`currentCompression, this`refcount
      ensures var counted := Apply(old(AsState(Rewriting)), CountDown(0));
        AsState(Done) ==
          if counted.workers[0] == MustRestore then Apply(Apply(counted, LockToRestore(0)), Restore(0)) else counted
    {
      ret := false;
      var before := refcount;
      refcount := refcount - 1;
      if before == 1 {
        ret := SetProperty(initialCompression, true);
      }
    }
  }

  // ---------- what every reachable state keeps ----------

  predicate Holds(pc: Pc) {
    pc.Counted? || pc.Commanding? || pc.Rewriting?
  }

  function Holders(ws: seq<Pc>): nat {
    if ws == [] then 0 else Holders(ws[..|ws| - 1]) + (if Holds(ws[|ws| - 1]) then 1 else 0)
  }

  lemma {:induction false} HoldersChange(ws: seq<Pc>, i: nat, pc: Pc)
    requires i < |ws|
    ensures Holders(ws[i := pc]) + (if Holds(ws[i]) then 1 else 0) == Holders(ws) + (if Holds(pc) then 1 else 0)
  {
    var last := |ws| - 1;
    var init := ws[..last];
    assert ws[i := pc][..last] == if i == last then init else init[i := pc];
    if i != last {
      HoldersChange(init, i, pc);
    }
  }

  predicate Restores(pc: Pc) {
    pc.MustRestore? || pc.Restoring?
  }

  /** Some worker is about to restore the initial value. */
  ghost predicate Pending(s: State) {
    exists i :: 0 <= i < |s.workers| && Restores(s.workers[i])
  }

  predicate HasLock(pc: Pc) {
    pc.Locked? || pc.Counted? || pc.Commanding? || pc.Restoring?
  }

  /** Between taking the disk lock and giving it back. */
  predicate InIo(pc: Pc) {
    !pc.Outside? && !pc.Reading?
  }

  /** The references that are held: by workers, or never given back; less the one a forced reset
      gives back for nobody. */
  function References(s: State): int {
    Holders(s.workers) + s.abandoned - (if s.ended == Some(true) then 1 else 0)
  }

  ghost predicate LocksHeld(s: State) {
    && (forall i :: 0 <= i < |s.workers| ==> (HasLock(s.workers[i]) <==> s.critsect == Some(i)))
    && (s.critsect.Some? ==> s.critsect.value < |s.workers|)
    && (s.config.UsesIoLock() ==> forall i :: 0 <= i < |s.workers| ==> (InIo(s.workers[i]) <==> s.ioLock == Some(i)))
  }

  ghost predicate Accounted(s: State) {
    && (s.refcount > 0 || Pending(s) || s.current == s.config.initial)
    && (s.ended.Some? ==> Quiet(s) && s.current == s.config.initial)
  }

  /** Only one of the two flags is ever used. */
  predicate OneFlag(s: State) {
    if s.config.pool then !s.quit else !s.stopped
  }

  ghost predicate Inv(s: State) {
    s.refcount == References(s) && LocksHeld(s) && Accounted(s) && OneFlag(s) && |s.workers| == s.config.workers
  }

  lemma {:induction false} SomebodyHolds(ws: seq<Pc>, i: nat)
    requires i < |ws| && Holds(ws[i])
    ensures Holders(ws) > 0
  {
    if i < |ws| - 1 {
      SomebodyHolds(ws[..|ws| - 1], i);
    }
  }

  function Actor(step: Step): Option<nat> {
    if step.RequestQuit? || step.End? then None else Some(step.i)
  }

  /** A step changes at most one worker. */
  lemma OneWorker(s: State, step: Step)
    requires Enabled(s, step)
    ensures var t := Apply(s, step);
      && |t.workers| == |s.workers| && t.config == s.config
      && match Actor(step)
         case None => t.workers == s.workers
         case Some(i) => i < |s.workers| && t.workers == s.workers[i := t.workers[i]]
  {
  }

  lemma CountNext(s: State, step: Step)
    requires Enabled(s, step) && s.refcount == References(s)
    ensures var t := Apply(s, step); t.refcount == References(t)
  {
    var t := Apply(s, step);
    OneWorker(s, step);
    CountMoves(s, step);
    hide Apply, Enabled, Holds;
    if Actor(step).Some? {
      HoldersChange(s.workers, step.i, t.workers[step.i]);
    }
  }

  /** The count moves with the workers that hold a reference. */
  lemma CountMoves(s: State, step: Step)
    requires Enabled(s, step)
    ensures var t := Apply(s, step);
      match Actor(step)
      case None =>
        t.abandoned == s.abandoned
        && t.refcount + (if t.ended == Some(true) then 1 else 0)
           == s.refcount + (if s.ended == Some(true) then 1 else 0)
      case Some(i) =>
        && i < |t.workers| == |s.workers| && t.ended == s.ended
        && t.refcount - t.abandoned - (if Holds(t.workers[i]) then 1 else 0)
           == s.refcount - s.abandoned - (if Holds(s.workers[i]) then 1 else 0)
  {
    hide SetTo, Passes, Quiet;
  }

  /** A pending restore stays pending until it is carried out. */
  lemma PendingNext(s: State, step: Step)
    requires Enabled(s, step) && Pending(s)
    ensures Pending(Apply(s, step)) || step.Restore?
  {
    var t := Apply(s, step);
    OneWorker(s, step);
    var k :| 0 <= k < |s.workers| && Restores(s.workers[k]);
    if !step.Restore? {
      assert Restores(t.workers[k]);
    }
  }

  lemma InvNext(s: State, step: Step)
    requires Enabled(s, step) && Inv(s)
    ensures Inv(Apply(s, step)) && Apply(s, step).config == s.config
  {
    OneWorker(s, step);
    CountNext(s, step);
    LockNext(s, step);
    ChangeNext(s, step);
    FlagNext(s, step);
    hide Apply, Enabled, Accounted, LocksHeld, References, OneFlag;
  }

  lemma FlagNext(s: State, step: Step)
    requires Enabled(s, step) && OneFlag(s)
    ensures OneFlag(Apply(s, step))
  {
  }

  /** A lock is taken only when it is free, and only its owner gives it back. */
  predicate PassesOn(before: Option<nat>, after: Option<nat>, i: nat) {
    before == after || ((before == None || before == Some(i)) && (after == None || after == Some(i)))
  }

  lemma LockMoves(s: State, step: Step)
    requires Enabled(s, step) && LocksHeld(s)
    ensures var t := Apply(s, step);
      |t.workers| == |s.workers| &&
      match Actor(step)
      case None => t.critsect == s.critsect
      case Some(i) =>
        i < |t.workers| && (HasLock(t.workers[i]) <==> t.critsect == Some(i)) && PassesOn(s.critsect, t.critsect, i)
  {
    if Actor(step).Some? {
      assert HasLock(s.workers[step.i]) <==> s.critsect == Some(step.i);
    }
    hide LocksHeld;
  }

  lemma IoLockMoves(s: State, step: Step)
    requires Enabled(s, step) && LocksHeld(s) && s.config.UsesIoLock()
    ensures var t := Apply(s, step);
      |t.workers| == |s.workers| &&
      match Actor(step)
      case None => t.ioLock == s.ioLock
      case Some(i) =>
        i < |t.workers| && (InIo(t.workers[i]) <==> t.ioLock == Some(i)) && PassesOn(s.ioLock, t.ioLock, i)
  {
    if Actor(step).Some? {
      assert InIo(s.workers[step.i]) <==> s.ioLock == Some(step.i);
    }
    hide LocksHeld;
  }

  lemma LockNext(s: State, step: Step)
    requires Enabled(s, step) && LocksHeld(s)
    ensures LocksHeld(Apply(s, step))
  {
    OneWorker(s, step);
    LockMoves(s, step);
    if s.config.UsesIoLock() {
      IoLockMoves(s, step);
    }
    hide Apply, Enabled, HasLock, InIo;
  }

  lemma ChangeNext(s: State, step: Step)
    requires Enabled(s, step) && s.refcount == References(s) && Accounted(s)
    ensures Accounted(Apply(s, step))
  {
    EndNext(s, step);
    if Pending(s) && !step.Restore? {
      PendingNext(s, step);
    } else {
      BackNext(s, step);
    }
    hide Apply, Enabled, References, Pending, Quiet;
  }

  /** Once it is over nothing changes any more. */
  lemma EndNext(s: State, step: Step)
    requires Enabled(s, step) && Accounted(s)
    ensures var t := Apply(s, step); t.ended.Some? ==> Quiet(t) && t.current == t.config.initial
  {
    hide Holders;
  }

  lemma BackNext(s: State, step: Step)
    requires Enabled(s, step) && s.refcount == References(s) && Accounted(s) && (Pending(s) ==> step.Restore?)
    ensures var t := Apply(s, step); t.refcount > 0 || Pending(t) || t.current == t.config.initial
  {
    var t := Apply(s, step);
    match step {
      case Test(i) => SomebodyHolds(s.workers, i);
      case SetCompression(i, ok) => SomebodyHolds(s.workers, i);
      case Abandon(i) => SomebodyHolds(s.workers, i);
      case CountDown(i) =>
        SomebodyHolds(s.workers, i);
        assert s.refcount == 1 ==> Restores(t.workers[i]);
      case _ =>
    }
  }

  lemma {:induction false} InvRun(config: Config, steps: seq<Step>)
    requires Run(Init(config), steps).Some?
    ensures var s := Run(Init(config), steps).value; Inv(s) && s.config == config
  {
    hide Enabled, Apply;
    if steps == [] {
      NobodyHolds(Init(config).workers);
    } else {
      InvRun(config, steps[..|steps| - 1]);
      hide Inv;
      InvNext(Run(Init(config), steps[..|steps| - 1]).value, steps[|steps| - 1]);
    }
  }

  lemma {:induction false} NobodyHolds(ws: seq<Pc>)
    requires forall i :: 0 <= i < |ws| ==> !Holds(ws[i])
    ensures Holders(ws) == 0
  {
    if ws != [] {
      NobodyHolds(ws[..|ws| - 1]);
    }
  }

  lemma {:induction false} RunSplits(s: State, steps: seq<Step>, more: seq<Step>)
    ensures Run(s, steps + more) == match Run(s, steps) case None => None case Some(t) => Run(t, more)
  {
    hide Enabled, Apply;
    if more == [] {
      assert steps + more == steps;
    } else {
      var all, last := steps + more, |more| - 1;
      assert all[..|all| - 1] == steps + more[..last];
      RunSplits(s, steps, more[..last]);
    }
  }

  /** Where a run may go on from, the invariant still holds. */
  lemma {:induction false} InvOnwards(s: State, steps: seq<Step>)
    requires Inv(s) && Run(s, steps).Some?
    ensures var t := Run(s, steps).value; Inv(t) && t.config == s.config
  {
    hide Enabled, Apply, Inv;
    if steps != [] {
      InvOnwards(s, steps[..|steps| - 1]);
      InvNext(Run(s, steps[..|steps| - 1]).value, steps[|steps| - 1]);
    }
  }

  // ---------- the property comes back ----------

  /** In every reachable state the dataset has its initial compression unless a reference is held
      or a restore is under way. */
  lemma ReferencesAccountForChange(config: Config, steps: seq<Step>, s: State)
    requires Run(Init(config), steps) == Some(s)
    ensures s.refcount == References(s) && (s.ended != Some(true) ==> s.refcount >= 0)
    ensures s.current != config.initial ==> s.ended == None && (s.refcount > 0 || Pending(s))
  {
    InvRun(config, steps);
  }

  /** When all is quiet the count is that of the failed rewrites; and if there were none, the
      initial compression is back. */
  lemma RestoredWhenQuiet(config: Config, steps: seq<Step>, s: State)
    requires Run(Init(config), steps) == Some(s) && Quiet(s) && s.ended == None
    ensures s.refcount == s.abandoned && s.critsect == None
    ensures s.abandoned == 0 ==> s.current == config.initial
  {
    InvRun(config, steps);
    NobodyHolds(s.workers);
  }

  /** A run ends when all is quiet. From then on, whatever references were never given back and
      whether or not somebody asked to quit, the initial compression is back for good. */
  lemma RestoredAtTheEnd(config: Config, steps: seq<Step>, forced: bool, more: seq<Step>, s: State)
    requires Run(Init(config), steps) == Some(s) && Quiet(s) && s.ended == None
    requires Run(Init(config), steps + [End(forced)] + more).Some?
    ensures var t := Run(Init(config), steps + [End(forced)] + more).value;
      && t.current == config.initial && Quiet(t)
      && t.refcount == s.abandoned - (if forced then 1 else 0)
  {
    var init := Init(config);
    RunSplits(init, steps + [End(forced)], more);
    assert (steps + [End(forced)])[..|steps|] == steps;
    var e := Run(init, steps + [End(forced)]).value;
    InvRun(config, steps + [End(forced)] + more);
    InvRun(config, steps);
    StaysEnded(e, more);
    NobodyHolds(Run(e, more).value.workers);
  }

  lemma {:induction false} StaysEnded(s: State, steps: seq<Step>)
    requires s.ended.Some? && Quiet(s) && Run(s, steps).Some?
    ensures var t := Run(s, steps).value; t.ended == s.ended && t.abandoned == s.abandoned && Quiet(t)
  {
    hide Enabled, Apply, Quiet;
    if steps != [] {
      StaysEnded(s, steps[..|steps| - 1]);
      hide Run;
      NothingAfter(Run(s, steps[..|steps| - 1]).value, steps[|steps| - 1]);
    }
  }

  lemma NothingAfter(s: State, step: Step)
    requires s.ended.Some? && Quiet(s) && Enabled(s, step)
    ensures var t := Apply(s, step); t.ended == s.ended && t.abandoned == s.abandoned && Quiet(t)
  {
  }

  /** What the last zfs command that succeeded has set, counting a restore and the end. */
  function LastSet(init: State, steps: seq<Step>): string {
    if steps == [] then init.current
    else
      var sooner, last := steps[..|steps| - 1], steps[|steps| - 1];
      if last.Restore? || last.End? then init.config.initial
      else if last.SetCompression? && last.ok then NewCompOf(Run(init, sooner), last.i)
      else LastSet(init, sooner)
  }

  function NewCompOf(s: Option<State>, i: nat): string {
    match s
    case Some(t) => if i < |t.workers| && t.workers[i].Commanding? then t.workers[i].newComp else ""
    case None => ""
  }

  /** Nothing else changes the property; a command that fails does not. */
  lemma {:induction false} OnlyCommandsChange(config: Config, steps: seq<Step>)
    requires Run(Init(config), steps).Some?
    ensures Run(Init(config), steps).value.current == LastSet(Init(config), steps)
  {
    hide Enabled, Apply;
    if steps != [] {
      var sooner := steps[..|steps| - 1];
      OnlyCommandsChange(config, sooner);
      InvRun(config, sooner);
      CommandNext(Run(Init(config), sooner).value, steps[|steps| - 1]);
    }
  }

  lemma CommandNext(s: State, step: Step)
    requires Enabled(s, step)
    ensures Apply(s, step).current ==
      if step.Restore? || step.End? then s.config.initial
      else if step.SetCompression? && step.ok then NewCompOf(Some(s), step.i)
      else s.current
  {
  }

  // ---------- quit requests ----------

  /** A worker that has a file but has not yet come to setCompression. */
  predicate Before(pc: Pc) {
    pc.Reading? || pc.Ready?
  }

  /** How often a worker enters setCompression. */
  function Sets(i: nat, steps: seq<Step>): nat {
    if steps == [] then 0
    else
      var last := steps[|steps| - 1];
      Sets(i, steps[..|steps| - 1]) + (if last.LockToSet? && last.i == i then 1 else 0)
  }

  /** With a pool a quit request goes to the pool: in every run from then on, setCompression tests
      as if nobody had asked, workers between files stay there, and a worker with a file in hand
      enters setCompression for that file if it has not done so, but for no other. */
  lemma QuitWithPool(config: Config, steps: seq<Step>, s: State, more: seq<Step>, t: State, i: nat)
    requires config.pool && Run(Init(config), steps) == Some(s) && s.stopped
    requires Run(s, more) == Some(t) && i < config.workers
    ensures t.stopped && i < |s.workers| == |t.workers|
    ensures forall newComp :: Passes(t, newComp) <==> t.current != newComp
    ensures s.workers[i] == Outside ==>
      t.workers[i] == Outside && forall k :: 0 <= k < |more| ==> Actor(more[k]) != Some(i)
    ensures Sets(i, more) <= (if Before(s.workers[i]) then 1 else 0)
  {
    InvRun(config, steps);
    InvOnwards(s, more);
    Stopping(s, more, i);
  }

  lemma {:induction false} Stopping(s: State, steps: seq<Step>, i: nat)
    requires (s.stopped || s.quit) && Run(s, steps).Some? && i < |s.workers|
    ensures var t := Run(s, steps).value;
      && (s.stopped ==> t.stopped) && (s.quit ==> t.quit) && |t.workers| == |s.workers|
      && Sets(i, steps) + (if Before(t.workers[i]) then 1 else 0) <= (if Before(s.workers[i]) then 1 else 0)
    ensures var t := Run(s, steps).value;
      s.workers[i] == Outside ==>
        t.workers[i] == Outside && forall k :: 0 <= k < |steps| ==> Actor(steps[k]) != Some(i)
  {
    hide Enabled, Apply, Before, Actor;
    if steps != [] {
      var sooner, last := steps[..|steps| - 1], steps[|steps| - 1];
      Stopping(s, sooner, i);
      StoppingNext(Run(s, sooner).value, last, i);
      forall k | 0 <= k < |steps| && s.workers[i] == Outside
        ensures Actor(steps[k]) != Some(i)
      {
        assert k < |sooner| ==> steps[k] == sooner[k];
      }
    }
  }

  lemma StoppingNext(s: State, step: Step, i: nat)
    requires (s.stopped || s.quit) && Enabled(s, step) && i < |s.workers|
    ensures var t := Apply(s, step);
      && (s.stopped ==> t.stopped) && (s.quit ==> t.quit) && |t.workers| == |s.workers|
      && (if step.LockToSet? && step.i == i then 1 else 0) + (if Before(t.workers[i]) then 1 else 0)
         <= (if Before(s.workers[i]) then 1 else 0)
      && (s.workers[i] == Outside ==> t.workers[i] == Outside && Actor(step) != Some(i))
  {
    OneWorker(s, step);
  }

  /** The new value whose command is running, if there is one: past the test, not yet in effect. */
  function OnTheWay(s: State): Option<string> {
    match s.critsect
    case Some(j) =>
      if j < |s.workers| && s.workers[j].Commanding? && s.workers[j].newComp != s.config.initial
      then Some(s.workers[j].newComp) else None
    case None => None
  }

  /** Without a pool, too, no other file is begun after the request, and setCompression entered at
      most once more. */
  lemma QuitBeginsNothing(s: State, more: seq<Step>, t: State, i: nat)
    requires s.quit && Run(s, more) == Some(t) && i < |s.workers|
    ensures t.quit && i < |s.workers| == |t.workers|
    ensures s.workers[i] == Outside ==>
      t.workers[i] == Outside && forall k :: 0 <= k < |more| ==> Actor(more[k]) != Some(i)
    ensures Sets(i, more) <= (if Before(s.workers[i]) then 1 else 0)
  {
    Stopping(s, more, i);
  }

  /** Without a pool the request reaches setCompression. In every run from then on and for every
      moment in it: a change whose command is already running may still come into effect, and is the
      only one; but for that the property keeps its value until it is put back to the initial one,
      which every restore does, and there it stays. */
  lemma {:induction false} QuitWithoutPool(s: State, steps: seq<Step>, k: nat)
    requires Inv(s) && s.quit && Run(s, steps).Some? && k <= |steps|
    ensures Run(s, steps[..k]).Some?
    ensures var m, t, initial := Run(s, steps[..k]).value, Run(s, steps).value, s.config.initial;
      && t.quit
      && (t.current == m.current || t.current == initial || OnTheWay(m) == Some(t.current))
      && (OnTheWay(t) == None || OnTheWay(t) == OnTheWay(m))
      && (m.current == initial && OnTheWay(m) == None ==> t.current == initial)
      && (forall j :: k <= j < |steps| && steps[j].SetCompression? ==> OnTheWay(t) == None)
      && (forall j :: k <= j < |steps| && (steps[j].Restore? || steps[j].End?) ==>
            t.current == initial && OnTheWay(t) == None)
  {
    hide Enabled, Apply, Inv, OnTheWay;
    if k == |steps| {
      assert steps[..k] == steps;
      Quitting(s, steps);
    } else {
      var last := |steps| - 1;
      var sooner := steps[..last];
      assert sooner[..k] == steps[..k];
      QuitWithoutPool(s, sooner, k);
      InvOnwards(s, sooner);
      QuitNext(Run(s, sooner).value, steps[last]);
      forall j | k <= j < |steps|
        ensures j < last ==> sooner[j] == steps[j]
      {
      }
    }
  }

  lemma {:induction false} Quitting(s: State, steps: seq<Step>)
    requires Inv(s) && s.quit && Run(s, steps).Some?
    ensures Run(s, steps).value.quit
  {
    hide Enabled, Apply, Inv;
    if steps != [] {
      Quitting(s, steps[..|steps| - 1]);
      InvOnwards(s, steps[..|steps| - 1]);
      QuitNext(Run(s, steps[..|steps| - 1]).value, steps[|steps| - 1]);
    }
  }

  lemma QuitNext(s: State, step: Step)
    requires Inv(s) && Enabled(s, step) && s.quit
    ensures var t, initial := Apply(s, step), s.config.initial;
      && t.quit && t.config == s.config
      && (t.current == s.current || t.current == initial || OnTheWay(s) == Some(t.current))
      && (OnTheWay(t) == None || (OnTheWay(t) == OnTheWay(s) && t.current == s.current))
      && (s.current == initial && OnTheWay(s) == None ==> t.current == initial)
      && (step.SetCompression? ==> OnTheWay(t) == None)
      && (step.Restore? || step.End? ==> t.current == initial && OnTheWay(t) == None)
  {
    OneWorker(s, step);
  }

  // ---------- the compression in force during a rewrite ----------

  /** Every worker is after `c` and every command succeeds; quit requests go to the pool. */
  predicate AllFor(c: string, pool: bool, steps: seq<Step>) {
    forall k :: 0 <= k < |steps| ==> For(c, pool, steps[k])
  }

  predicate For(c: string, pool: bool, step: Step) {
    match step
    case LockToSet(_, newComp) => newComp == c
    case SetCompression(_, ok) => ok
    case RequestQuit => pool
    case _ => true
  }

  ghost predicate Waits(s: State, step: Step) {
    Enabled(s, step) ==> !Pending(s)
  }

  /** No worker counts itself while a restore is pending. */
  ghost predicate Patient(init: State, steps: seq<Step>) {
    forall k :: 0 <= k < |steps| && steps[k].CountUp? && Run(init, steps[..k]).Some? ==>
      Waits(Run(init, steps[..k]).value, steps[k])
  }

  /** Whoever rewrites does so under `c`. */
  ghost predicate UnderControl(c: string, s: State) {
    forall i :: 0 <= i < |s.workers| && s.workers[i].Rewriting? ==> s.current == c
  }

  predicate Wants(pc: Pc, c: string) {
    pc.Locked? || pc.Counted? || pc.Commanding? ==> pc.newComp == c
  }

  ghost predicate Steady(c: string, s: State) {
    && !s.quit && UnderControl(c, s)
    && (forall i :: 0 <= i < |s.workers| ==> Wants(s.workers[i], c))
    && (Pending(s) ==> s.refcount == 0)
  }

  lemma SteadyNext(c: string, s: State, step: Step)
    requires Enabled(s, step) && Inv(s) && Steady(c, s) && For(c, s.config.pool, step)
    requires step.CountUp? ==> !Pending(s)
    ensures Steady(c, Apply(s, step))
  {
    PendingOnlyAtZero(c, s, step);
    WantedNext(c, s, step);
    UnderControlNext(c, s, step);
    hide Apply, Enabled, Inv, Pending, UnderControl, Wants;
  }

  lemma WantedNext(c: string, s: State, step: Step)
    requires Enabled(s, step) && Steady(c, s) && For(c, s.config.pool, step)
    ensures var t := Apply(s, step); !t.quit && forall i :: 0 <= i < |t.workers| ==> Wants(t.workers[i], c)
  {
    OneWorker(s, step);
  }

  lemma PendingOnlyAtZero(c: string, s: State, step: Step)
    requires Enabled(s, step) && Inv(s) && Steady(c, s)
    requires step.CountUp? ==> !Pending(s)
    ensures var t := Apply(s, step); Pending(t) ==> t.refcount == 0
  {
    hide SetTo, Passes, LocksHeld, UnderControl, Wants;
    var t := Apply(s, step);
    OneWorker(s, step);
    if Pending(t) {
      var k :| 0 <= k < |t.workers| && Restores(t.workers[k]);
      match step {
        case CountDown(i) => SomebodyHolds(s.workers, i);
        case LockToRestore(i) => assert Restores(s.workers[i]);
        case End(_) =>
        case _ => assert Restores(s.workers[k]);
      }
    }
  }

  lemma UnderControlNext(c: string, s: State, step: Step)
    requires Enabled(s, step) && Inv(s) && Steady(c, s) && For(c, s.config.pool, step)
    ensures UnderControl(c, Apply(s, step))
  {
    var t := Apply(s, step);
    OneWorker(s, step);
    forall j | 0 <= j < |t.workers| && t.workers[j].Rewriting?
      ensures t.current == c
    {
      match step {
        case Restore(i) =>
          assert Restores(s.workers[i]) && s.workers[j].Rewriting?;
          SomebodyHolds(s.workers, j);
        case Test(i) => assert Wants(s.workers[i], c);
        case SetCompression(i, ok) => assert Wants(s.workers[i], c);
        case _ => assert s.workers[j].Rewriting?;
      }
    }
  }

  /** As long as nobody counts itself while a restore is pending, in every state of every run a
      restore is pending only when nobody rewrites, and all rewrites are under the new
      compression. */
  lemma {:induction false} RewritesUnderControl(config: Config, c: string, steps: seq<Step>)
    requires Run(Init(config), steps).Some? && AllFor(c, config.pool, steps) && Patient(Init(config), steps)
    ensures var s := Run(Init(config), steps).value;
      UnderControl(c, s) && (Pending(s) ==> s.refcount == 0) && Steady(c, s)
  {
    hide Enabled, Apply, Inv, Pending, For, UnderControl;
    var init := Init(config);
    if steps == [] {
      SteadyAtFirst(config, c);
    } else {
      var last := |steps| - 1;
      var sooner := steps[..last];
      forall k | 0 <= k < last
        ensures steps[..k] == sooner[..k] && steps[k] == sooner[k]
      {
      }
      RewritesUnderControl(config, c, sooner);
      InvRun(config, sooner);
      hide Steady;
      SteadyNext(c, Run(init, sooner).value, steps[last]);
    }
  }

  lemma SteadyAtFirst(config: Config, c: string)
    ensures Steady(c, Init(config))
  {
  }

  /** One rewrite at a time, as is the default: then nobody ever counts itself while a restore is
      pending. The same goes for the main thread alone. */
  lemma ExclusiveIsPatient(config: Config, steps: seq<Step>)
    requires config.UsesIoLock() || config.workers <= 1
    ensures Patient(Init(config), steps)
  {
    var init := Init(config);
    forall k | 0 <= k < |steps| && steps[k].CountUp? && Run(init, steps[..k]).Some?
      ensures Waits(Run(init, steps[..k]).value, steps[k])
    {
      hide Run, Init, Inv;
      InvRun(config, steps[..k]);
      OneInside(Run(init, steps[..k]).value, steps[k]);
    }
  }

  lemma OneInside(s: State, step: Step)
    requires Inv(s) && step.CountUp? && (s.config.UsesIoLock() || s.config.workers <= 1)
    ensures Waits(s, step)
  {
    if Enabled(s, step) {
      var j := step.i;
      assert InIo(s.workers[j]);
      forall i | 0 <= i < |s.workers|
        ensures !Restores(s.workers[i])
      {
        assert InIo(s.workers[i]) ==> i == j;
      }
    }
  }

  /** So by default all rewrites of every run are under the new compression. */
  lemma ExclusiveUnderControl(config: Config, c: string, steps: seq<Step>, s: State)
    requires config.UsesIoLock() || config.workers <= 1
    requires Run(Init(config), steps) == Some(s) && AllFor(c, config.pool, steps)
    ensures UnderControl(c, s) && (Pending(s) ==> s.refcount == 0)
  {
    ExclusiveIsPatient(config, steps);
    RewritesUnderControl(config, c, steps);
  }

  /** The steps from a count that is raised too early to a rewrite under the wrong compression: `j`
      raises it and changes the property, if it has to, then `i` carries out its restore. */
  function Spoiling(i: nat, j: nat, change: bool): seq<Step> {
    [CountUp(j), Test(j)] + (if change then [SetCompression(j, true)] else []) + [LockToRestore(i), Restore(i)]
  }

  lemma RestoreOvertakes(s: State, i: nat, j: nat, c: string)
    requires Inv(s) && !s.quit && c != s.config.initial
    requires At(s, i, MustRestore) && At(s, j, Locked(c))
    ensures var t := Run(s, Spoiling(i, j, s.current != c));
      && t.Some? && t.value.current == s.config.initial != c
      && j < |t.value.workers| && t.value.workers[j].Rewriting?
  {
    var raise := if s.current != c then [CountUp(j), Test(j), SetCompression(j, true)] else [CountUp(j), Test(j)];
    var restore := [LockToRestore(i), Restore(i)];
    var m := Raised(s, i, j, c, raise);
    RunSplits(s, raise, restore);
    assert Spoiling(i, j, s.current != c) == raise + restore;
    var t := Restored(m, i, j, restore);
  }

  /** The worker with the dataset's lock raises the count, and the property is as it wants it. */
  lemma Raised(s: State, i: nat, j: nat, c: string, steps: seq<Step>) returns (t: State)
    requires Inv(s) && !s.quit && c != s.config.initial
    requires At(s, i, MustRestore) && At(s, j, Locked(c))
    requires steps == if s.current != c then [CountUp(j), Test(j), SetCompression(j, true)] else [CountUp(j), Test(j)]
    ensures Run(s, steps) == Some(t) && t.config == s.config
    ensures At(t, i, MustRestore) && At(t, j, Rewriting) && t.critsect == None && t.current == c
  {
    t := Apply(s, CountUp(j));
    var done := OneStep(s, CountUp(j));
    done, t := Extend(s, done, t, Test(j));
    if s.current != c {
      done, t := Extend(s, done, t, SetCompression(j, true));
    }
    assert done == steps;
  }

  lemma Restored(s: State, i: nat, j: nat, steps: seq<Step>) returns (t: State)
    requires At(s, i, MustRestore) && At(s, j, Rewriting) && s.critsect == None
    requires steps == [LockToRestore(i), Restore(i)]
    ensures Run(s, steps) == Some(t) && t.current == s.config.initial && At(t, j, Rewriting)
  {
    t := Apply(s, LockToRestore(i));
    var done := OneStep(s, LockToRestore(i));
    done, t := Extend(s, done, t, Restore(i));
    assert done == steps;
  }

  lemma OneStep(s: State, step: Step) returns (steps: seq<Step>)
    requires Enabled(s, step)
    ensures steps == [step] && Run(s, steps) == Some(Apply(s, step))
  {
    steps := [step];
    assert steps[..0] == [];
  }

  /** After `j` has raised the count in state `s`, and nobody else does, some rewrite may yet come
      under another compression than `c`. */
  ghost predicate MaySpoil(c: string, s: State, j: nat) {
    exists more: seq<Step> :: SpoilsAfter(c, s, j, more)
  }

  ghost predicate SpoilsAfter(c: string, s: State, j: nat, more: seq<Step>) {
    Spoils(c, s, [CountUp(j)] + more)
  }

  ghost predicate Spoils(c: string, s: State, steps: seq<Step>) {
    && AllFor(c, s.config.pool, steps)
    && (forall k :: 0 < k < |steps| ==> !steps[k].CountUp?)
    && Run(s, steps).Some? && !UnderControl(c, Run(s, steps).value)
  }

  /** In the other mode, exactly so: after any run that was patient so far, raising the count opens
      the way to a rewrite under the wrong compression if and only if a restore is pending at that
      moment. */
  lemma SpoiledExactlyWhenPending(config: Config, c: string, steps: seq<Step>, s: State, j: nat)
    requires Run(Init(config), steps) == Some(s) && AllFor(c, config.pool, steps) && Patient(Init(config), steps)
    requires c != config.initial && Enabled(s, CountUp(j))
    ensures MaySpoil(c, s, j) <==> Pending(s)
  {
    InvRun(config, steps);
    RewritesUnderControl(config, c, steps);
    if Pending(s) {
      PendingSpoils(c, s, j);
    }
    hide Enabled, Pending, Inv, Spoils;
    if MaySpoil(c, s, j) {
      var more :| SpoilsAfter(c, s, j, more);
      if !Pending(s) {
        SpoilsMeans(c, s, [CountUp(j)] + more);
        StaysSteady(config, c, steps, s, [CountUp(j)] + more);
      }
    }
  }

  lemma SpoilsMeans(c: string, s: State, steps: seq<Step>)
    requires Spoils(c, s, steps)
    ensures AllFor(c, s.config.pool, steps) && (forall k :: 0 < k < |steps| ==> !steps[k].CountUp?)
    ensures Run(s, steps).Some? && !UnderControl(c, Run(s, steps).value)
  {
  }

  lemma PendingSpoils(c: string, s: State, j: nat)
    requires Inv(s) && Steady(c, s) && c != s.config.initial && Pending(s) && Enabled(s, CountUp(j))
    ensures MaySpoil(c, s, j)
  {
    var i :| 0 <= i < |s.workers| && Restores(s.workers[i]);
    assert s.critsect == Some(j) && Wants(s.workers[j], c);
    hide Run;
    var change := s.current != c;
    RestoreOvertakes(s, i, j, c);
    var all, more := Spoiling(i, j, change), Spoiling(i, j, change)[1..];
    assert all == [CountUp(j)] + more;
    assert Spoils(c, s, all);
    assert SpoilsAfter(c, s, j, more);
  }

  lemma StaysSteady(config: Config, c: string, steps: seq<Step>, s: State, more: seq<Step>)
    requires Run(Init(config), steps) == Some(s) && AllFor(c, config.pool, steps) && Patient(Init(config), steps)
    requires !Pending(s) && AllFor(c, config.pool, more) && (forall k :: 0 < k < |more| ==> !more[k].CountUp?)
    requires Run(s, more).Some?
    ensures UnderControl(c, Run(s, more).value)
  {
    hide Enabled, Apply, Pending, For, UnderControl;
    var init, all := Init(config), steps + more;
    RunSplits(init, steps, more);
    forall k | 0 <= k < |all| && all[k].CountUp? && Run(init, all[..k]).Some?
      ensures Waits(Run(init, all[..k]).value, all[k])
    {
      if k < |steps| {
        assert all[..k] == steps[..k];
      } else {
        assert all[k] == more[k - |steps|];
        assert all[..k] == steps;
      }
    }
    RewritesUnderControl(config, c, all);
  }

  lemma Extend(init: State, steps: seq<Step>, s: State, step: Step) returns (longer: seq<Step>, t: State)
    requires Run(init, steps) == Some(s) && Enabled(s, step)
    ensures Run(init, longer) == Some(t) && t == Apply(s, step) && longer == steps + [step]
  {
    longer, t := steps + [step], Apply(s, step);
    assert longer[..|longer| - 1] == steps;
  }

  // ---------- examples ----------

  /** A worker on its own, with the command for "gzip" running. */
  lemma Changing(config: Config, i: nat) returns (steps: seq<Step>, s: State)
    requires config.initial == "lz4" && i < config.workers
    ensures Run(Init(config), steps) == Some(s)
    ensures s.workers == Init(config).workers[i := Commanding("gzip")]
    ensures s == Init(config).(workers := s.workers, refcount := 1, critsect := Some(i), ioLock := s.ioLock)
  {
    var init := Init(config);
    steps, s := [], init;
    steps, s := Extend(init, steps, s, Take(i));
    steps, s := Extend(init, steps, s, LockIo(i));
    steps, s := Extend(init, steps, s, LockToSet(i, "gzip"));
    steps, s := Extend(init, steps, s, CountUp(i));
    assert "lz4"[0] != "gzip"[0];
    assert Passes(s, "gzip");
    steps, s := Extend(init, steps, s, Test(i));
  }

  /** With a pool the property still changes after a quit request. */
  lemma ChangedAfterQuit(exclusive: bool) returns (steps: seq<Step>, s: State)
    ensures Run(Init(Config("lz4", 1, true, exclusive)), steps) == Some(s) && s.stopped && s.current == "gzip"
  {
    var config := Config("lz4", 1, true, exclusive);
    steps, s := Changing(config, 0);
    steps, s := Extend(Init(config), steps, s, RequestQuit);
    steps, s := Extend(Init(config), steps, s, SetCompression(0, true));
  }

  /** Without one it does when the command is already running. */
  lemma ChangeUnderway(exclusive: bool) returns (steps: seq<Step>, s: State)
    ensures Run(Init(Config("lz4", 1, false, exclusive)), steps) == Some(s) && s.quit && s.current == "gzip"
  {
    var config := Config("lz4", 1, false, exclusive);
    steps, s := Changing(config, 0);
    steps, s := Extend(Init(config), steps, s, RequestQuit);
    steps, s := Extend(Init(config), steps, s, SetCompression(0, true));
  }

  /** One failed rewrite is enough for the new compression to stay until the end, however many
      succeed. */
  lemma AbandonedKeepsChange(pool: bool, exclusive: bool) returns (steps: seq<Step>, s: State)
    ensures Run(Init(Config("lz4", 1, pool, exclusive)), steps) == Some(s)
    ensures Quiet(s) && s.current == "gzip" && s.refcount == 1
  {
    var config := Config("lz4", 1, pool, exclusive);
    steps, s := Changing(config, 0);
    steps, s := Extend(Init(config), steps, s, SetCompression(0, true));
    steps, s := Extend(Init(config), steps, s, Abandon(0));
    steps, s := Extend(Init(config), steps, s, UnlockIo(0));
  }

  /** When rewrites need not wait for each other: the restore that follows one worker's last
      reference comes after another worker's change. */
  lemma RestoreDuringRewrite() returns (steps: seq<Step>, s: State)
    ensures Run(Init(Config("lz4", 2, true, false)), steps) == Some(s)
    ensures At(s, 1, Rewriting) && s.current == "lz4"
  {
    var config := Config("lz4", 2, true, false);
    var init := Init(config);
    var m;
    steps, m := RestorePending();
    InvRun(config, steps);
    RestoreOvertakes(m, 0, 1, "gzip");
    RunSplits(init, steps, Spoiling(0, 1, m.current != "gzip"));
    steps := steps + Spoiling(0, 1, m.current != "gzip");
    s := Run(init, steps).value;
  }

  /** The first worker is about to restore, the second about to count itself. */
  lemma RestorePending() returns (steps: seq<Step>, s: State)
    ensures Run(Init(Config("lz4", 2, true, false)), steps) == Some(s)
    ensures At(s, 0, MustRestore) && At(s, 1, Locked("gzip")) && "gzip" != s.config.initial
  {
    var config := Config("lz4", 2, true, false);
    var init := Init(config);
    steps, s := Changing(config, 0);
    steps, s := Extend(init, steps, s, SetCompression(0, true));
    steps, s := Extend(init, steps, s, CountDown(0));
    steps, s := Extend(init, steps, s, Take(1));
    steps, s := Extend(init, steps, s, LockIo(1));
    steps, s := Extend(init, steps, s, LockToSet(1, "gzip"));
    assert "lz4"[0] != "gzip"[0];
  }
}
