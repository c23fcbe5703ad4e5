/** The pool of workers that empties the list of files from both ends, as a transition system:
    one step is one access to what the threads share. */
module Pool {
  import opened Wrappers

  datatype Item = Item(name: string, size: nat)

  // ---------- the list ----------

  /** What a worker gets, and what it leaves: from the back if it works in reverse. */
  function Popped(queue: seq<Item>, reverse: bool): (r: (Option<Item>, seq<Item>))
    ensures r.0.None? <==> queue == []
    ensures r.0.Some? ==> queue == if reverse then r.1 + [r.0.value] else [r.0.value] + r.1
    ensures r.0.None? ==> r.1 == []
  {
    if queue == [] then (None, [])
    else if reverse then (Some(queue[|queue| - 1]), queue[..|queue| - 1])
    else (Some(queue[0]), queue[1..])
  }

  /** The list of files as the workers take from it, each call under the list's lock. */
  class ItemList {
    var items: seq<Item>

    constructor (items: seq<Item>)
      ensures this.items == items
    {
      this.items := items;
    }

    method GetFront() returns (value: Option<Item>)
      modifies this
      ensures (value, items) == Popped(old(items), false)
    {
      value := None;
      if items != [] {
        value := Some(items[0]);
        items := items[1..];
      }
    }

    method GetBack() returns (value: Option<Item>)
      modifies this
      ensures (value, items) == Popped(old(items), true)
    {
      value := None;
      if items != [] {
        value := Some(items[|items| - 1]);
        items := items[..|items| - 1];
      }
    }
  }

  // ---------- states ----------

  /** Where a worker is. In `Run` it reads the quit flag, takes an item, and counts itself in and
      out around the work; then `CleanupThread` reads the flag `cleanedUp`, calls `workerDone` and
      sets the flag. */
  datatype Pc =
    | Unstarted
    | Polling
    | Taking
    | Holding(item: Item)
    | Working(item: Item)
    | Worked(item: Item)
    | Leaving
    | CallingDone
    | CalledDone
    | Finished

  /** Where the main thread is with a worker's destructor, which calls `CleanupThread` too: it has
      found the flag clear and is about to call `workerDone`; it has called it and is about to set
      the flag. */
  datatype MainPc = Away | AtCall | AtSet | Gone

  /** `decrements` counts how often the number of jobs has been lowered for this worker. */
  datatype Worker = Worker(pc: Pc, reverse: bool, cleanedUp: bool, decrements: nat, main: MainPc)

  /** `run` starts the workers one by one, waits for the event, closes it, and deletes them in the
      same order. */
  datatype Phase = Starting(next: nat) | Waiting | Closed

  datatype State = State(
    queue: seq<Item>,
    workers: seq<Worker>,
    nJobs: int,
    nProcessing: int,
    nProcessed: int,
    signalled: bool,
    quit: bool,
    phase: Phase,
    // what has happened so far
    fromFront: seq<Item>,
    fromBack: seq<Item>,
    done: seq<Item>)

  datatype Step =
    | StartNext
    | StopStarting
    | Poll(i: nat)
    | Take(i: nat)
    | CountIn(i: nat)
    | CountOut(i: nat)
    | CountDone(i: nat)
    | CheckCleanedUp(i: nat)
    | WorkerDone(i: nat)
    | SetCleanedUp(i: nat)
    | RequestQuit
    | Close
    | DestroyLook(i: nat)
    | DestroyCall(i: nat)
    | DestroySet(i: nat)

  function Init(items: seq<Item>, reverse: seq<bool>): State {
    State(items, seq(|reverse|, i requires 0 <= i < |reverse| => Worker(Unstarted, reverse[i], false, 0, Away)),
          |reverse|, 0, 0, false, false, Starting(0), [], [], [])
  }

  function At(s: State, i: nat): Option<Pc> {
    if i < |s.workers| then Some(s.workers[i].pc) else None
  }

  /** The worker's `Run` has returned. */
  predicate Returned(pc: Pc) {
    pc.Leaving? || pc.CallingDone? || pc.CalledDone? || pc.Finished?
  }

  predicate Enabled(s: State, step: Step) {
    match step
    case StartNext => s.phase.Starting? && s.phase.next < |s.workers| && s.phase.next < s.nJobs
      && s.workers[s.phase.next].pc == Unstarted
    case StopStarting => s.phase.Starting? && s.phase.next >= s.nJobs
    case Poll(i) => At(s, i) == Some(Polling)
    case Take(i) => At(s, i) == Some(Taking)
    case CountIn(i) => i < |s.workers| && s.workers[i].pc.Holding?
    case CountOut(i) => i < |s.workers| && s.workers[i].pc.Working?
    case CountDone(i) => i < |s.workers| && s.workers[i].pc.Worked?
    case CheckCleanedUp(i) => At(s, i) == Some(Leaving)
    case WorkerDone(i) => At(s, i) == Some(CallingDone)
    case SetCleanedUp(i) => At(s, i) == Some(CalledDone)
    case RequestQuit => true
    case Close => s.phase == Waiting && (s.signalled || s.quit || s.nJobs < 1)
    case DestroyLook(i) => s.phase == Closed && i < |s.workers| && s.workers[i].main == Away
      && (i == 0 || s.workers[i - 1].main == Gone) && (Returned(s.workers[i].pc) || s.workers[i].pc == Unstarted)
    case DestroyCall(i) => s.phase == Closed && i < |s.workers| && s.workers[i].main == AtCall
    case DestroySet(i) => s.phase == Closed && i < |s.workers| && s.workers[i].main == AtSet
  }

  function Move(s: State, i: nat, pc: Pc): State
    requires i < |s.workers|
  {
    s.(workers := s.workers[i := s.workers[i].(pc := pc)])
  }

  function MoveMain(s: State, i: nat, main: MainPc): State
    requires i < |s.workers|
  {
    s.(workers := s.workers[i := s.workers[i].(main := main)])
  }

  /** workerDone: one job less, and the event when that was the last. The event is gone once it
      has been closed. */
  function Lower(s: State, i: nat): State
    requires i < |s.workers|
  {
    var w := s.workers[i];
    s.(workers := s.workers[i := w.(decrements := w.decrements + 1)],
       nJobs := s.nJobs - 1,
       signalled := s.signalled || (s.nJobs - 1 <= 0 && s.phase != Closed))
  }

  /** getFront or getBack: an item, or nothing when the list is empty. */
  function TakeItem(s: State, i: nat): State
    requires i < |s.workers|
  {
    if s.queue == [] then Move(s, i, Leaving)
    else if s.workers[i].reverse then
      var last := |s.queue| - 1;
      Move(s, i, Holding(s.queue[last])).(queue := s.queue[..last], fromBack := s.fromBack + [s.queue[last]])
    else
      Move(s, i, Holding(s.queue[0])).(queue := s.queue[1..], fromFront := s.fromFront + [s.queue[0]])
  }

  function Apply(s: State, step: Step): State
    requires Enabled(s, step)
  {
    match step
    case StartNext => Move(s, s.phase.next, Polling).(phase := Starting(s.phase.next + 1))
    case StopStarting => s.(phase := Waiting)
    case Poll(i) => Move(s, i, if s.quit then Leaving else Taking)
    case Take(i) => TakeItem(s, i)
    case CountIn(i) => Move(s, i, Working(s.workers[i].pc.item)).(nProcessing := s.nProcessing + 1)
    case CountOut(i) => Move(s, i, Worked(s.workers[i].pc.item)).(nProcessing := s.nProcessing - 1)
    case CountDone(i) =>
      Move(s, i, Polling).(nProcessed := s.nProcessed + 1, done := s.done + [s.workers[i].pc.item])
    case CheckCleanedUp(i) => Move(s, i, if s.workers[i].cleanedUp then Finished else CallingDone)
    case WorkerDone(i) => Move(Lower(s, i), i, CalledDone)
    case SetCleanedUp(i) =>
      Move(s, i, Finished).(workers := s.workers[i := s.workers[i].(pc := Finished, cleanedUp := true)])
    case RequestQuit => s.(quit := true)
    case Close => s.(phase := Closed)
    case DestroyLook(i) => MoveMain(s, i, if s.workers[i].cleanedUp then Gone else AtCall)
    case DestroyCall(i) => MoveMain(Lower(s, i), i, AtSet)
    case DestroySet(i) => s.(workers := s.workers[i := s.workers[i].(main := Gone, cleanedUp := true)])
  }

  /** The state after a schedule, if every step of it is possible in its turn. */
  function Run(s: State, steps: seq<Step>): Option<State> {
    if steps == [] then Some(s)
    else
      match Run(s, steps[..|steps| - 1])
      case None => None
      case Some(t) => if Enabled(t, steps[|steps| - 1]) then Some(Apply(t, steps[|steps| - 1])) else None
  }

  // ---------- counting over the workers ----------

  function ItemOf(pc: Pc): Option<Item> {
    match pc
    case Holding(item) => Some(item)
    case Working(item) => Some(item)
    case Worked(item) => Some(item)
    case _ => None
  }

  function AsBag(item: Option<Item>): multiset<Item> {
    match item
    case Some(x) => multiset{x}
    case None => multiset{}
  }

  function Hand(w: Worker): multiset<Item> {
    AsBag(ItemOf(w.pc))
  }

  function InHand(ws: seq<Worker>): multiset<Item> {
    if ws == [] then multiset{} else InHand(ws[..|ws| - 1]) + Hand(ws[|ws| - 1])
  }

  function IsWorking(w: Worker): nat {
    if w.pc.Working? then 1 else 0
  }

  function WorkingOnes(ws: seq<Worker>): nat {
    if ws == [] then 0 else WorkingOnes(ws[..|ws| - 1]) + IsWorking(ws[|ws| - 1])
  }

  function Decrements(ws: seq<Worker>): nat {
    if ws == [] then 0 else Decrements(ws[..|ws| - 1]) + ws[|ws| - 1].decrements
  }

  lemma {:induction false} HandChanged(ws: seq<Worker>, i: nat, w: Worker)
    requires i < |ws|
    ensures InHand(ws[i := w]) + Hand(ws[i]) == InHand(ws) + Hand(w)
  {
    hide Hand;
    var last := |ws| - 1;
    var init := ws[..last];
    assert ws[i := w][..last] == if i == last then init else init[i := w];
    if i != last {
      HandChanged(init, i, w);
      assert InHand(ws[i := w]) == InHand(init[i := w]) + Hand(ws[last]);
      Exchange(InHand(init[i := w]), Hand(ws[i]), InHand(init), Hand(w), Hand(ws[last]));
    } else {
      assert InHand(ws[i := w]) == InHand(init) + Hand(w);
    }
  }

  lemma Exchange(a: multiset<Item>, b: multiset<Item>, c: multiset<Item>, d: multiset<Item>, e: multiset<Item>)
    requires a + b == c + d
    ensures (a + e) + b == (c + e) + d
  {
    assert (a + e) + b == (a + b) + e;
  }

  lemma {:induction false} CountsChanged(ws: seq<Worker>, i: nat, w: Worker)
    requires i < |ws|
    ensures WorkingOnes(ws[i := w]) + IsWorking(ws[i]) == WorkingOnes(ws) + IsWorking(w)
    ensures Decrements(ws[i := w]) + ws[i].decrements == Decrements(ws) + w.decrements
  {
    var last := |ws| - 1;
    var init := ws[..last];
    assert ws[i := w][..last] == if i == last then init else init[i := w];
    if i != last {
      CountsChanged(init, i, w);
    }
  }

  lemma {:induction false} NobodyHolds(ws: seq<Worker>)
    requires forall i :: 0 <= i < |ws| ==> Hand(ws[i]) == multiset{}
    ensures InHand(ws) == multiset{}
  {
    if ws != [] {
      NobodyHolds(ws[..|ws| - 1]);
    }
  }

  lemma {:induction false} AllLowered(ws: seq<Worker>)
    requires forall i :: 0 <= i < |ws| ==> ws[i].decrements <= 1
    ensures Decrements(ws) <= |ws|
    ensures Decrements(ws) == |ws| ==> forall i :: 0 <= i < |ws| ==> ws[i].decrements == 1
  {
    if ws != [] {
      AllLowered(ws[..|ws| - 1]);
      assert forall i :: 0 <= i < |ws| - 1 ==> ws[i] == ws[..|ws| - 1][i];
    }
  }

  function Reversed(s: seq<Item>): (r: seq<Item>)
    ensures |r| == |s|
  {
    seq(|s|, i requires 0 <= i < |s| => s[|s| - 1 - i])
  }

  // ---------- what every reachable state keeps ----------

  /** Nothing is lost or done twice: queued, in hand and done make up the list. */
  ghost predicate Conserved(items: seq<Item>, s: State) {
    multiset(s.queue) + InHand(s.workers) + multiset(s.done) == multiset(items)
  }

  /** What was taken from the front, what is left and what was taken from the back, in this order,
      are the list. */
  ghost predicate InOrder(items: seq<Item>, s: State) {
    items == s.fromFront + s.queue + Reversed(s.fromBack)
  }

  ghost predicate Counted(s: State) {
    && s.nProcessing == WorkingOnes(s.workers)
    && s.nProcessed == |s.done|
    && s.nJobs + Decrements(s.workers) == |s.workers|
  }

  /** Until the event is closed each worker has lowered the number of jobs just as often as it has
      come past `workerDone`, and its flag says whether it is finished. */
  ghost predicate Lowered(w: Worker) {
    && w.decrements == (if w.pc.CalledDone? || w.pc.Finished? then 1 else 0)
    && w.cleanedUp == w.pc.Finished? && w.main == Away
  }

  ghost predicate Jobs(s: State) {
    && (s.phase != Closed ==> forall i :: 0 <= i < |s.workers| ==> Lowered(s.workers[i]))
    && (s.phase != Closed && |s.workers| > 0 ==> (s.signalled <==> s.nJobs <= 0))
    && (s.signalled ==> forall i :: 0 <= i < |s.workers| ==> Past(s.workers[i].pc))
  }

  predicate Past(pc: Pc) {
    pc.CalledDone? || pc.Finished?
  }

  /** Without a quit request a worker leaves only when nothing is left to take. */
  ghost predicate LeavesLast(s: State) {
    !s.quit ==> forall i :: 0 <= i < |s.workers| && Returned(s.workers[i].pc) ==> s.queue == []
  }

  ghost predicate Inv(items: seq<Item>, s: State) {
    && |s.workers| > 0
    && Conserved(items, s) && InOrder(items, s) && Counted(s) && Jobs(s) && LeavesLast(s)
  }

  // ---------- it holds at the start and every step keeps it ----------

  lemma InvInit(items: seq<Item>, reverse: seq<bool>)
    requires |reverse| > 0
    ensures Inv(items, Init(items, reverse))
  {
    var s := Init(items, reverse);
    NobodyHolds(s.workers);
    NobodyCounts(s.workers);
    assert items == [] + items + Reversed([]);
  }

  lemma {:induction false} NobodyCounts(ws: seq<Worker>)
    requires forall i :: 0 <= i < |ws| ==> ws[i].pc == Unstarted && ws[i].decrements == 0
    ensures WorkingOnes(ws) == 0 && Decrements(ws) == 0
  {
    if ws != [] {
      NobodyCounts(ws[..|ws| - 1]);
    }
  }

  /** The worker a step is about. */
  function Actor(s: State, step: Step): Option<nat> {
    match step
    case StartNext => if s.phase.Starting? then Some(s.phase.next) else None
    case StopStarting => None
    case RequestQuit => None
    case Close => None
    case Poll(i) => Some(i)
    case Take(i) => Some(i)
    case CountIn(i) => Some(i)
    case CountOut(i) => Some(i)
    case CountDone(i) => Some(i)
    case CheckCleanedUp(i) => Some(i)
    case WorkerDone(i) => Some(i)
    case SetCleanedUp(i) => Some(i)
    case DestroyLook(i) => Some(i)
    case DestroyCall(i) => Some(i)
    case DestroySet(i) => Some(i)
  }

  /** A step changes at most one worker. */
  lemma OneWorker(s: State, step: Step)
    requires Enabled(s, step)
    ensures |Apply(s, step).workers| == |s.workers|
    ensures match Actor(s, step)
      case None => Apply(s, step).workers == s.workers
      case Some(i) => i < |s.workers| && Apply(s, step).workers == s.workers[i := Apply(s, step).workers[i]]
  {
  }

  /** One worker changes; what it takes into its hand has left the list, and what has left its
      hand is done. */
  lemma ConservedMove(items: seq<Item>, s: State, t: State, i: nat, taken: multiset<Item>, delivered: multiset<Item>)
    requires Conserved(items, s) && i < |s.workers| && |t.workers| == |s.workers|
    requires t.workers == s.workers[i := t.workers[i]]
    requires multiset(t.queue) + taken == multiset(s.queue)
    requires multiset(t.done) == multiset(s.done) + delivered
    requires Hand(t.workers[i]) + delivered == Hand(s.workers[i]) + taken
    ensures Conserved(items, t)
  {
    hide Hand, InHand;
    HandChanged(s.workers, i, t.workers[i]);
    Balance(InHand(t.workers), InHand(s.workers), Hand(s.workers[i]), Hand(t.workers[i]), taken, delivered);
    assert multiset(t.queue) + InHand(t.workers) + multiset(t.done)
        == multiset(t.queue) + (InHand(t.workers) + delivered) + multiset(s.done);
    assert multiset(t.queue) + (InHand(s.workers) + taken) + multiset(s.done)
        == (multiset(t.queue) + taken) + InHand(s.workers) + multiset(s.done);
  }

  lemma Balance(now: multiset<Item>, before: multiset<Item>, old': multiset<Item>, new': multiset<Item>,
                taken: multiset<Item>, delivered: multiset<Item>)
    requires now + old' == before + new' && new' + delivered == old' + taken
    ensures now + delivered == before + taken
  {
    assert now + delivered + old' == before + taken + old' by {
      assert now + delivered + old' == (now + old') + delivered;
      assert before + taken + old' == before + (old' + taken);
    }
    assert now + delivered == (now + delivered + old') - old';
    assert before + taken == (before + taken + old') - old';
  }

  function TakenItem(s: State, i: nat): Option<Item>
    requires i < |s.workers|
  {
    if s.queue == [] then None
    else if s.workers[i].reverse then Some(s.queue[|s.queue| - 1])
    else Some(s.queue[0])
  }

  lemma ConservedTake(items: seq<Item>, s: State, i: nat)
    requires i < |s.workers| && s.workers[i].pc == Taking && Conserved(items, s)
    ensures Conserved(items, TakeItem(s, i))
  {
    QueueTaken(s, i);
    HandTaken(s, i);
    OneTakes(s, i);
    hide Conserved, TakeItem, TakenItem;
    ConservedMove(items, s, TakeItem(s, i), i, AsBag(TakenItem(s, i)), multiset{});
  }

  lemma QueueTaken(s: State, i: nat)
    requires i < |s.workers|
    ensures var t := TakeItem(s, i);
      multiset(t.queue) + AsBag(TakenItem(s, i)) == multiset(s.queue) && t.done == s.done
  {
    if s.queue != [] {
      EndsApart(s.queue);
    }
  }

  lemma HandTaken(s: State, i: nat)
    requires i < |s.workers| && s.workers[i].pc == Taking
    ensures var t := TakeItem(s, i);
      && |t.workers| == |s.workers|
      && ItemOf(t.workers[i].pc) == TakenItem(s, i) && ItemOf(s.workers[i].pc) == None
  {
  }

  lemma OneTakes(s: State, i: nat)
    requires i < |s.workers|
    ensures var t := TakeItem(s, i);
      |t.workers| == |s.workers| && t.workers == s.workers[i := t.workers[i]]
  {
  }

  lemma EndsApart(q: seq<Item>)
    requires q != []
    ensures multiset(q[..|q| - 1]) + multiset{q[|q| - 1]} == multiset(q)
    ensures multiset(q[1..]) + multiset{q[0]} == multiset(q)
  {
    assert q == q[..|q| - 1] + [q[|q| - 1]];
    assert q == [q[0]] + q[1..];
  }

  lemma ConservedDone(items: seq<Item>, s: State, i: nat)
    requires Enabled(s, CountDone(i)) && Conserved(items, s)
    ensures Conserved(items, Apply(s, CountDone(i)))
  {
    hide Conserved;
    ConservedMove(items, s, Apply(s, CountDone(i)), i, multiset{}, multiset{s.workers[i].pc.item});
  }

  lemma ConservedOther(items: seq<Item>, s: State, step: Step)
    requires Enabled(s, step) && Conserved(items, s) && !step.Take? && !step.CountDone?
    ensures Conserved(items, Apply(s, step))
  {
    OneWorker(s, step);
    if Actor(s, step).Some? {
      SameHands(s, step);
      hide Conserved, Apply, Enabled, ItemOf;
      ConservedMove(items, s, Apply(s, step), Actor(s, step).value, multiset{}, multiset{});
    }
  }

  lemma ConservedNext(items: seq<Item>, s: State, step: Step)
    requires Enabled(s, step) && Conserved(items, s)
    ensures Conserved(items, Apply(s, step))
  {
    hide Conserved;
    match step {
      case Take(i) => ConservedTake(items, s, i);
      case CountDone(i) => ConservedDone(items, s, i);
      case _ => ConservedOther(items, s, step);
    }
  }

  lemma SameHands(s: State, step: Step)
    requires Enabled(s, step) && !step.Take? && !step.CountDone? && Actor(s, step).Some?
    ensures var t, i := Apply(s, step), Actor(s, step).value;
      && t.queue == s.queue && t.done == s.done
      && i < |t.workers| == |s.workers| && ItemOf(t.workers[i].pc) == ItemOf(s.workers[i].pc)
  {
    match step {
      case StartNext =>
      case Poll(i) =>
      case CountIn(i) =>
      case CountOut(i) =>
      case CheckCleanedUp(i) =>
      case WorkerDone(i) =>
      case SetCleanedUp(i) =>
      case DestroyLook(i) =>
      case DestroyCall(i) =>
      case DestroySet(i) =>
    }
  }

  lemma InOrderNext(items: seq<Item>, s: State, step: Step)
    requires Enabled(s, step) && InOrder(items, s)
    ensures InOrder(items, Apply(s, step))
  {
    if step.Take? && s.queue != [] {
      if s.workers[step.i].reverse {
        var last := s.queue[|s.queue| - 1];
        assert s.queue == s.queue[..|s.queue| - 1] + [last];
        assert Reversed(s.fromBack + [last]) == [last] + Reversed(s.fromBack);
      } else {
        assert s.queue == [s.queue[0]] + s.queue[1..];
      }
    }
  }

  lemma CountedNext(s: State, step: Step)
    requires Enabled(s, step) && Counted(s)
    ensures Counted(Apply(s, step))
  {
    var t := Apply(s, step);
    OneWorker(s, step);
    CountersMove(s, step);
    hide Apply, Enabled, WorkingOnes, Decrements;
    match Actor(s, step) {
      case None =>
      case Some(i) => CountsChanged(s.workers, i, t.workers[i]);
    }
  }

  /** Each counter moves with the worker it counts. */
  lemma CountersMove(s: State, step: Step)
    requires Enabled(s, step)
    ensures var t := Apply(s, step); |t.workers| == |s.workers| && t.nProcessed - |t.done| == s.nProcessed - |s.done|
    ensures var t := Apply(s, step);
      match Actor(s, step)
      case None => t.nProcessing == s.nProcessing && t.nJobs == s.nJobs
      case Some(i) =>
        && i < |s.workers| == |t.workers|
        && t.nProcessing - IsWorking(t.workers[i]) == s.nProcessing - IsWorking(s.workers[i])
        && t.nJobs + t.workers[i].decrements == s.nJobs + s.workers[i].decrements
  {
    OneWorker(s, step);
    DoneMoves(s, step);
    WorkingMoves(s, step);
    JobsMove(s, step);
    hide Apply, Enabled;
  }

  lemma DoneMoves(s: State, step: Step)
    requires Enabled(s, step)
    ensures var t := Apply(s, step); t.nProcessed - |t.done| == s.nProcessed - |s.done|
  {
  }

  lemma WorkingMoves(s: State, step: Step)
    requires Enabled(s, step)
    ensures var t := Apply(s, step);
      match Actor(s, step)
      case None => t.nProcessing == s.nProcessing
      case Some(i) =>
        && i < |s.workers| == |t.workers|
        && t.nProcessing - IsWorking(t.workers[i]) == s.nProcessing - IsWorking(s.workers[i])
  {
  }

  lemma JobsMove(s: State, step: Step)
    requires Enabled(s, step)
    ensures var t := Apply(s, step);
      match Actor(s, step)
      case None => t.nJobs == s.nJobs
      case Some(i) =>
        && i < |s.workers| == |t.workers|
        && t.nJobs + t.workers[i].decrements == s.nJobs + s.workers[i].decrements
  {
  }

  lemma JobsNext(s: State, step: Step)
    requires Enabled(s, step) && Counted(s) && Jobs(s) && |s.workers| > 0
    ensures Jobs(Apply(s, step))
  {
    var t := Apply(s, step);
    OneWorker(s, step);
    CountedNext(s, step);
    hide Counted, Apply;
    LoweredNext(s, step);
    SignalNext(s, step);
  }

  /** What a step does to its worker, as far as cleaning up is concerned. */
  function CleanUp(s: State, step: Step, w: Worker): Worker {
    match step
    case StartNext => w.(pc := Polling)
    case CheckCleanedUp(_) => w.(pc := if w.cleanedUp then Finished else CallingDone)
    case WorkerDone(_) => w.(pc := CalledDone, decrements := w.decrements + 1)
    case SetCleanedUp(_) => w.(pc := Finished, cleanedUp := true)
    case DestroyLook(_) => w.(main := if w.cleanedUp then Gone else AtCall)
    case DestroyCall(_) => w.(main := AtSet, decrements := w.decrements + 1)
    case DestroySet(_) => w.(main := Gone, cleanedUp := true)
    case _ => w
  }

  predicate Cleans(step: Step) {
    || step.CheckCleanedUp? || step.WorkerDone? || step.SetCleanedUp? || step.StartNext?
    || step.DestroyLook? || step.DestroyCall? || step.DestroySet?
  }

  lemma CleansUp(s: State, step: Step, i: nat)
    requires Enabled(s, step) && Actor(s, step) == Some(i) && i < |s.workers|
    ensures var t := Apply(s, step);
      && i < |t.workers|
      && (Cleans(step) ==> t.workers[i] == CleanUp(s, step, s.workers[i]))
  {
    OneWorker(s, step);
  }

  /** All other steps leave a worker on this side of cleaning up. */
  lemma NotYet(s: State, step: Step, i: nat)
    requires Enabled(s, step) && Actor(s, step) == Some(i) && i < |s.workers|
    requires !Cleans(step)
    ensures var w, t := s.workers[i], Apply(s, step);
      && i < |t.workers|
      && !Returned(w.pc) && !Past(t.workers[i].pc) && !w.pc.Unstarted? && !t.workers[i].pc.Unstarted?
      && !t.workers[i].pc.CallingDone? && t.phase == s.phase
      && t.workers[i] == w.(pc := t.workers[i].pc)
  {
    OneWorker(s, step);
  }

  lemma LoweredActor(s: State, step: Step, i: nat)
    requires Enabled(s, step) && Actor(s, step) == Some(i) && i < |s.workers|
    requires s.phase != Closed ==> Lowered(s.workers[i])
    ensures var t := Apply(s, step);
      && i < |t.workers|
      && (t.phase != Closed ==> Lowered(t.workers[i]))
      && (Past(s.workers[i].pc) ==> Past(t.workers[i].pc))
  {
    CleansUp(s, step, i);
    StaysClosed(s, step);
    if !Cleans(step) {
      NotYet(s, step, i);
    }
    hide Apply;
  }

  lemma LoweredNext(s: State, step: Step)
    requires Enabled(s, step) && Jobs(s)
    ensures var t := Apply(s, step);
      && |t.workers| == |s.workers|
      && (t.phase != Closed ==> forall i :: 0 <= i < |t.workers| ==> Lowered(t.workers[i]))
      && (forall i :: 0 <= i < |t.workers| && Past(s.workers[i].pc) ==> Past(t.workers[i].pc))
  {
    OneWorker(s, step);
    StaysClosed(s, step);
    match Actor(s, step) {
      case None =>
      case Some(i) => LoweredActor(s, step, i);
    }
    hide Apply, Enabled, Lowered, Past;
  }

  lemma StaysClosed(s: State, step: Step)
    requires Enabled(s, step)
    ensures s.phase == Closed ==> Apply(s, step).phase == Closed
  {
  }

  lemma SignalNext(s: State, step: Step)
    requires Enabled(s, step) && Counted(s) && Jobs(s) && |s.workers| > 0 && Counted(Apply(s, step))
    ensures var t := Apply(s, step);
      && (t.phase != Closed ==> (t.signalled <==> t.nJobs <= 0))
      && (t.signalled ==> forall i :: 0 <= i < |t.workers| ==> Past(t.workers[i].pc))
  {
    var t := Apply(s, step);
    OneWorker(s, step);
    LoweredNext(s, step);
    if t.signalled && !s.signalled {
      assert step.WorkerDone? && t.phase != Closed && t.nJobs <= 0;
      AllLowered(t.workers);
      assert Decrements(t.workers) == |t.workers|;
    }
  }

  lemma LeavesNext(s: State, step: Step)
    requires Enabled(s, step) && LeavesLast(s)
    ensures LeavesLast(Apply(s, step))
  {
    OneWorker(s, step);
  }

  lemma InvNext(items: seq<Item>, s: State, step: Step)
    requires Enabled(s, step) && Inv(items, s)
    ensures Inv(items, Apply(s, step))
  {
    ConservedNext(items, s, step);
    InOrderNext(items, s, step);
    CountedNext(s, step);
    JobsNext(s, step);
    LeavesNext(s, step);
    OneWorker(s, step);
  }

  lemma {:induction false} InvRun(items: seq<Item>, reverse: seq<bool>, steps: seq<Step>)
    requires |reverse| > 0 && Run(Init(items, reverse), steps).Some?
    ensures Inv(items, Run(Init(items, reverse), steps).value)
  {
    hide Inv, Apply, Enabled;
    if steps == [] {
      InvInit(items, reverse);
    } else {
      InvRun(items, reverse, steps[..|steps| - 1]);
      InvNext(items, Run(Init(items, reverse), steps[..|steps| - 1]).value, steps[|steps| - 1]);
    }
  }

  // ---------- what it means ----------

  /** In every reachable state: nothing is lost or done twice, the counters are those of the
      workers' positions, and each worker lowers the number of jobs once while it matters. */
  lemma PoolKeepsCount(items: seq<Item>, reverse: seq<bool>, steps: seq<Step>, s: State)
    requires |reverse| > 0 && Run(Init(items, reverse), steps) == Some(s)
    ensures multiset(s.queue) + InHand(s.workers) + multiset(s.done) == multiset(items)
    ensures s.nProcessing == WorkingOnes(s.workers) && s.nProcessed == |s.done|
    ensures s.phase != Closed ==>
      && 0 <= s.nJobs == |s.workers| - Decrements(s.workers)
      && forall i :: 0 <= i < |s.workers| ==> s.workers[i].decrements == if Past(s.workers[i].pc) then 1 else 0
  {
    InvRun(items, reverse, steps);
    if s.phase != Closed {
      AllLowered(s.workers);
    }
  }

  /** The event means that every worker is done; and unless somebody asked to quit, that every file
      has been processed, each just once. */
  lemma EventMeansDone(items: seq<Item>, reverse: seq<bool>, steps: seq<Step>, s: State)
    requires |reverse| > 0 && Run(Init(items, reverse), steps) == Some(s) && s.signalled
    ensures forall i :: 0 <= i < |s.workers| ==> Past(s.workers[i].pc)
    ensures s.nProcessing == 0
    ensures !s.quit ==>
      && s.queue == [] && multiset(s.done) == multiset(items) && s.nProcessed == |items|
      && items == s.fromFront + Reversed(s.fromBack)
  {
    InvRun(items, reverse, steps);
    hide Run, Init;
    AllPast(items, s);
  }

  lemma AllPast(items: seq<Item>, s: State)
    requires Inv(items, s) && s.signalled
    ensures forall i :: 0 <= i < |s.workers| ==> Past(s.workers[i].pc)
    ensures s.nProcessing == 0
    ensures !s.quit ==>
      && s.queue == [] && multiset(s.done) == multiset(items) && s.nProcessed == |items|
      && items == s.fromFront + Reversed(s.fromBack)
  {
    hide InHand, WorkingOnes, Decrements, Lowered, Reversed;
    NobodyHolds(s.workers);
    NobodyWorks(s.workers);
    if !s.quit {
      assert Returned(s.workers[0].pc);
      assert multiset(s.queue) == multiset{};
      assert multiset(s.done) == multiset(items);
      SameSize(s.done, items);
      assert s.fromFront + [] == s.fromFront;
    }
  }

  lemma {:induction false} NobodyWorks(ws: seq<Worker>)
    requires forall i :: 0 <= i < |ws| ==> !ws[i].pc.Working?
    ensures WorkingOnes(ws) == 0
  {
    if ws != [] {
      NobodyWorks(ws[..|ws| - 1]);
    }
  }

  lemma SameSize(a: seq<Item>, b: seq<Item>)
    requires multiset(a) == multiset(b)
    ensures |a| == |b|
  {
    assert |a| == |multiset(a)| && |b| == |multiset(b)|;
  }

  ghost predicate SortedBySize(items: seq<Item>) {
    forall i, j :: 0 <= i < j < |items| ==> items[i].size <= items[j].size
  }

  /** With a list sorted by size, at any moment of any run: what was taken from the front is a
      prefix, in order; what was taken from the back is a suffix, in reverse; and no file taken
      from the front is larger, none taken from the back smaller, than any still in the list. */
  lemma TakenInOrder(items: seq<Item>, reverse: seq<bool>, steps: seq<Step>, s: State)
    requires |reverse| > 0 && Run(Init(items, reverse), steps) == Some(s) && SortedBySize(items)
    ensures |s.fromFront| + |s.queue| + |s.fromBack| == |items|
    ensures s.fromFront <= items && Reversed(s.fromBack) == items[|items| - |s.fromBack|..]
    ensures SortedBySize(s.fromFront) && SortedBySize(s.queue) && SortedBySize(Reversed(s.fromBack))
    ensures forall f, q :: f in s.fromFront && q in s.queue + s.fromBack ==> f.size <= q.size
    ensures forall b, q :: b in s.fromBack && q in s.queue + s.fromFront ==> b.size >= q.size
  {
    InvRun(items, reverse, steps);
    var front, middle, back := s.fromFront, s.queue, Reversed(s.fromBack);
    assert InOrder(items, s);
    hide Inv, Run, InOrder, Init, Reversed;
    assert items == front + middle + back by { InOrderMeans(items, s); }
    assert items[|items| - |back|..] == back;
    ThreeSorted(items, front, middle, back);
    BackReversed(s.fromBack);
  }

  /** So a worker always takes a file that is extreme among those left: a smallest one, or in
      reverse a largest. */
  lemma TakesExtreme(items: seq<Item>, reverse: seq<bool>, steps: seq<Step>, s: State, i: nat)
    requires |reverse| > 0 && Run(Init(items, reverse), steps) == Some(s) && SortedBySize(items)
    requires Enabled(s, Take(i)) && s.queue != []
    ensures var t := Apply(s, Take(i));
      && (Some(t.workers[i].pc.item), t.queue) == Popped(s.queue, s.workers[i].reverse)
      && forall q :: q in s.queue ==>
        if s.workers[i].reverse then t.workers[i].pc.item.size >= q.size else t.workers[i].pc.item.size <= q.size
  {
    TakenInOrder(items, reverse, steps, s);
    Extremes(s.queue);
    hide Run, Init;
  }

  lemma Extremes(q: seq<Item>)
    requires SortedBySize(q) && q != []
    ensures forall x :: x in q ==> q[0].size <= x.size <= q[|q| - 1].size
  {
    forall x | x in q
      ensures q[0].size <= x.size <= q[|q| - 1].size
    {
      var k :| 0 <= k < |q| && q[k] == x;
    }
  }

  lemma InOrderMeans(items: seq<Item>, s: State)
    requires InOrder(items, s)
    ensures items == s.fromFront + s.queue + Reversed(s.fromBack)
  {
  }

  lemma BackReversed(s: seq<Item>)
    ensures forall x :: x in Reversed(s) <==> x in s
  {
    assert forall i :: 0 <= i < |s| ==> s[i] == Reversed(s)[|s| - 1 - i];
  }

  lemma ThreeSorted(items: seq<Item>, front: seq<Item>, middle: seq<Item>, back: seq<Item>)
    requires SortedBySize(items) && items == front + middle + back
    ensures SortedBySize(front) && SortedBySize(middle) && SortedBySize(back)
    ensures forall f, q :: f in front && q in middle + back ==> f.size <= q.size
    ensures forall q, b :: q in front + middle && b in back ==> q.size <= b.size
  {
    hide SortedBySize;
    assert items == front + (middle + back) && items == (front + middle) + back;
    TwoSorted(items, front, middle + back);
    TwoSorted(items, front + middle, back);
    TwoSorted(middle + back, middle, back);
  }

  lemma TwoSorted(items: seq<Item>, a: seq<Item>, b: seq<Item>)
    requires SortedBySize(items) && items == a + b
    ensures SortedBySize(a) && SortedBySize(b)
    ensures forall x, y :: x in a && y in b ==> x.size <= y.size
  {
    assert forall i :: 0 <= i < |a| ==> a[i] == items[i];
    assert forall i :: 0 <= i < |b| ==> b[i] == items[|a| + i];
  }

  /** `run` gets past the event only when it was signalled or somebody asked to quit; so without a
      quit request everything has been processed by then, each file once. */
  lemma ClosedMeansDone(items: seq<Item>, reverse: seq<bool>, steps: seq<Step>, s: State)
    requires |reverse| > 0 && Run(Init(items, reverse), steps) == Some(s) && s.phase == Closed && !s.quit
    ensures s.signalled
    ensures s.queue == [] && multiset(s.done) == multiset(items) && s.nProcessed == |items|
  {
    ClosedRun(items, reverse, steps);
    EventMeansDone(items, reverse, steps, s);
  }

  lemma {:induction false} ClosedRun(items: seq<Item>, reverse: seq<bool>, steps: seq<Step>)
    requires |reverse| > 0 && Run(Init(items, reverse), steps).Some?
    ensures var s := Run(Init(items, reverse), steps).value; s.phase == Closed ==> s.signalled || s.quit
  {
    hide Enabled, Apply, Inv;
    if steps != [] {
      var sooner := steps[..|steps| - 1];
      ClosedRun(items, reverse, sooner);
      InvRun(items, reverse, sooner);
      ClosedNext(items, Run(Init(items, reverse), sooner).value, steps[|steps| - 1]);
    }
  }

  lemma ClosedNext(items: seq<Item>, s: State, step: Step)
    requires Enabled(s, step) && Inv(items, s) && (s.phase == Closed ==> s.signalled || s.quit)
    ensures var t := Apply(s, step); t.phase == Closed ==> t.signalled || t.quit
  {
    hide Conserved, InOrder, Counted, LeavesLast, Lowered;
  }

  /** The loop that starts the workers looks at the number of jobs as it is at each turn. If workers
      are done before all have been started, it stops too early; the rest are never started, and
      without a quit request the event is never signalled. */
  lemma LeftUnstarted(items: seq<Item>, reverse: seq<bool>, steps: seq<Step>, s: State, more: seq<Step>, j: nat)
    requires |reverse| > 0 && Run(Init(items, reverse), steps) == Some(s) && s.phase == Waiting
    requires At(s, j) == Some(Unstarted) && Run(s, more).Some?
    ensures var t := Run(s, more).value;
      At(t, j) == Some(Unstarted) && !t.signalled && (t.phase == Closed ==> t.quit)
  {
    RunSplits(Init(items, reverse), steps, more);
    InvRun(items, reverse, steps + more);
    ClosedRun(items, reverse, steps + more);
    StaysUnstarted(s, more, j);
    hide Init, Conserved, InOrder, Counted, LeavesLast, Lowered;
  }

  lemma {:induction false} StaysUnstarted(s: State, more: seq<Step>, j: nat)
    requires At(s, j) == Some(Unstarted) && !s.phase.Starting? && Run(s, more).Some?
    ensures var t := Run(s, more).value; At(t, j) == Some(Unstarted) && !t.phase.Starting?
  {
    hide Enabled, Apply;
    if more != [] {
      StaysUnstarted(s, more[..|more| - 1], j);
      UnstartedNext(Run(s, more[..|more| - 1]).value, more[|more| - 1], j);
    }
  }

  lemma UnstartedNext(s: State, step: Step, j: nat)
    requires At(s, j) == Some(Unstarted) && !s.phase.Starting? && Enabled(s, step)
    ensures var t := Apply(s, step); At(t, j) == Some(Unstarted) && !t.phase.Starting?
  {
    OneWorker(s, step);
  }

  /** That takes no more than an empty list and a first worker that is quick. */
  lemma StartsTooFew() returns (steps: seq<Step>, s: State)
    ensures Run(Init([], [false, false]), steps) == Some(s) && s.phase == Waiting && At(s, 1) == Some(Unstarted)
  {
    var init := Init([], [false, false]);
    steps, s := [], init;
    steps, s := Extend(init, steps, s, StartNext);
    steps, s := Extend(init, steps, s, Poll(0));
    steps, s := Extend(init, steps, s, Take(0));
    steps, s := Extend(init, steps, s, CheckCleanedUp(0));
    steps, s := Extend(init, steps, s, WorkerDone(0));
    steps, s := Extend(init, steps, s, StopStarting);
  }

  /** It stops exactly when as many workers are done as are still to be started, and until then it
      starts the next; so all are started if none is done before. */
  lemma StartingExactly(items: seq<Item>, reverse: seq<bool>, steps: seq<Step>, s: State)
    requires |reverse| > 0 && Run(Init(items, reverse), steps) == Some(s) && s.phase.Starting?
    ensures Enabled(s, StopStarting) <==> |reverse| - s.phase.next <= |Done(s.workers)|
    ensures Enabled(s, StartNext) <==> !Enabled(s, StopStarting)
  {
    InvRun(items, reverse, steps);
    StartedInOrder(items, reverse, steps);
    OnceEach(s.workers);
    hide Init, Run, Conserved, InOrder, LeavesLast;
  }

  function Done(ws: seq<Worker>): set<nat> {
    set i | 0 <= i < |ws| && Past(ws[i].pc)
  }

  lemma {:induction false} OnceEach(ws: seq<Worker>)
    requires forall i :: 0 <= i < |ws| ==> ws[i].decrements == if Past(ws[i].pc) then 1 else 0
    ensures Decrements(ws) == |Done(ws)|
  {
    if ws == [] {
      assert Done(ws) == {};
    } else {
      var last := |ws| - 1;
      var init := ws[..last];
      OnceEach(init);
      assert forall i :: 0 <= i < last ==> ws[i] == init[i];
      assert Done(ws) == Done(init) + (if Past(ws[last].pc) then {last} else {});
    }
  }

  lemma {:induction false} StartedInOrder(items: seq<Item>, reverse: seq<bool>, steps: seq<Step>)
    requires Run(Init(items, reverse), steps).Some?
    ensures var s := Run(Init(items, reverse), steps).value;
      && |s.workers| == |reverse|
      && (s.phase.Starting? ==>
            s.phase.next <= |reverse| && forall i :: s.phase.next <= i < |reverse| ==> s.workers[i].pc == Unstarted)
  {
    hide Enabled, Apply;
    if steps != [] {
      var sooner := steps[..|steps| - 1];
      StartedInOrder(items, reverse, sooner);
      StartedNext(Run(Init(items, reverse), sooner).value, steps[|steps| - 1]);
    }
  }

  lemma StartedNext(s: State, step: Step)
    requires Enabled(s, step)
    requires s.phase.Starting? ==>
      s.phase.next <= |s.workers| && forall i :: s.phase.next <= i < |s.workers| ==> s.workers[i].pc == Unstarted
    ensures var t := Apply(s, step);
      && |t.workers| == |s.workers|
      && (t.phase.Starting? ==>
            t.phase.next <= |t.workers| && forall i :: t.phase.next <= i < |t.workers| ==> t.workers[i].pc == Unstarted)
  {
    OneWorker(s, step);
  }

  // ---------- quit requests ----------

  function AtTaking(w: Worker): nat {
    if w.pc.Taking? then 1 else 0
  }

  /** How many workers have looked at the quit flag and not yet taken an item. */
  function Takers(ws: seq<Worker>): nat {
    if ws == [] then 0 else Takers(ws[..|ws| - 1]) + AtTaking(ws[|ws| - 1])
  }

  /** How often a worker takes from the list. */
  function Takes(i: nat, steps: seq<Step>): nat {
    if steps == [] then 0
    else Takes(i, steps[..|steps| - 1]) + (if steps[|steps| - 1] == Take(i) then 1 else 0)
  }

  lemma {:induction false} TakersChange(ws: seq<Worker>, i: nat, w: Worker)
    requires i < |ws|
    ensures Takers(ws[i := w]) + AtTaking(ws[i]) == Takers(ws) + AtTaking(w)
  {
    var last := |ws| - 1;
    var init := ws[..last];
    assert ws[i := w][..last] == if i == last then init else init[i := w];
    if i != last {
      TakersChange(init, i, w);
    }
  }

  /** In every run from a quit request on, a worker takes at most one more item, and only if it had
      looked at the flag before; so no more items leave the list than there were such workers. */
  lemma {:induction false} QuitStopsTaking(s: State, more: seq<Step>, i: nat)
    requires s.quit && Run(s, more).Some? && i < |s.workers|
    ensures var t := Run(s, more).value;
      && t.quit && |t.workers| == |s.workers|
      && Takes(i, more) + AtTaking(t.workers[i]) <= AtTaking(s.workers[i])
      && |s.queue| + Takers(t.workers) <= |t.queue| + Takers(s.workers)
  {
    hide Enabled, Apply, AtTaking, Takers;
    if more != [] {
      var sooner, last := more[..|more| - 1], more[|more| - 1];
      QuitStopsTaking(s, sooner, i);
      QuitNext(Run(s, sooner).value, last, i);
    }
  }

  lemma QuitNext(s: State, step: Step, i: nat)
    requires s.quit && Enabled(s, step) && i < |s.workers|
    ensures var t := Apply(s, step);
      && t.quit && |t.workers| == |s.workers|
      && (if step == Take(i) then 1 else 0) + AtTaking(t.workers[i]) <= AtTaking(s.workers[i])
      && |s.queue| + Takers(t.workers) <= |t.queue| + Takers(s.workers)
  {
    var t := Apply(s, step);
    OneWorker(s, step);
    QuitMoves(s, step);
    if Actor(s, step).Some? {
      var j := Actor(s, step).value;
      TakersChange(s.workers, j, t.workers[j]);
    }
    hide Apply, Enabled, Takers;
  }

  lemma QuitMoves(s: State, step: Step)
    requires s.quit && Enabled(s, step)
    ensures var t := Apply(s, step);
      && t.quit
      && match Actor(s, step)
         case None => t.queue == s.queue && !step.Take?
         case Some(j) =>
           && j < |t.workers| == |s.workers| && (step.Take? ==> step == Take(j))
           && (if step.Take? then 1 else 0) + AtTaking(t.workers[j]) <= AtTaking(s.workers[j])
           && |s.queue| + AtTaking(t.workers[j]) <= |t.queue| + AtTaking(s.workers[j])
  {
  }

  // ---------- deleting the workers ----------

  /** The main thread deletes the workers in order, one after the other. */
  ghost predicate DeletedInOrder(ws: seq<Worker>) {
    forall i, j :: 0 <= i < j < |ws| && ws[j].main != Away ==> ws[i].main == Gone
  }

  lemma DeletedInOrderNext(s: State, step: Step)
    requires Enabled(s, step) && DeletedInOrder(s.workers)
    ensures DeletedInOrder(Apply(s, step).workers)
  {
    OneWorker(s, step);
    MainMoves(s, step);
    hide Apply, Enabled;
  }

  lemma MainMoves(s: State, step: Step)
    requires Enabled(s, step)
    ensures var t := Apply(s, step);
      match Actor(s, step)
      case None => true
      case Some(i) =>
        && i < |t.workers| == |s.workers|
        && (s.workers[i].main == Gone ==> t.workers[i].main == Gone)
        && (s.workers[i].main == Away && t.workers[i].main != Away && i > 0 ==> s.workers[i - 1].main == Gone)
  {
  }

  /** At any moment it is in the destructor of one worker at the most, has deleted all before it and
      none after it. */
  lemma {:induction false} DeletesInOrder(items: seq<Item>, reverse: seq<bool>, steps: seq<Step>)
    requires Run(Init(items, reverse), steps).Some?
    ensures DeletedInOrder(Run(Init(items, reverse), steps).value.workers)
  {
    hide Apply, Enabled;
    if steps != [] {
      DeletesInOrder(items, reverse, steps[..|steps| - 1]);
      hide DeletedInOrder;
      DeletedInOrderNext(Run(Init(items, reverse), steps[..|steps| - 1]).value, steps[|steps| - 1]);
    }
  }

  /** When the event is closed, and the next worker to delete has returned or was never started, it can
      go on. */
  lemma DeletesOn(s: State, i: nat)
    requires s.phase == Closed && i < |s.workers| && DeletedInOrder(s.workers)
    requires s.workers[i].main != Gone && (i > 0 ==> s.workers[i - 1].main == Gone)
    requires Returned(s.workers[i].pc) || s.workers[i].pc == Unstarted
    ensures Enabled(s, DestroyLook(i)) || Enabled(s, DestroyCall(i)) || Enabled(s, DestroySet(i))
  {
  }

  // ---------- the second cleanup call ----------

  /** The worker and the main thread have both found the flag `cleanedUp` clear, and neither has set
      it yet. */
  predicate BothLooked(w: Worker) {
    (w.pc.CallingDone? || w.pc.CalledDone?) && (w.main.AtCall? || w.main.AtSet?)
  }

  /** That is so after the first `k` steps. */
  ghost predicate RacedAt(init: State, steps: seq<Step>, i: nat, k: nat)
    requires k <= |steps|
  {
    match Run(init, steps[..k])
    case None => false
    case Some(s) => i < |s.workers| && BothLooked(s.workers[i])
  }

  ghost predicate Raced(init: State, steps: seq<Step>, i: nat) {
    exists k :: 0 <= k <= |steps| && RacedAt(init, steps, i, k)
  }

  /** The main thread has come past the call of `workerDone` in the destructor. */
  predicate MainPast(main: MainPc) {
    main.AtSet? || main.Gone?
  }

  /** How often the number of jobs has been lowered for a worker. */
  function TimesLowered(w: Worker, raced: bool): nat {
    if raced then (if Past(w.pc) then 1 else 0) + (if MainPast(w.main) then 1 else 0)
    else if Past(w.pc) || MainPast(w.main) then 1
    else 0
  }

  /** What is true of a worker for which both have looked in time, and of one for which not. */
  ghost predicate LoweredExactly(w: Worker, raced: bool) {
    && w.decrements == TimesLowered(w, raced)
    && (w.cleanedUp <==> w.pc.Finished? || w.main.Gone?)
    && (w.main != Away ==> Returned(w.pc) || w.pc.Unstarted?)
    && (raced ==> (w.pc.CallingDone? || Past(w.pc)) && w.main != Away)
    && (!raced ==>
          && (w.pc.CallingDone? || w.pc.CalledDone? ==> w.main == Away)
          && (w.pc.Finished? ==> w.main == Away || w.main == Gone))
  }

  lemma {:induction false} RacedSnoc(init: State, steps: seq<Step>, i: nat)
    requires steps != []
    ensures Raced(init, steps, i) <==>
      Raced(init, steps[..|steps| - 1], i) || RacedAt(init, steps, i, |steps|)
  {
    hide Run, BothLooked;
    var sooner := steps[..|steps| - 1];
    forall k | 0 <= k <= |sooner|
      ensures RacedAt(init, steps, i, k) <==> RacedAt(init, sooner, i, k)
    {
      assert sooner[..k] == steps[..k];
    }
  }

  lemma LoweredExactlyNext(s: State, step: Step, i: nat, raced: bool)
    requires Enabled(s, step) && i < |s.workers| && LoweredExactly(s.workers[i], raced)
    requires BothLooked(s.workers[i]) ==> raced
    requires step.StartNext? ==> s.workers[i].main == Away
    ensures var t := Apply(s, step);
      |t.workers| == |s.workers| && LoweredExactly(t.workers[i], raced || BothLooked(t.workers[i]))
  {
    OneWorker(s, step);
    if Actor(s, step) == Some(i) {
      CleansUp(s, step, i);
      if !Cleans(step) {
        NotYet(s, step, i);
      }
    }
    hide Apply;
  }

  lemma {:induction false} LoweredExactlyRun(items: seq<Item>, reverse: seq<bool>, steps: seq<Step>, i: nat)
    requires i < |reverse| && Run(Init(items, reverse), steps).Some?
    ensures var init := Init(items, reverse);
      var s := Run(init, steps).value;
      && i < |s.workers| && LoweredExactly(s.workers[i], Raced(init, steps, i))
      && (BothLooked(s.workers[i]) ==> Raced(init, steps, i))
  {
    hide Enabled, Apply, Raced, BothLooked;
    var init := Init(items, reverse);
    if steps == [] {
      NobodyRaced(items, reverse, steps, i);
    } else {
      var last := |steps| - 1;
      var s := Run(init, steps[..last]).value;
      LoweredExactlyRun(items, reverse, steps[..last], i);
      InvRun(items, reverse, steps[..last]);
      StartsAway(s, steps[last], i);
      hide LoweredExactly, Inv, Init;
      RacedSnoc(init, steps, i);
      assert steps[..|steps|] == steps;
      LoweredExactlyNext(s, steps[last], i, Raced(init, steps[..last], i));
    }
  }

  /** Workers are deleted only when no more are started. */
  lemma StartsAway(s: State, step: Step, i: nat)
    requires Enabled(s, step) && Jobs(s) && i < |s.workers|
    ensures step.StartNext? ==> s.workers[i].main == Away
  {
  }

  lemma NobodyRaced(items: seq<Item>, reverse: seq<bool>, steps: seq<Step>, i: nat)
    requires |steps| == 0 && i < |reverse|
    ensures !Raced(Init(items, reverse), steps, i) && !BothLooked(Init(items, reverse).workers[i])
  {
    assert steps == [];
  }

  /** In every run a worker lowers the number of jobs twice exactly when at some moment it and the
      main thread have both found its flag clear and neither has set it, and both have come past
      their calls. If it never was so, once either has come past its call the number has been
      lowered once for it, and before that never. */
  lemma LoweredTwiceExactly(items: seq<Item>, reverse: seq<bool>, steps: seq<Step>, s: State, i: nat)
    requires i < |reverse| && Run(Init(items, reverse), steps) == Some(s)
    ensures i < |s.workers|
    ensures var w, raced := s.workers[i], Raced(Init(items, reverse), steps, i);
      && (w.decrements == 2 <==> raced && Past(w.pc) && MainPast(w.main))
      && (!raced ==> w.decrements == if Past(w.pc) || MainPast(w.main) then 1 else 0)
      && (raced ==> w.decrements == (if Past(w.pc) then 1 else 0) + (if MainPast(w.main) then 1 else 0))
  {
    LoweredExactlyRun(items, reverse, steps, i);
  }

  /** So when all workers have come past their calls and all have been deleted, the number of jobs
      falls short of 0 by just the workers for which it was so. */
  lemma JobsAtTheEnd(items: seq<Item>, reverse: seq<bool>, steps: seq<Step>, s: State)
    requires |reverse| > 0 && Run(Init(items, reverse), steps) == Some(s)
    requires forall i :: 0 <= i < |s.workers| ==> Past(s.workers[i].pc) && s.workers[i].main == Gone
    ensures s.nJobs == -|set i | 0 <= i < |reverse| && Raced(Init(items, reverse), steps, i)|
  {
    hide Raced;
    InvRun(items, reverse, steps);
    SameWorkers(items, reverse, steps);
    forall i | 0 <= i < |reverse|
      ensures s.workers[i].decrements == if Raced(Init(items, reverse), steps, i) then 2 else 1
    {
      LoweredExactlyRun(items, reverse, steps, i);
    }
    OnceOrTwice(s.workers);
    assert (set i | 0 <= i < |reverse| && Raced(Init(items, reverse), steps, i)) == Twice(s.workers);
  }

  lemma {:induction false} SameWorkers(items: seq<Item>, reverse: seq<bool>, steps: seq<Step>)
    requires Run(Init(items, reverse), steps).Some?
    ensures |Run(Init(items, reverse), steps).value.workers| == |reverse|
  {
    if steps != [] {
      SameWorkers(items, reverse, steps[..|steps| - 1]);
      OneWorker(Run(Init(items, reverse), steps[..|steps| - 1]).value, steps[|steps| - 1]);
    }
  }

  function Twice(ws: seq<Worker>): set<nat> {
    set i | 0 <= i < |ws| && ws[i].decrements == 2
  }

  lemma {:induction false} OnceOrTwice(ws: seq<Worker>)
    requires forall i :: 0 <= i < |ws| ==> 1 <= ws[i].decrements <= 2
    ensures Decrements(ws) == |ws| + |Twice(ws)|
  {
    if ws == [] {
      assert Twice(ws) == {};
    } else {
      var last := |ws| - 1;
      var init := ws[..last];
      OnceOrTwice(init);
      assert forall i :: 0 <= i < last ==> ws[i] == init[i];
      assert Twice(ws) == Twice(init) + (if ws[last].decrements == 2 then {last} else {});
    }
  }

  /** Whoever is through before the other looks makes the other's cleanup harmless: a worker that is
      deleted before it looks at its flag, or that has finished before the main thread looks,
      lowers the number of jobs once, whatever comes next. */
  lemma DeletedInTime(items: seq<Item>, reverse: seq<bool>, steps: seq<Step>, s: State, i: nat, more: seq<Step>)
    requires i < |reverse| && Run(Init(items, reverse), steps) == Some(s) && i < |s.workers|
    requires var w := s.workers[i]; (w.main == Gone && w.pc == Leaving) || (w.main == Away && w.pc == Finished)
    ensures s.workers[i].decrements == 1
    ensures match Run(Init(items, reverse), steps + more)
      case None => true
      case Some(t) => i < |t.workers| && t.workers[i].decrements == 1
  {
    LoweredExactlyRun(items, reverse, steps, i);
    RunSplits(Init(items, reverse), steps, more);
    hide Init, Raced;
    if Run(s, more).Some? {
      StaysClean(s, more, i);
    }
  }

  /** One of the two is through with a worker, and the other has not got past looking. */
  ghost predicate Clean(w: Worker) {
    && w.cleanedUp && w.decrements == 1
    && ((w.main.Gone? && (w.pc.Leaving? || w.pc.Finished?)) || (w.main.Away? && w.pc.Finished?))
  }

  lemma {:induction false} StaysClean(s: State, steps: seq<Step>, i: nat)
    requires i < |s.workers| && Run(s, steps).Some? && Clean(s.workers[i])
    ensures var t := Run(s, steps).value; i < |t.workers| && Clean(t.workers[i])
  {
    if steps != [] {
      var last := |steps| - 1;
      StaysClean(s, steps[..last], i);
      hide Run;
      StaysCleanNext(Run(s, steps[..last]).value, steps[last], i);
    }
  }

  lemma StaysCleanNext(s: State, step: Step, i: nat)
    requires Enabled(s, step) && i < |s.workers| && Clean(s.workers[i])
    ensures var t := Apply(s, step); i < |t.workers| && Clean(t.workers[i])
  {
    OneWorker(s, step);
  }

  lemma {:induction false} RunSplits(s: State, steps: seq<Step>, more: seq<Step>)
    ensures Run(s, steps + more) == match Run(s, steps) case None => None case Some(t) => Run(t, more)
  {
    hide Apply, Enabled;
    if more == [] {
      assert steps + more == steps;
    } else {
      var all, last := steps + more, |more| - 1;
      assert all[..|all| - 1] == steps + more[..last];
      RunSplits(s, steps, more[..last]);
    }
  }

  /** A run up to the worker's own cleanup: nothing to do, so it leaves. */
  lemma WorkerLeaves() returns (steps: seq<Step>, s: State)
    ensures Run(Init([], [false]), steps) == Some(s) && s.phase == Waiting && !s.signalled
    ensures |s.workers| == 1 && s.workers[0] == Worker(Leaving, false, false, 0, Away) && s.nJobs == 1
  {
    var init := Init([], [false]);
    steps, s := [], init;
    steps, s := Extend(init, steps, s, StartNext);
    steps, s := Extend(init, steps, s, StopStarting);
    steps, s := Extend(init, steps, s, Poll(0));
    steps, s := Extend(init, steps, s, Take(0));
  }

  /** An example: deleted between its call and setting its flag, the only worker lowers the number of
      jobs to -1. The event has been signalled and closed by then. */
  lemma LoweredTwice() returns (steps: seq<Step>, s: State)
    ensures Run(Init([], [false]), steps) == Some(s) && s.signalled && s.phase == Closed && s.nJobs == -1
  {
    var init := Init([], [false]);
    steps, s := WorkerLeaves();
    hide Init;
    steps, s := Extend(init, steps, s, CheckCleanedUp(0));
    steps, s := Extend(init, steps, s, WorkerDone(0));
    steps, s := Extend(init, steps, s, Close);
    steps, s := Extend(init, steps, s, DestroyLook(0));
    steps, s := Extend(init, steps, s, DestroyCall(0));
  }

  /** Another: after a quit request the main thread looks first, and calls only when the worker has
      long been through. */
  lemma LoweredTwiceLate() returns (steps: seq<Step>, s: State)
    ensures Run(Init([], [false]), steps) == Some(s) && s.nJobs == -1
    ensures |s.workers| == 1 && s.workers[0] == Worker(Finished, false, true, 2, AtSet)
  {
    var init := Init([], [false]);
    steps, s := MainLooks();
    hide Init, Run;
    steps, s := Extend(init, steps, s, CheckCleanedUp(0));
    steps, s := Extend(init, steps, s, WorkerDone(0));
    steps, s := Extend(init, steps, s, SetCleanedUp(0));
    steps, s := Extend(init, steps, s, DestroyCall(0));
  }

  lemma MainLooks() returns (steps: seq<Step>, s: State)
    ensures Run(Init([], [false]), steps) == Some(s) && s.phase == Closed && s.nJobs == 1
    ensures |s.workers| == 1 && s.workers[0] == Worker(Leaving, false, false, 0, AtCall)
  {
    var init := Init([], [false]);
    steps, s := WorkerLeaves();
    hide Init;
    steps, s := Extend(init, steps, s, RequestQuit);
    steps, s := Extend(init, steps, s, Close);
    steps, s := Extend(init, steps, s, DestroyLook(0));
  }

  lemma Extend(init: State, steps: seq<Step>, s: State, step: Step) returns (longer: seq<Step>, t: State)
    requires Run(init, steps) == Some(s) && Enabled(s, step)
    ensures Run(init, longer) == Some(t) && t == Apply(s, step)
  {
    longer, t := steps + [step], Apply(s, step);
    assert longer[..|longer| - 1] == steps;
  }
}
