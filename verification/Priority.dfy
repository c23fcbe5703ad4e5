/** Thread priorities: Windows' five levels mapped onto the range of a POSIX scheduling policy, and
    back. */
module Priority {

  /** A scheduling policy, by the range of its priorities. */
  datatype Policy = Policy(pmin: nat, pmax: nat) {
    predicate Valid() {
      pmin <= pmax
    }

    function Width(): int {
      pmax - pmin
    }

    predicate Has(p: int) {
      pmin <= p <= pmax
    }
  }

  const LOWEST := -2
  const BELOW_NORMAL := -1
  const NORMAL := 0
  const ABOVE_NORMAL := 1
  const HIGHEST := 2
  const IDLE := -15
  const TIME_CRITICAL := 15

  predicate Level(l: int) {
    LOWEST <= l <= HIGHEST
  }

  function SchedPriority(policy: Policy, level: int): int {
    var normal := (policy.pmin + policy.pmax) / 2;
    if level == ABOVE_NORMAL then (normal + policy.pmax) / 2
    else if level == BELOW_NORMAL then (policy.pmin + normal) / 2
    else if level == HIGHEST || level == TIME_CRITICAL then policy.pmax
    else if level == IDLE || level == LOWEST then policy.pmin
    else if level == NORMAL then normal
    else level
  }

  function LevelOf(policy: Policy, p: int): (level: int)
    ensures Level(level)
  {
    var normal := (policy.pmin + policy.pmax) / 2;
    var below, above := (policy.pmin + normal) / 2, (normal + policy.pmax) / 2;
    if p < (policy.pmin + below) / 2 then LOWEST
    else if p < (below + normal) / 2 then BELOW_NORMAL
    else if p <= (normal + above) / 2 then NORMAL
    else if p <= (above + policy.pmax) / 2 then ABOVE_NORMAL
    else HIGHEST
  }

  /** The five levels' own priorities: the ends of the range, its middle, and its quarters, all rounded
      down; two more names for the ends; anything else is left as it is. */
  lemma Quarters(policy: Policy, level: int)
    requires policy.Valid()
    ensures SchedPriority(policy, level) ==
      if level == -2 || level == -15 then policy.pmin
      else if level == -1 then policy.pmin + policy.Width() / 4
      else if level == 0 then policy.pmin + policy.Width() / 2
      else if level == 1 then policy.pmin + 3 * policy.Width() / 4
      else if level == 2 || level == 15 then policy.pmax
      else level
  {
    Midpoints(policy);
  }

  lemma Midpoints(policy: Policy)
    requires policy.Valid()
    ensures var normal := (policy.pmin + policy.pmax) / 2; var w := policy.Width();
      normal == policy.pmin + w / 2 && (policy.pmin + normal) / 2 == policy.pmin + w / 4
      && (normal + policy.pmax) / 2 == policy.pmin + 3 * w / 4
  {
    var w := policy.Width();
    var normal := (policy.pmin + policy.pmax) / 2;
    assert normal == policy.pmin + w / 2;
    assert (policy.pmin + normal) / 2 == policy.pmin + w / 2 / 2;
    assert (normal + policy.pmax) / 2 == policy.pmin + (w / 2 + w) / 2;
  }

  function Distance(policy: Policy, p: int, level: int): int {
    var q := SchedPriority(policy, level);
    if p < q then q - p else p - q
  }

  /** Above the middle a priority has the nearest level, and the lower of two that are as near. From
      the middle down the rounding is to the other side: its level is at most one further away than any
      lower one, and the higher ones are further away still. */
  lemma NearestLevel(policy: Policy, p: int, other: int)
    requires policy.Valid() && policy.Has(p) && Level(other)
    ensures var l, d, d' := LevelOf(policy, p), Distance(policy, p, LevelOf(policy, p)), Distance(policy, p, other);
      if p > SchedPriority(policy, NORMAL) then
        l >= NORMAL && (other >= NORMAL ==> d <= d' && (d == d' ==> l <= other))
      else
        l <= NORMAL && (other < l ==> d <= d' + 1)
        && (l < other <= NORMAL ==> if p < SchedPriority(policy, l) then d' >= d else d' > d + 1)
  {
  }

  predicate Stable(policy: Policy, level: int) {
    LevelOf(policy, SchedPriority(policy, level)) == level
  }

  /** Which levels survive the way to the policy's range and back depends on its width alone. */
  lemma StableLevels(policy: Policy)
    requires policy.Valid()
    ensures Stable(policy, NORMAL)
    ensures Stable(policy, HIGHEST) <==> policy.Width() >= 1
    ensures Stable(policy, ABOVE_NORMAL) <==> policy.Width() >= 3
    ensures Stable(policy, BELOW_NORMAL) <==> policy.Width() >= 6
    ensures Stable(policy, LOWEST) <==> policy.Width() >= 8
  {
    var w, half := policy.Width(), policy.pmin / 2;
    var normal := (policy.pmin + policy.pmax) / 2;
    assert normal == policy.pmin + w / 2;
    assert (policy.pmin + normal) / 2 == policy.pmin + w / 2 / 2;
    assert (normal + policy.pmax) / 2 == policy.pmin + (w / 2 + w) / 2;
  }

  /** All five do exactly when the range is 8 wide or wider. */
  lemma AllStable(policy: Policy)
    requires policy.Valid()
    ensures (forall l :: Level(l) ==> Stable(policy, l)) <==> policy.Width() >= 8
  {
    StableLevels(policy);
    assert Level(LOWEST);
  }

  /** Asking twice gives the same answer, from any priority of the policy, exactly when the range
      is not 4 or 5 wide. */
  lemma AskingTwice(policy: Policy)
    requires policy.Valid()
    ensures (forall p :: policy.Has(p) ==> Stable(policy, LevelOf(policy, p))) <==>
      policy.Width() != 4 && policy.Width() != 5
  {
    var w := policy.Width();
    if w == 4 || w == 5 {
      assert policy.Has(policy.pmin);
      StableLevels(policy);
      LowEnd(policy);
    } else {
      forall p | policy.Has(p)
        ensures Stable(policy, LevelOf(policy, p))
      {
        StableLevels(policy);
        Reached(policy, p);
      }
    }
  }

  /** The least priority counts as below normal while the range is too narrow for a lowest level. */
  lemma LowEnd(policy: Policy)
    requires policy.Valid() && 4 <= policy.Width() <= 5
    ensures LevelOf(policy, policy.pmin) == BELOW_NORMAL
  {
    assert (policy.pmin + policy.pmax) / 2 == policy.pmin + 2;
    assert (policy.pmin + (policy.pmin + 2)) / 2 == policy.pmin + 1;
  }

  /** A level is given as an answer only when the range is wide enough for it. */
  lemma Reached(policy: Policy, p: int)
    requires policy.Valid() && policy.Has(p)
    ensures LevelOf(policy, p) == LOWEST ==> policy.Width() >= 8
    ensures LevelOf(policy, p) == BELOW_NORMAL ==> policy.Width() >= 4
    ensures LevelOf(policy, p) == ABOVE_NORMAL ==> policy.Width() >= 3
    ensures LevelOf(policy, p) == HIGHEST ==> policy.Width() >= 1
  {
    var w := policy.Width();
    var normal := (policy.pmin + policy.pmax) / 2;
    assert normal == policy.pmin + w / 2;
    assert (policy.pmin + normal) / 2 == policy.pmin + w / 2 / 2;
    assert (normal + policy.pmax) / 2 == policy.pmin + (w / 2 + w) / 2;
  }

  // ---------- threads ----------

  class Thread {
    const policy: Policy
    var schedPriority: int

    constructor (policy: Policy, p: int)
      ensures this.policy == policy && schedPriority == p
    {
      this.policy, schedPriority := policy, p;
    }

    /** Reading a thread's level moves the thread to that level's own priority. */
    method GetThreadPriority() returns (level: int)
      modifies this
      ensures level == LevelOf(policy, old(schedPriority))
      ensures schedPriority == SchedPriority(policy, level)
    {
      level := LevelOf(policy, schedPriority);
      var prior := SchedPriority(policy, level);
      if prior != schedPriority {
        schedPriority := prior;
      }
    }

    method SetThreadPriority(level: int)
      modifies this
      ensures schedPriority == SchedPriority(policy, level)
    {
      schedPriority := SchedPriority(policy, level);
    }
  }

  /** Setting one thread's level from another's makes the two equal, whatever the policy's width. */
  method Equalise(a: Thread, b: Thread)
    requires a != b && a.policy == b.policy
    modifies a, b
    ensures a.schedPriority == b.schedPriority
  {
    var level := a.GetThreadPriority();
    b.SetThreadPriority(level);
  }

  /** A second reading gives the same level and leaves the thread alone, unless the range is 4 or
      5 wide. */
  method GetTwice(a: Thread) returns (first: int, second: int)
    requires a.policy.Valid() && a.policy.Has(a.schedPriority) && a.policy.Width() != 4 && a.policy.Width() != 5
    modifies a
    ensures first == second && a.schedPriority == SchedPriority(a.policy, first)
  {
    AskingTwice(a.policy);
    first := a.GetThreadPriority();
    second := a.GetThreadPriority();
  }

  /** On a range 4 wide it does not: the thread goes from 0 to 1, and then to 2. */
  lemma TooNarrow()
    ensures var policy := Policy(0, 4);
      var first := LevelOf(policy, 0); var p := SchedPriority(policy, first);
      first == BELOW_NORMAL && p == 1 && LevelOf(policy, p) == NORMAL && SchedPriority(policy, NORMAL) == 2
  {
  }
}
