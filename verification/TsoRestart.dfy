/** Timestamps across process incarnations: boot, issue, periodic flush, clean stop and crash. */
module TsoRestart {
  import opened Core
  import opened Tso
  import opened TsoProcess

  /** The running process: the word, and the value a flush has read but not yet written. */
  datatype Process = Down | Up(last: U64, flushing: Option<U64>)

  /** `stored` survives crashes; `issued` lists every timestamp of every incarnation, oldest first. */
  datatype World = World(stored: U64, process: Process, issued: seq<U64>)

  datatype Action =
    | Boot(waited: U64, after: U64)
    | Issue(wall: U64)
    | FlushRead
    | FlushWrite(ok: bool)
    | Stop(ok: bool)
    | Crash

  function Floor(w: World, interval: U64): U64 {
    SaturatingAdd(w.stored, interval)
  }

  /** One step with flush interval `interval`; 0 means no flush task. A disabled action changes
      nothing. `waited` is the clock reading that ends the boot loop, `after` the next reading. */
  function Step(w: World, a: Action, interval: U64): World {
    match a
    case Boot(waited, after) =>
      if w.process.Up? || (Floor(w, interval) > 0 && waited <= Floor(w, interval)) then w
      else w.(process := Up(FromParts(Max(Floor(w, interval), after), 0), None))
    case Issue(wall) =>
      if w.process.Down? || Advance(w.process.last, wall).None? then w
      else
        var ts := Advance(w.process.last, wall).value;
        w.(process := w.process.(last := ts), issued := w.issued + [ts])
    case FlushRead =>
      if w.process.Down? || interval == 0 || w.process.flushing.Some? then w
      else w.(process := w.process.(flushing := Some(PhysicalMs(w.process.last))))
    case FlushWrite(ok) =>
      if w.process.Down? || w.process.flushing.None? then w
      else World(if ok then w.process.flushing.value else w.stored, w.process.(flushing := None), w.issued)
    case Stop(ok) =>
      if w.process.Down? || w.process.flushing.Some? then w
      else World(if interval > 0 && ok then PhysicalMs(w.process.last) else w.stored, Down, w.issued)
    case Crash => w.(process := Down)
  }

  function Run(w: World, actions: seq<Action>, interval: U64): World
    decreases |actions|
  {
    if actions == [] then w else Run(Step(w, actions[0], interval), actions[1..], interval)
  }

  /** Every timestamp issued so far lies within one flush interval of the stored mark. */
  ghost predicate Covered(w: World, interval: U64) {
    forall i :: 0 <= i < |w.issued| ==> PhysicalMs(w.issued[i]) <= Floor(w, interval)
  }

  predicate ClockBelowLimit(a: Action) {
    match a
    case Boot(waited, after) => waited < PHYSICAL_LIMIT && after < PHYSICAL_LIMIT
    case Issue(wall) => wall < PHYSICAL_LIMIT
    case _ => true
  }

  /**
   What the theorem asks of the surroundings: clocks below 2^46 ms; at a boot the clock does not step
   back after the wait loop, and a boot that has nothing to wait for after timestamps were issued
   finds the clock past 0; and when a process goes down without a successful final write, the last
   flush is recent enough to cover what it issued.
   */
  ghost predicate Tolerated(w: World, a: Action, interval: U64) {
    && ClockBelowLimit(a)
    && match a
       case Boot(waited, after) =>
         if Floor(w, interval) > 0 then after >= waited else |w.issued| > 0 ==> after > 0
       case Stop(ok) => (interval > 0 && ok) || Covered(w, interval)
       case Crash => Covered(w, interval)
       case _ => true
  }

  ghost predicate AllTolerated(w: World, actions: seq<Action>, interval: U64)
    decreases |actions|
  {
    actions == [] ||
    (Tolerated(w, actions[0], interval) && AllTolerated(Step(w, actions[0], interval), actions[1..], interval))
  }

  // ----- The high-water mark -------------------------------------------------------------------

  ghost predicate MarkOk(w: World) {
    w.process.Up? ==>
      && w.stored <= PhysicalMs(w.process.last)
      && (w.process.flushing.Some? ==> w.stored <= w.process.flushing.value <= PhysicalMs(w.process.last))
  }

  lemma StepKeepsMark(w: World, a: Action, interval: U64)
    requires MarkOk(w) && w.stored < PHYSICAL_LIMIT && ClockBelowLimit(a)
    ensures MarkOk(Step(w, a, interval)) && w.stored <= Step(w, a, interval).stored < PHYSICAL_LIMIT
  {
    match a
    case Boot(waited, after) =>
      if w.process.Down? && (Floor(w, interval) > 0 ==> waited > Floor(w, interval)) {
        PartsOfComposed(Max(Floor(w, interval), after), 0);
      }
    case Issue(wall) =>
      if w.process.Up? {
        AdvanceIsLeast(w.process.last, wall);
      }
    case _ =>
  }

  /** The persisted mark never decreases, although every write overwrites it: no flush bound is needed. */
  lemma {:induction false} MarkNeverDecreases(w: World, actions: seq<Action>, interval: U64)
    requires MarkOk(w) && w.stored < PHYSICAL_LIMIT && forall a :: a in actions ==> ClockBelowLimit(a)
    ensures w.stored <= Run(w, actions, interval).stored < PHYSICAL_LIMIT
    decreases |actions|
  {
    if actions != [] {
      assert actions[0] in actions;
      StepKeepsMark(w, actions[0], interval);
      MarkNeverDecreases(Step(w, actions[0], interval), actions[1..], interval);
    }
  }

  // ----- Uniqueness across restarts ------------------------------------------------------------

  ghost predicate StrictlyIncreasing(s: seq<U64>) {
    forall i, j :: 0 <= i < j < |s| ==> s[i] < s[j]
  }

  ghost predicate Inv(w: World, interval: U64) {
    && MarkOk(w) && w.stored < PHYSICAL_LIMIT
    && StrictlyIncreasing(w.issued)
    && (if w.process.Up? then forall i :: 0 <= i < |w.issued| ==> w.issued[i] <= w.process.last
        else Covered(w, interval))
  }

  /** A boot seeds the word above everything issued before. */
  lemma BootSeedsAbove(w: World, a: Action, interval: U64)
    requires Inv(w, interval) && Tolerated(w, a, interval) && a.Boot? && w.process.Down?
    requires Floor(w, interval) > 0 ==> a.waited > Floor(w, interval)
    ensures forall i :: 0 <= i < |w.issued| ==> w.issued[i] < FromParts(Max(Floor(w, interval), a.after), 0)
  {
    var seed := Max(Floor(w, interval), a.after);
    PartsOfComposed(seed, 0);
    forall i | 0 <= i < |w.issued| ensures w.issued[i] < FromParts(seed, 0) {
      assert PhysicalMs(w.issued[i]) <= Floor(w, interval) < seed;
    }
  }

  lemma StepKeepsInv(w: World, a: Action, interval: U64)
    requires Inv(w, interval) && Tolerated(w, a, interval)
    ensures Inv(Step(w, a, interval), interval)
  {
    StepKeepsMark(w, a, interval);
    match a
    case Boot(waited, after) =>
      if w.process.Down? && (Floor(w, interval) > 0 ==> waited > Floor(w, interval)) {
        BootSeedsAbove(w, a, interval);
      }
    case Issue(wall) =>
      if w.process.Up? {
        AdvanceIsLeast(w.process.last, wall);
      }
    case Stop(ok) =>
      if w.process.Up? && w.process.flushing.None? && interval > 0 && ok {
        var w' := Step(w, a, interval);
        forall i | 0 <= i < |w'.issued| ensures PhysicalMs(w'.issued[i]) <= Floor(w', interval) {
          assert w.issued[i] <= w.process.last;
        }
      }
    case _ =>
  }

  lemma {:induction false} RunKeepsInv(w: World, actions: seq<Action>, interval: U64)
    requires Inv(w, interval) && AllTolerated(w, actions, interval)
    ensures Inv(Run(w, actions, interval), interval)
    decreases |actions|
  {
    if actions != [] {
      StepKeepsInv(w, actions[0], interval);
      RunKeepsInv(Step(w, actions[0], interval), actions[1..], interval);
    }
  }

  /**
   Across any run of boots, calls, flushes, clean stops and crashes, every timestamp issued is
   strictly greater than all issued before it, by this incarnation and by all earlier ones.
   */
  lemma IssuedNeverRepeatAcrossRestarts(stored: U64, actions: seq<Action>, interval: U64)
    requires stored < PHYSICAL_LIMIT && AllTolerated(World(stored, Down, []), actions, interval)
    ensures StrictlyIncreasing(Run(World(stored, Down, []), actions, interval).issued)
  {
    RunKeepsInv(World(stored, Down, []), actions, interval);
  }

  /** After a clean stop whose final write succeeds the flush bound holds with nothing to spare: every
      issued timestamp is within the stored mark itself. */
  lemma CleanStopCovers(w: World, interval: U64)
    requires Inv(w, interval) && w.process.Up? && w.process.flushing.None? && interval > 0
    ensures var w' := Step(w, Stop(true), interval);
            forall i :: 0 <= i < |w'.issued| ==> PhysicalMs(w'.issued[i]) <= w'.stored
  {
    var w' := Step(w, Stop(true), interval);
    forall i | 0 <= i < |w'.issued| ensures PhysicalMs(w'.issued[i]) <= w'.stored {
      assert w.issued[i] <= w.process.last;
    }
  }

  // ----- The exact condition -------------------------------------------------------------------

  function Calls(walls: seq<U64>): seq<Action> {
    if walls == [] then [] else [Issue(walls[0])] + Calls(walls[1..])
  }

  /** What calls at these clock readings issue, starting from the word `last`. */
  function IssuedFrom(last: U64, walls: seq<U64>): seq<U64>
    decreases |walls|
  {
    if walls == [] then []
    else
      match Advance(last, walls[0])
      case None => IssuedFrom(last, walls[1..])
      case Some(ts) => [ts] + IssuedFrom(ts, walls[1..])
  }

  lemma {:induction false} RunOfCalls(w: World, walls: seq<U64>, interval: U64)
    requires w.process.Up?
    ensures Run(w, Calls(walls), interval).issued == w.issued + IssuedFrom(w.process.last, walls)
    decreases |walls|
  {
    if walls != [] {
      RunOfCalls(Step(w, Issue(walls[0]), interval), walls[1..], interval);
      assert Calls(walls)[1..] == Calls(walls[1..]);
    }
  }

  lemma {:induction false} RunOfBoth(w: World, a: seq<Action>, b: seq<Action>, interval: U64)
    ensures Run(w, a + b, interval) == Run(Run(w, a, interval), b, interval)
    decreases |a|
  {
    if a == [] {
      assert a + b == b;
    } else {
      assert (a + b)[1..] == a[1..] + b;
      RunOfBoth(Step(w, a[0], interval), a[1..], b, interval);
    }
  }

  lemma {:induction false} CallsStayAbove(last: U64, walls: seq<U64>)
    requires BelowLimit(walls)
    ensures StrictlyIncreasing(IssuedFrom(last, walls))
    ensures forall i :: 0 <= i < |IssuedFrom(last, walls)| ==> IssuedFrom(last, walls)[i] > last
    decreases |walls|
  {
    if walls != [] {
      AdvanceIsLeast(last, walls[0]);
      match Advance(last, walls[0])
      case None => CallsStayAbove(last, walls[1..]);
      case Some(ts) => CallsStayAbove(ts, walls[1..]);
    }
  }

  /** Clock readings that bring the word from `last` to `ts`: one jump to its millisecond, then slot by slot. */
  function Approach(last: U64, ts: U64): seq<U64>
    decreases if ts > last then ts - last else 0
  {
    if ts <= last then []
    else if PhysicalMs(ts) > PhysicalMs(last) then
      [PhysicalMs(ts)] + Approach(PhysicalMs(ts) * LOGICAL_LIMIT, ts)
    else [0] + Approach(last + 1, ts)
  }

  lemma {:induction false} CallsReach(last: U64, ts: U64)
    requires ts > last
    ensures BelowLimit(Approach(last, ts)) && ts in IssuedFrom(last, Approach(last, ts))
    decreases ts - last
  {
    var walls := Approach(last, ts);
    ComposeParts(ts);
    if PhysicalMs(ts) > PhysicalMs(last) {
      var next: U64 := PhysicalMs(ts) * LOGICAL_LIMIT;
      assert Advance(last, walls[0]) == Some(next);
      assert walls[1..] == Approach(next, ts);
      if next < ts {
        CallsReach(next, ts);
      }
    } else {
      assert Advance(last, walls[0]) == Some(last + 1);
      assert walls[1..] == Approach(last + 1, ts);
      if last + 1 < ts {
        CallsReach(last + 1, ts);
      }
    }
  }

  /** The word a boot starts from. */
  function Seed(w: World, a: Action, interval: U64): U64
    requires a.Boot?
  {
    FromParts(Max(Floor(w, interval), a.after), 0)
  }

  /** The process is down and the wait loop of the boot ends. */
  predicate Boots(w: World, a: Action, interval: U64) {
    a.Boot? && w.process.Down? && (Floor(w, interval) > 0 ==> a.waited > Floor(w, interval))
  }

  /** What the process issues from this boot on, called at these clock readings. */
  function IssuedAfter(w: World, a: Action, walls: seq<U64>, interval: U64): seq<U64>
    requires a.Boot?
  {
    IssuedFrom(Seed(w, a, interval), walls)
  }

  lemma BootThenCalls(w: World, a: Action, walls: seq<U64>, interval: U64)
    requires Boots(w, a, interval)
    ensures Run(w, [a] + Calls(walls), interval).issued == w.issued + IssuedAfter(w, a, walls, interval)
  {
    assert ([a] + Calls(walls))[1..] == Calls(walls);
    RunOfCalls(Step(w, a, interval), walls, interval);
  }

  ghost predicate AtMost(issued: seq<U64>, bound: U64) {
    forall i :: 0 <= i < |issued| ==> issued[i] <= bound
  }

  /** However often the process is called after this boot, the list of all incarnations stays increasing. */
  ghost predicate StaysIncreasing(w: World, a: Action, interval: U64)
    requires a.Boot?
  {
    forall walls :: BelowLimit(walls) ==> StrictlyIncreasing(w.issued + IssuedAfter(w, a, walls, interval))
  }

  /** Some calls after this boot issue `ts`. */
  ghost predicate CanIssue(w: World, a: Action, ts: U64, interval: U64)
    requires a.Boot?
  {
    exists walls :: BelowLimit(walls) && ts in IssuedAfter(w, a, walls, interval)
  }

  /** Exactly the timestamps above the seed can still be issued. */
  lemma CanIssueIff(w: World, a: Action, ts: U64, interval: U64)
    requires a.Boot?
    ensures CanIssue(w, a, ts, interval) <==> ts > Seed(w, a, interval)
  {
    var seed := Seed(w, a, interval);
    if ts > seed {
      CallsReach(seed, ts);
    }
    forall walls | BelowLimit(walls) && ts in IssuedAfter(w, a, walls, interval) ensures ts > seed {
      CallsStayAbove(seed, walls);
    }
  }

  /** One boot, whatever the mark, the floor and the clock, backward and zero clocks included: the list stays
      increasing whatever calls follow if and only if nothing issued so far is above the seed. */
  lemma BootIsSafeIff(w: World, a: Action, interval: U64)
    requires Boots(w, a, interval) && StrictlyIncreasing(w.issued)
    ensures StaysIncreasing(w, a, interval) <==> AtMost(w.issued, Seed(w, a, interval))
  {
    var seed := Seed(w, a, interval);
    if AtMost(w.issued, seed) {
      forall walls | BelowLimit(walls) ensures StrictlyIncreasing(w.issued + IssuedAfter(w, a, walls, interval)) {
        CallsStayAbove(seed, walls);
      }
    } else {
      var i :| 0 <= i < |w.issued| && w.issued[i] > seed;
      CanIssueIff(w, a, w.issued[i], interval);
      var walls :| BelowLimit(walls) && w.issued[i] in IssuedAfter(w, a, walls, interval);
      var issued := IssuedAfter(w, a, walls, interval);
      var j :| 0 <= j < |issued| && issued[j] == w.issued[i];
      assert (w.issued + issued)[i] == (w.issued + issued)[|w.issued| + j];
    }
  }

  /** A boot whose clock does not step back after the wait loop. */
  predicate ForwardBoot(w: World, a: Action, interval: U64) {
    Boots(w, a, interval) && ClockBelowLimit(a) && a.after >= a.waited
  }

  /** Every boot on a forward clock is safe if and only if nothing issued is above the first slot of the
      millisecond after the floor. This is what the flush must have secured when the process went down. */
  lemma ForwardBootsAreSafeIff(w: World, interval: U64)
    requires w.process.Down? && StrictlyIncreasing(w.issued)
    requires 0 < Floor(w, interval) < PHYSICAL_LIMIT - 1
    ensures (forall a :: ForwardBoot(w, a, interval) ==> StaysIncreasing(w, a, interval))
            <==> AtMost(w.issued, FromParts(Floor(w, interval) + 1, 0))
  {
    var floor := Floor(w, interval);
    var bound := FromParts(floor + 1, 0);
    if AtMost(w.issued, bound) {
      forall a | ForwardBoot(w, a, interval) ensures StaysIncreasing(w, a, interval) {
        OrderOfComposed(floor + 1, 0, a.after, 0);
        BootIsSafeIff(w, a, interval);
      }
    } else {
      BootIsSafeIff(w, Boot(floor + 1, floor + 1), interval);
      assert ForwardBoot(w, Boot(floor + 1, floor + 1), interval);
    }
  }

  /** The flush bound is enough for it, and more than enough by exactly one slot. */
  lemma CoveredIsSafe(w: World, interval: U64)
    requires Covered(w, interval) && Floor(w, interval) < PHYSICAL_LIMIT - 1
    ensures AtMost(w.issued, FromParts(Floor(w, interval) + 1, 0))
  {
    forall i | 0 <= i < |w.issued| ensures w.issued[i] <= FromParts(Floor(w, interval) + 1, 0) {
      assert PhysicalMs(w.issued[i]) <= Floor(w, interval);
    }
  }

  /** Without that: a forward boot after which an issued timestamp comes again. */
  lemma UncoveredCrashCanRepeat(w: World, interval: U64, i: nat)
    requires w.process.Down? && 0 < Floor(w, interval) < PHYSICAL_LIMIT - 1
    requires i < |w.issued| && w.issued[i] > FromParts(Floor(w, interval) + 1, 0)
    ensures var a := Boot(Floor(w, interval) + 1, Floor(w, interval) + 1);
            ForwardBoot(w, a, interval) && CanIssue(w, a, w.issued[i], interval)
  {
    CanIssueIff(w, Boot(Floor(w, interval) + 1, Floor(w, interval) + 1), w.issued[i], interval);
  }

  /** A boot whose clock steps back to the floor or below repeats an issued timestamp if and only if one
      above the first slot of the floor was issued: the flush bound alone is not enough. */
  lemma BackwardBootRepeatsIff(w: World, a: Action, interval: U64)
    requires Boots(w, a, interval) && 0 < Floor(w, interval) && a.after <= Floor(w, interval)
    ensures (exists i :: 0 <= i < |w.issued| && CanIssue(w, a, w.issued[i], interval))
            <==> !AtMost(w.issued, FromParts(Floor(w, interval), 0))
  {
    forall i | 0 <= i < |w.issued|
      ensures CanIssue(w, a, w.issued[i], interval) <==> w.issued[i] > FromParts(Floor(w, interval), 0)
    {
      CanIssueIff(w, a, w.issued[i], interval);
    }
  }

  /** With nothing stored, no flush task and a clock at 0 a boot repeats every issued timestamp but 0. */
  lemma ZeroClockRepeatsIff(w: World, a: Action, i: nat)
    requires w.stored == 0 && Boots(w, a, 0) && a.after == 0 && i < |w.issued|
    ensures CanIssue(w, a, w.issued[i], 0) <==> w.issued[i] != 0
  {
    CanIssueIff(w, a, w.issued[i], 0);
  }

  // ----- Whole runs, exactly -------------------------------------------------------------------

  /** At each boot of the run nothing issued so far is above its seed. */
  ghost predicate SeededAbove(w: World, actions: seq<Action>, interval: U64)
    decreases |actions|
  {
    actions == [] ||
    ((Boots(w, actions[0], interval) ==> AtMost(w.issued, Seed(w, actions[0], interval)))
     && SeededAbove(Step(w, actions[0], interval), actions[1..], interval))
  }

  /** Whenever the run is cut off and the process then only called, the list of everything issued is
      strictly increasing. */
  ghost predicate NeverRepeats(w: World, actions: seq<Action>, interval: U64) {
    forall k: nat, walls :: k <= |actions| && BelowLimit(walls) ==>
      StrictlyIncreasing(Run(w, actions[..k] + Calls(walls), interval).issued)
  }

  ghost predicate CallsBelowLimit(actions: seq<Action>) {
    forall a :: a in actions && a.Issue? ==> a.wall < PHYSICAL_LIMIT
  }

  ghost predicate Ordered(w: World) {
    StrictlyIncreasing(w.issued) && (w.process.Up? ==> AtMost(w.issued, w.process.last))
  }

  lemma StepKeepsOrdered(w: World, a: Action, interval: U64)
    requires Ordered(w) && (a.Issue? ==> a.wall < PHYSICAL_LIMIT)
    requires Boots(w, a, interval) ==> AtMost(w.issued, Seed(w, a, interval))
    ensures Ordered(Step(w, a, interval))
  {
    if a.Issue? && w.process.Up? {
      AdvanceIsLeast(w.process.last, a.wall);
    }
  }

  lemma OrderedCallsIncrease(w: World, walls: seq<U64>, interval: U64)
    requires Ordered(w) && BelowLimit(walls)
    ensures StrictlyIncreasing(Run(w, Calls(walls), interval).issued)
  {
    if w.process.Up? {
      RunOfCalls(w, walls, interval);
      CallsStayAbove(w.process.last, walls);
    } else {
      DownIgnoresCalls(w, walls, interval);
    }
  }

  lemma {:induction false} DownIgnoresCalls(w: World, walls: seq<U64>, interval: U64)
    requires w.process.Down?
    ensures Run(w, Calls(walls), interval) == w
    decreases |walls|
  {
    if walls != [] {
      assert Calls(walls)[1..] == Calls(walls[1..]);
      DownIgnoresCalls(w, walls[1..], interval);
    }
  }

  lemma RunOfFirst(w: World, actions: seq<Action>, k: nat, walls: seq<U64>, interval: U64)
    requires 1 <= k <= |actions|
    ensures Run(w, actions[..k] + Calls(walls), interval)
         == Run(Step(w, actions[0], interval), actions[1..][..k - 1] + Calls(walls), interval)
  {
    assert (actions[..k] + Calls(walls))[1..] == actions[1..][..k - 1] + Calls(walls);
  }

  lemma {:induction false} SeededRunNeverRepeats(w: World, actions: seq<Action>, interval: U64)
    requires Ordered(w) && CallsBelowLimit(actions) && SeededAbove(w, actions, interval)
    ensures NeverRepeats(w, actions, interval)
    decreases |actions|
  {
    hide StrictlyIncreasing, Ordered, BelowLimit, Calls, Step;
    if actions != [] {
      assert actions[0] in actions;
      StepKeepsOrdered(w, actions[0], interval);
      SeededRunNeverRepeats(Step(w, actions[0], interval), actions[1..], interval);
    }
    forall k: nat, walls | k <= |actions| && BelowLimit(walls)
      ensures StrictlyIncreasing(Run(w, actions[..k] + Calls(walls), interval).issued)
    {
      if k == 0 {
        assert actions[..0] + Calls(walls) == Calls(walls);
        OrderedCallsIncrease(w, walls, interval);
      } else {
        RunOfFirst(w, actions, k, walls, interval);
      }
    }
  }

  lemma {:induction false} RunThatNeverRepeatsIsSeeded(w: World, actions: seq<Action>, interval: U64)
    requires Ordered(w) && CallsBelowLimit(actions) && NeverRepeats(w, actions, interval)
    ensures SeededAbove(w, actions, interval)
    decreases |actions|
  {
    hide StrictlyIncreasing, BelowLimit, Calls, Step, AtMost;
    if actions != [] {
      var a := actions[0];
      assert a in actions;
      if Boots(w, a, interval) {
        forall walls | BelowLimit(walls) ensures StrictlyIncreasing(w.issued + IssuedAfter(w, a, walls, interval)) {
          assert actions[..1] + Calls(walls) == [a] + Calls(walls);
          BootThenCalls(w, a, walls, interval);
        }
        BootIsSafeIff(w, a, interval);
      }
      StepKeepsOrdered(w, a, interval);
      forall k: nat, walls | k <= |actions[1..]| && BelowLimit(walls)
        ensures StrictlyIncreasing(Run(Step(w, a, interval), actions[1..][..k] + Calls(walls), interval).issued)
      {
        RunOfFirst(w, actions, k + 1, walls, interval);
      }
      RunThatNeverRepeatsIsSeeded(Step(w, a, interval), actions[1..], interval);
    }
  }

  /**
   The exact condition, for every run of boots, calls, flushes, stops and crashes with any clock at its
   boots: nothing is ever issued twice or out of order, wherever the run is cut off and called on, if and
   only if at each boot nothing issued before is above the seed.
   */
  lemma NeverRepeatsIff(stored: U64, actions: seq<Action>, interval: U64)
    requires CallsBelowLimit(actions)
    ensures NeverRepeats(World(stored, Down, []), actions, interval)
            <==> SeededAbove(World(stored, Down, []), actions, interval)
  {
    var w := World(stored, Down, []);
    if SeededAbove(w, actions, interval) {
      SeededRunNeverRepeats(w, actions, interval);
    }
    if NeverRepeats(w, actions, interval) {
      RunThatNeverRepeatsIsSeeded(w, actions, interval);
    }
  }

  /** The hypotheses of the restart theorem are enough for it. */
  lemma {:induction false} ToleratedRunIsSeeded(w: World, actions: seq<Action>, interval: U64)
    requires Inv(w, interval) && AllTolerated(w, actions, interval)
    ensures SeededAbove(w, actions, interval)
    decreases |actions|
  {
    hide Inv, Seed;
    if actions != [] {
      if Boots(w, actions[0], interval) {
        ToleratedBootIsSeeded(w, actions[0], interval);
      }
      StepKeepsInv(w, actions[0], interval);
      ToleratedRunIsSeeded(Step(w, actions[0], interval), actions[1..], interval);
    }
  }

  lemma ToleratedBootIsSeeded(w: World, a: Action, interval: U64)
    requires Inv(w, interval) && Tolerated(w, a, interval) && Boots(w, a, interval)
    ensures AtMost(w.issued, Seed(w, a, interval))
  {
    BootSeedsAbove(w, a, interval);
  }

  /** A run within the flush bound whose only fault is a clock that is set back during the last boot. */
  function BackwardRun(): seq<Action> {
    [Boot(11, 11), Issue(20), FlushRead, FlushWrite(true), Issue(30), Issue(30), Crash, Boot(31, 30)]
  }

  function BeforeCrash(): World {
    World(20, Up(FromParts(30, 1), None), [FromParts(20, 0), FromParts(30, 0), FromParts(30, 1)])
  }

  lemma LastTwo()
    ensures var crashed := BeforeCrash().(process := Down);
            && Tolerated(BeforeCrash(), Crash, 10) && Step(BeforeCrash(), Crash, 10) == crashed
            && Boots(crashed, Boot(31, 30), 10) && !AtMost(crashed.issued, Seed(crashed, Boot(31, 30), 10))
  {
    var crashed := BeforeCrash().(process := Down);
    assert crashed.issued[2] > Seed(crashed, Boot(31, 30), 10);
  }

  lemma BackwardRunRepeats()
    ensures AllTolerated(World(0, Down, []), BackwardRun()[..7], 10)
    ensures !NeverRepeats(World(0, Down, []), BackwardRun(), 10)
  {
    var w0, r := World(0, Down, []), BackwardRun();
    FirstSix();
    LastTwo();
    assert r[..7] == r[..6] + [Crash] && r == r[..7] + [Boot(31, 30)];
    assert CallsBelowLimit(r);
    hide Tolerated, Step, Boots, Seed, AtMost, NeverRepeats, AllTolerated, SeededAbove, BackwardRun, BeforeCrash;
    ToleratedAppend(w0, r[..6], Crash, 10);
    RunOfBoth(w0, r[..6], [Crash], 10);
    RunOfOne(BeforeCrash(), Crash, 10);
    if SeededAbove(w0, r, 10) {
      SeededAppend(w0, r[..7], Boot(31, 30), 10);
    }
    NeverRepeatsIff(0, r, 10);
  }

  lemma RunOfOne(w: World, a: Action, interval: U64)
    ensures Run(w, [a], interval) == Step(w, a, interval)
  {
    assert [a][1..] == [];
  }

  lemma {:induction false} ToleratedAppend(w: World, actions: seq<Action>, a: Action, interval: U64)
    requires AllTolerated(w, actions, interval) && Tolerated(Run(w, actions, interval), a, interval)
    ensures AllTolerated(w, actions + [a], interval)
    decreases |actions|
  {
    hide Tolerated, Step;
    if actions == [] {
      assert [] + [a] == [a] && [a][1..] == [];
    } else {
      assert (actions + [a])[1..] == actions[1..] + [a];
      ToleratedAppend(Step(w, actions[0], interval), actions[1..], a, interval);
    }
  }

  lemma {:induction false} SeededAppend(w: World, actions: seq<Action>, a: Action, interval: U64)
    requires SeededAbove(w, actions + [a], interval) && Boots(Run(w, actions, interval), a, interval)
    ensures AtMost(Run(w, actions, interval).issued, Seed(Run(w, actions, interval), a, interval))
    decreases |actions|
  {
    hide Step, Seed, AtMost;
    if actions != [] {
      assert (actions + [a])[1..] == actions[1..] + [a];
      SeededAppend(Step(w, actions[0], interval), actions[1..], a, interval);
    }
  }

  lemma FirstSix()
    ensures var w0, r := World(0, Down, []), BackwardRun()[..6];
            && AllTolerated(w0, r, 10)
            && Run(w0, r, 10) == BeforeCrash()
  {
    var w0, r := World(0, Down, []), BackwardRun()[..6];
    var w1 := Step(w0, r[0], 10);
    var w2 := Step(w1, r[1], 10);
    var w3 := Step(w2, r[2], 10);
    var w4 := Step(w3, r[3], 10);
    var w5 := Step(w4, r[4], 10);
    var w6 := Step(w5, r[5], 10);
    assert r[1..][1..][1..][1..][1..] == [r[5]] && r[1..][1..][1..][1..] == [r[4], r[5]];
    assert r[1..][1..][1..] == [r[3], r[4], r[5]] && r[1..][1..] == [r[2], r[3], r[4], r[5]];
    assert Run(w0, r, 10) == Run(w1, r[1..], 10) == Run(w2, r[1..][1..], 10) == Run(w3, r[1..][1..][1..], 10);
    assert Run(w3, [r[3], r[4], r[5]], 10) == Run(w4, [r[4], r[5]], 10) == Run(w5, [r[5]], 10) == w6;
    assert AllTolerated(w5, [r[5]], 10) && AllTolerated(w4, [r[4], r[5]], 10);
    assert AllTolerated(w3, [r[3], r[4], r[5]], 10) && AllTolerated(w2, [r[2], r[3], r[4], r[5]], 10);
  }
}
