/** `InProcessTso::issue` called from any number of threads: clock read, load and compare-exchange
    interleave, and the clock may run backwards. */
module TsoIssue {
  import opened Core
  import opened Tso

  type ThreadId = nat

  /** Where a thread is inside `issue`. The last fields count for the proofs: the length of the log
      at the clock read and at the load, and the compare-exchanges this call has lost. */
  datatype Thread =
    | Reading(wall: U64, startedAt: nat, lost: nat)
    | Loaded(wall: U64, prev: U64, startedAt: nat, loadedAt: nat, lost: nat)

  datatype Issued = Issued(thread: ThreadId, ts: U64, startedAt: nat)

  /** `last` is the shared atomic, `first` its initial value, `log` the successes in order. */
  datatype State = State(first: U64, last: U64, running: map<ThreadId, Thread>, log: seq<Issued>)

  datatype Action =
    | ReadClock(t: ThreadId, wall: U64)
    | Load(t: ThreadId)
    | CompareExchange(t: ThreadId)

  predicate BelowLimit(a: Action) {
    a.ReadClock? ==> a.wall < PHYSICAL_LIMIT
  }

  /** One atomic step; an action that is not enabled changes nothing. The attempt that finds the
      counter used up returns an error instead of a timestamp. */
  function Step(s: State, a: Action): State {
    match a
    case ReadClock(t, wall) =>
      if t in s.running then s else s.(running := s.running[t := Reading(wall, |s.log|, 0)])
    case Load(t) =>
      if t !in s.running || !s.running[t].Reading? then s
      else
        var r := s.running[t];
        s.(running := s.running[t := Loaded(r.wall, s.last, r.startedAt, |s.log|, r.lost)])
    case CompareExchange(t) =>
      if t !in s.running || !s.running[t].Loaded? then s
      else
        var r := s.running[t];
        match Advance(r.prev, r.wall)
        case None => s.(running := s.running - {t})
        case Some(next) =>
          if s.last == r.prev
          then s.(last := next, running := s.running - {t}, log := s.log + [Issued(t, next, r.startedAt)])
          else s.(running := s.running[t := Reading(r.wall, r.startedAt, r.lost + 1)])
  }

  function Run(s: State, actions: seq<Action>): State
    decreases |actions|
  {
    if actions == [] then s else Run(Step(s, actions[0]), actions[1..])
  }

  /** The value of the shared word after the first `n` successes. */
  function WordAfter(s: State, n: nat): U64
    requires n <= |s.log|
  {
    if n == 0 then s.first else s.log[n - 1].ts
  }

  ghost predicate Increasing(s: State) {
    && (forall i :: 0 <= i < |s.log| ==> s.first < s.log[i].ts && s.log[i].startedAt <= i)
    && (forall i, j :: 0 <= i < j < |s.log| ==> s.log[i].ts < s.log[j].ts)
  }

  /** No success from `from` on is by thread `t`. */
  ghost predicate OnlyOthersSince(s: State, t: ThreadId, from: nat) {
    forall i :: from <= i < |s.log| ==> s.log[i].thread != t
  }

  ghost predicate ThreadOk(s: State, t: ThreadId, r: Thread) {
    && r.wall < PHYSICAL_LIMIT
    && r.startedAt + r.lost <= |s.log|
    && OnlyOthersSince(s, t, r.startedAt)
    && (r.Loaded? ==> r.startedAt + r.lost <= r.loadedAt <= |s.log| && r.prev == WordAfter(s, r.loadedAt))
  }

  ghost predicate Inv(s: State) {
    && Increasing(s)
    && s.last == WordAfter(s, |s.log|)
    && (forall t :: t in s.running ==> ThreadOk(s, t, s.running[t]))
  }

  /** The word differs from what a thread loaded exactly when another success came in between: no value returns. */
  lemma WordUnchangedIff(s: State, n: nat)
    requires Inv(s) && n <= |s.log|
    ensures s.last == WordAfter(s, n) <==> n == |s.log|
  {
  }

  /** A compare-exchange succeeds exactly when no other thread has succeeded since the load. */
  lemma ExchangeSucceedsIff(s: State, t: ThreadId)
    requires Inv(s) && t in s.running && s.running[t].Loaded?
    requires Advance(s.running[t].prev, s.running[t].wall).Some?
    ensures |Step(s, CompareExchange(t)).log| == |s.log| + 1 <==> s.running[t].loadedAt == |s.log|
  {
    WordUnchangedIff(s, s.running[t].loadedAt);
  }

  /** A success appends a larger timestamp; the calls still running keep what they know. */
  lemma SuccessKeepsInv(s: State, t: ThreadId, next: U64)
    requires Inv(s) && t in s.running && next > s.last
    ensures Inv(s.(last := next, running := s.running - {t},
                   log := s.log + [Issued(t, next, s.running[t].startedAt)]))
  {
    var s' := s.(last := next, running := s.running - {t},
                 log := s.log + [Issued(t, next, s.running[t].startedAt)]);
    assert Increasing(s') by {
      assert |s.log| > 0 ==> s.log[|s.log| - 1].ts == s.last;
    }
    forall u | u in s'.running ensures ThreadOk(s', u, s'.running[u]) {
      assert ThreadOk(s, u, s.running[u]);
      if s'.running[u].Loaded? {
        assert WordAfter(s', s'.running[u].loadedAt) == WordAfter(s, s'.running[u].loadedAt);
      }
    }
  }

  lemma ReplaceKeepsInv(s: State, t: ThreadId, r: Thread)
    requires Inv(s) && ThreadOk(s, t, r)
    ensures Inv(s.(running := s.running[t := r]))
  {
    var s' := s.(running := s.running[t := r]);
    forall u | u in s'.running ensures ThreadOk(s', u, s'.running[u]) {
      assert ThreadOk(s, u, s'.running[u]);
    }
  }

  lemma StepKeepsInv(s: State, a: Action)
    requires Inv(s) && BelowLimit(a)
    ensures Inv(Step(s, a))
  {
    match a
    case ReadClock(t, wall) =>
      ReplaceKeepsInv(s, t, Reading(wall, |s.log|, 0));
    case Load(t) =>
      if t in s.running && s.running[t].Reading? {
        var r := s.running[t];
        assert ThreadOk(s, t, r);
        ReplaceKeepsInv(s, t, Loaded(r.wall, s.last, r.startedAt, |s.log|, r.lost));
      }
    case CompareExchange(t) =>
      if t in s.running && s.running[t].Loaded? {
        var r := s.running[t];
        assert ThreadOk(s, t, r);
        AdvanceIsLeast(r.prev, r.wall);
        hide Advance;
        if Advance(r.prev, r.wall).None? {
          assert forall u :: u in s.running && u != t ==> ThreadOk(s, u, s.running[u]);
          var s' := Step(s, a);
          forall u | u in s'.running ensures ThreadOk(s', u, s'.running[u]) {
            assert ThreadOk(s, u, s.running[u]);
          }
        } else if s.last == r.prev {
          SuccessKeepsInv(s, t, Advance(r.prev, r.wall).value);
        } else {
          WordUnchangedIff(s, r.loadedAt);
          ReplaceKeepsInv(s, t, Reading(r.wall, r.startedAt, r.lost + 1));
        }
      }
  }

  lemma {:induction false} RunKeepsInv(s: State, actions: seq<Action>)
    requires Inv(s) && forall a :: a in actions ==> BelowLimit(a)
    ensures Inv(Run(s, actions))
    decreases |actions|
  {
    if actions != [] {
      StepKeepsInv(s, actions[0]);
      RunKeepsInv(Step(s, actions[0]), actions[1..]);
    }
  }

  function Fresh(first: U64): State {
    State(first, first, map[], [])
  }

  /**
   For any number of threads and any clock below 2^46 ms, backward steps included: issued timestamps
   strictly increase in the order of the successful exchanges, all above the initial word; a call
   that begins after another returned gets the larger timestamp; and a call in progress has lost at
   most as many exchanges as other threads have won since it began.
   */
  lemma IssueIsMonotoneAndLockFree(first: U64, actions: seq<Action>, i: nat, j: nat, t: ThreadId)
    requires forall a :: a in actions ==> BelowLimit(a)
    ensures var s := Run(Fresh(first), actions);
            && (i < j < |s.log| ==> first < s.log[i].ts < s.log[j].ts)
            && (j < |s.log| && i < s.log[j].startedAt ==> i < j && s.log[i].ts < s.log[j].ts)
            && (t in s.running ==>
                  && s.running[t].startedAt + s.running[t].lost <= |s.log|
                  && OnlyOthersSince(s, t, s.running[t].startedAt))
  {
    RunKeepsInv(Fresh(first), actions);
    var s := Run(Fresh(first), actions);
    RunKeepsFirst(Fresh(first), actions);
    assert Increasing(s);
    if t in s.running {
      assert ThreadOk(s, t, s.running[t]);
    }
  }

  lemma {:induction false} RunKeepsFirst(s: State, actions: seq<Action>)
    ensures Run(s, actions).first == s.first
    decreases |actions|
  {
    if actions != [] {
      RunKeepsFirst(Step(s, actions[0]), actions[1..]);
    }
  }
}
