/** Timestamp window and replay cache together: when can one signed request be accepted twice? */
module ReplayProtection {
  import opened Core
  import opened Tso
  import opened TsoProcess
  import opened NonceStore

  /** Capacity and horizon of the cache; horizon and forward slack of the time source. */
  datatype Guard = Guard(capacity: nat, nonceHorizon: nat, timeHorizon: U64, slack: U64)

  /** One authentication when the time source reads `now`; `good` says that key, algorithm and signature
      passed. */
  datatype Attempt = Attempt(key: NonceKey, ts: U64, now: U64, good: bool)

  /** The time source accepts `ts` when it reads `now`. */
  predicate InWindow(g: Guard, now: U64, ts: U64) {
    PhysicalMs(ts) <= now + g.slack && now - PhysicalMs(ts) <= g.timeHorizon
  }

  /** The oracle is a window without slack around the later of wall clock and last issued timestamp. */
  lemma OracleIsWindow(g: Guard, last: U64, wall: U64, ts: U64)
    requires g.slack == 0
    ensures ValidateTso(last, wall, g.timeHorizon, ts).Ok? <==> InWindow(g, Max(wall, PhysicalMs(last)), ts)
  {
  }

  /** The local clock is a window whose slack is its horizon; saturation never matters. */
  lemma LocalClockIsWindow(g: Guard, wall: U64, ts: U64)
    requires g.slack == g.timeHorizon
    ensures ValidateLocal(wall, g.timeHorizon, ts).Ok? <==> InWindow(g, wall, ts)
  {
    assert PhysicalMs(ts) < U64_LIMIT - 1;
  }

  /** Validate, then record; what fails earlier does not reach the cache. */
  function Admit(g: Guard, m: map<NonceKey, U64>, a: Attempt): (bool, map<NonceKey, U64>) {
    if a.good && InWindow(g, a.now, a.ts) then
      var (v, m') := RecordSpec(m, g.capacity, g.nonceHorizon, a.key, a.ts);
      (v == Accepted, m')
    else (false, m)
  }

  function CacheBefore(g: Guard, run: seq<Attempt>, n: nat): map<NonceKey, U64>
    requires n <= |run|
  {
    if n == 0 then map[] else Admit(g, CacheBefore(g, run, n - 1), run[n - 1]).1
  }

  predicate AcceptedAt(g: Guard, run: seq<Attempt>, i: nat)
    requires i < |run|
  {
    Admit(g, CacheBefore(g, run, i), run[i]).0
  }

  predicate ClockNeverGoesBack(run: seq<Attempt>) {
    forall i, j :: 0 <= i <= j < |run| ==> run[i].now <= run[j].now
  }

  // ----- Safety ------------------------------------------------------------------------------------

  /** How far apart two timestamps inside the window at one moment can be. */
  function Spread(g: Guard): nat {
    if g.timeHorizon + g.slack < PHYSICAL_LIMIT then g.timeHorizon + g.slack else PHYSICAL_LIMIT - 1
  }

  /** What keeps an accepted attempt from coming back: its key is cached at a timestamp no earlier, or
      it is too old for the window. A cache of one entry keeps the latest timestamp instead. */
  predicate Remembered(g: Guard, m: map<NonceKey, U64>, now: U64, a: Attempt) {
    if g.capacity == 1 then exists k :: k in m && m.Keys == {k} && PhysicalMs(a.ts) <= PhysicalMs(m[k])
    else (a.key in m && PhysicalMs(a.ts) <= PhysicalMs(m[a.key])) || now - PhysicalMs(a.ts) > g.timeHorizon
  }

  lemma PhysicalIsSmall(ts: U64)
    ensures PhysicalMs(ts) < PHYSICAL_LIMIT
  {
  }

  lemma WideStep(g: Guard, m: map<NonceKey, U64>, earlier: U64, first: Attempt, a: Attempt)
    requires g.capacity > 1 && g.nonceHorizon >= Spread(g)
    requires earlier <= a.now && Remembered(g, m, earlier, first)
    ensures Remembered(g, Admit(g, m, a).1, a.now, first)
    ensures Admit(g, m, a).0 && a.key == first.key ==> PhysicalMs(a.ts) > PhysicalMs(first.ts)
  {
    PhysicalIsSmall(a.ts);
    hide PhysicalMs;
  }

  lemma SingleStep(g: Guard, m: map<NonceKey, U64>, earlier: U64, first: Attempt, a: Attempt)
    requires g.capacity == 1
    requires Remembered(g, m, earlier, first)
    ensures Remembered(g, Admit(g, m, a).1, a.now, first)
    ensures Admit(g, m, a).0 ==> PhysicalMs(a.ts) > PhysicalMs(first.ts)
  {
    hide PhysicalMs;
    var k :| k in m && m.Keys == {k} && PhysicalMs(first.ts) <= PhysicalMs(m[k]);
    var left := Unexpired(m, a.ts, g.nonceHorizon);
    if a.good && InWindow(g, a.now, a.ts) {
      if k in left {
        assert left.Keys == {k};
      } else {
        assert left.Keys == {};
        assert left[a.key := a.ts].Keys == {a.key};
      }
    }
  }

  lemma Enter(g: Guard, m: map<NonceKey, U64>, a: Attempt)
    requires g.capacity >= 1 && Admit(g, m, a).0
    ensures Remembered(g, Admit(g, m, a).1, a.now, a)
  {
    var left := Unexpired(m, a.ts, g.nonceHorizon);
    if g.capacity == 1 {
      assert left.Keys == {};
      assert left[a.key := a.ts].Keys == {a.key};
    }
  }

  lemma {:induction false} StaysRemembered(g: Guard, run: seq<Attempt>, i: nat, n: nat)
    requires i < n <= |run| && ClockNeverGoesBack(run) && g.capacity >= 1
    requires g.capacity == 1 || g.nonceHorizon >= Spread(g)
    requires AcceptedAt(g, run, i)
    ensures Remembered(g, CacheBefore(g, run, n), run[n - 1].now, run[i])
  {
    hide Remembered, Admit;
    if n == i + 1 {
      Enter(g, CacheBefore(g, run, i), run[i]);
    } else {
      StaysRemembered(g, run, i, n - 1);
      if g.capacity == 1 {
        SingleStep(g, CacheBefore(g, run, n - 1), run[n - 2].now, run[i], run[n - 1]);
      } else {
        WideStep(g, CacheBefore(g, run, n - 1), run[n - 2].now, run[i], run[n - 1]);
      }
    }
  }

  /** In every run on a clock that never goes back, a key and nonce accepted again carries a later
      millisecond, although eviction uses the request's own timestamp. */
  lemma AcceptedAgainIsLater(g: Guard, run: seq<Attempt>, i: nat, j: nat)
    requires i < j < |run| && ClockNeverGoesBack(run) && g.capacity >= 1
    requires g.capacity == 1 || g.nonceHorizon >= Spread(g)
    requires AcceptedAt(g, run, i) && AcceptedAt(g, run, j) && run[i].key == run[j].key
    ensures PhysicalMs(run[j].ts) > PhysicalMs(run[i].ts)
  {
    hide Remembered, Admit;
    StaysRemembered(g, run, i, j);
    if g.capacity == 1 {
      SingleStep(g, CacheBefore(g, run, j), run[j - 1].now, run[i], run[j]);
    } else {
      WideStep(g, CacheBefore(g, run, j), run[j - 1].now, run[i], run[j]);
    }
  }

  // ----- The exact condition -----------------------------------------------------------------------

  predicate AcceptsTwice(g: Guard, run: seq<Attempt>, i: nat, j: nat) {
    && i < j < |run| && AcceptedAt(g, run, i) && AcceptedAt(g, run, j)
    && run[i].key == run[j].key && run[i].ts == run[j].ts
  }

  /** No run on a clock that never goes back accepts the same key, nonce and timestamp twice. */
  ghost predicate ReplaySafe(g: Guard) {
    forall run, i, j :: ClockNeverGoesBack(run) ==> !AcceptsTwice(g, run, i, j)
  }

  function Witness(g: Guard): seq<Attempt> {
    var victim := Attempt(NonceKey(0, [0]), 0, g.timeHorizon, true);
    [victim, Attempt(NonceKey(0, [1]), FromParts(Spread(g), 0), g.timeHorizon, true), victim]
  }

  lemma AdmitIntoSingle(g: Guard, k: NonceKey, kept: U64, a: Attempt)
    requires g.capacity > 1 && a.key != k && a.good && InWindow(g, a.now, a.ts)
    ensures var left := if Expires(a.ts, kept, g.nonceHorizon) then map[] else map[k := kept];
            Admit(g, map[k := kept], a) == (true, left[a.key := a.ts])
  {
    hide InWindow, Expires;
    var m := map[k := kept];
    var left := if Expires(a.ts, kept, g.nonceHorizon) then map[] else m;
    assert Unexpired(m, a.ts, g.nonceHorizon) == left;
    assert |left| <= 1;
  }

  lemma AdmitIntoEmpty(g: Guard, a: Attempt)
    requires g.capacity >= 1 && a.good && InWindow(g, a.now, a.ts)
    ensures Admit(g, map[], a) == (true, map[a.key := a.ts])
  {
    hide InWindow;
    assert Unexpired(map[], a.ts, g.nonceHorizon) == map[];
  }

  lemma WitnessTimes(g: Guard)
    requires g.nonceHorizon < Spread(g)
    ensures var newest := FromParts(Spread(g), 0);
            && Expires(newest, 0, g.nonceHorizon) && !Expires(0, newest, g.nonceHorizon)
            && InWindow(g, g.timeHorizon, 0) && InWindow(g, g.timeHorizon, newest)
  {
    PartsOfComposed(Spread(g), 0);
  }

  /** A request with the newest timestamp the window allows evicts one with the oldest, which is then
      accepted again at the same moment. */
  lemma ShortNonceHorizonReplays(g: Guard)
    requires g.capacity > 1 && g.nonceHorizon < Spread(g)
    ensures ClockNeverGoesBack(Witness(g)) && AcceptsTwice(g, Witness(g), 0, 2)
  {
    hide InWindow, Expires, Admit, FromParts, PhysicalMs, Spread;
    var run := Witness(g);
    WitnessTimes(g);
    AdmitIntoEmpty(g, run[0]);
    assert CacheBefore(g, run, 1) == map[run[0].key := run[0].ts];
    AdmitIntoSingle(g, run[0].key, run[0].ts, run[1]);
    assert CacheBefore(g, run, 2) == map[run[1].key := run[1].ts];
    AdmitIntoSingle(g, run[1].key, run[1].ts, run[2]);
  }

  /** Exactly the configurations that are safe: a nonce horizon that covers the whole window, or a
      cache of a single entry. */
  lemma ReplaySafeIff(g: Guard)
    requires g.capacity >= 1
    ensures ReplaySafe(g) <==> g.nonceHorizon >= Spread(g) || g.capacity == 1
  {
    if g.nonceHorizon >= Spread(g) || g.capacity == 1 {
      forall run, i, j | ClockNeverGoesBack(run) ensures !AcceptsTwice(g, run, i, j) {
        if AcceptsTwice(g, run, i, j) {
          AcceptedAgainIsLater(g, run, i, j);
        }
      }
    } else {
      ShortNonceHorizonReplays(g);
    }
  }
}
