/** The replay cache against the history of its calls: what it holds and answers, said without it. */
module NonceHistory {
  import opened Core
  import opened Tso
  import opened NonceStore

  datatype Call = Call(key: NonceKey, ts: U64)

  // ----- The history alone -----------------------------------------------------------------------

  /** No call after `i` and before `upto` carried a timestamp more than the horizon above call `i`'s. */
  predicate Survives(calls: seq<Call>, horizonMs: nat, i: nat, upto: nat)
    requires i < |calls| && upto <= |calls|
  {
    forall m :: i < m < upto ==> !Expires(calls[m].ts, calls[i].ts, horizonMs)
  }

  /** One of the calls in `live` has key `k`. */
  ghost predicate Names(calls: seq<Call>, live: set<nat>, k: NonceKey) {
    exists i :: i in live && i < |calls| && calls[i].key == k
  }

  /** The calls before `n` that were accepted and that survive the calls before `upto`. */
  ghost function Live(calls: seq<Call>, capacity: nat, horizonMs: nat, n: nat, upto: nat): set<nat>
    requires n <= upto <= |calls|
    decreases n, 0
  {
    set i: nat | i < n && Answer(calls, capacity, horizonMs, i) == Accepted
                 && Survives(calls, horizonMs, i, upto)
  }

  /** The answer to call `n`, from the calls before it and its own timestamp. */
  ghost function Answer(calls: seq<Call>, capacity: nat, horizonMs: nat, n: nat): Verdict
    requires n < |calls|
    decreases n, 1
  {
    var live := Live(calls, capacity, horizonMs, n, n + 1);
    if Names(calls, live, calls[n].key) then Replay
    else if |live| >= capacity then Capacity
    else Accepted
  }

  // ----- The store -------------------------------------------------------------------------------

  /** The verdicts and the cache after the first `n` calls. */
  function RunStore(calls: seq<Call>, capacity: nat, horizonMs: nat, n: nat)
    : (r: (seq<Verdict>, map<NonceKey, U64>))
    requires n <= |calls|
    ensures |r.0| == n
  {
    if n == 0 then ([], map[])
    else
      var (verdicts, m) := RunStore(calls, capacity, horizonMs, n - 1);
      var (v, m') := RecordSpec(m, capacity, horizonMs, calls[n - 1].key, calls[n - 1].ts);
      (verdicts + [v], m')
  }

  ghost predicate OneEach(calls: seq<Call>, live: set<nat>) {
    forall i, j :: i in live && j in live && i < |calls| && j < |calls| && calls[i].key == calls[j].key ==> i == j
  }

  ghost predicate Cached(m: map<NonceKey, U64>, calls: seq<Call>, i: nat) {
    i < |calls| && calls[i].key in m && m[calls[i].key] == calls[i].ts
  }

  /** The cache holds exactly the calls in `live`, one entry each. */
  ghost predicate Holds(m: map<NonceKey, U64>, calls: seq<Call>, live: set<nat>) {
    && (forall i :: i in live ==> Cached(m, calls, i))
    && (forall k :: k in m ==> Names(calls, live, k))
    && OneEach(calls, live)
    && |m| == |live|
  }

  lemma {:induction false} SameSize(m: map<NonceKey, U64>, calls: seq<Call>, live: set<nat>)
    requires forall i :: i in live ==> Cached(m, calls, i)
    requires forall k :: k in m ==> Names(calls, live, k)
    requires OneEach(calls, live)
    ensures |m| == |live|
  {
    if live == {} {
      assert m.Keys == {};
    } else {
      var i :| i in live;
      assert Cached(m, calls, i);
      var rest := m - {calls[i].key};
      forall j | j in live - {i} ensures Cached(rest, calls, j) {
        assert Cached(m, calls, j);
      }
      forall k | k in rest ensures Names(calls, live - {i}, k) {
        var j :| j in live && j < |calls| && calls[j].key == k;
        assert j in live - {i};
      }
      SameSize(rest, calls, live - {i});
      assert m.Keys == rest.Keys + {calls[i].key};
    }
  }

  lemma Restrict(m: map<NonceKey, U64>, calls: seq<Call>, before: set<nat>, live: set<nat>, now: U64, horizonMs: nat)
    requires Holds(m, calls, before)
    requires forall i :: i in before ==> i < |calls|
    requires forall i :: i in live <==> i in before && !Expires(now, calls[i].ts, horizonMs)
    ensures Holds(Unexpired(m, now, horizonMs), calls, live)
  {
    hide Expires;
    var left := Unexpired(m, now, horizonMs);
    forall i | i in live ensures Cached(left, calls, i) {
      assert Cached(m, calls, i);
    }
    forall k | k in left ensures Names(calls, live, k) {
      assert Names(calls, before, k);
      var i :| i in before && i < |calls| && calls[i].key == k;
      assert Cached(m, calls, i);
      assert i in live;
    }
    SameSize(left, calls, live);
  }

  lemma Extend(m: map<NonceKey, U64>, calls: seq<Call>, live: set<nat>, n: nat)
    requires n < |calls| && n !in live && calls[n].key !in m
    requires Holds(m, calls, live)
    ensures Holds(m[calls[n].key := calls[n].ts], calls, live + {n})
  {
    var m' := m[calls[n].key := calls[n].ts];
    forall i | i in live + {n} ensures Cached(m', calls, i) {
      if i != n {
        assert Cached(m, calls, i);
      }
    }
    forall k | k in m' ensures Names(calls, live + {n}, k) {
      if k in m {
        assert Names(calls, live, k);
        var i :| i in live && i < |calls| && calls[i].key == k;
        assert i in live + {n};
      } else {
        assert n in live + {n};
      }
    }
    ExtendOneEach(m, calls, live, n);
    hide OneEach, Names;
    SameSize(m', calls, live + {n});
  }

  lemma ExtendOneEach(m: map<NonceKey, U64>, calls: seq<Call>, live: set<nat>, n: nat)
    requires n < |calls| && n !in live && calls[n].key !in m
    requires Holds(m, calls, live)
    ensures OneEach(calls, live + {n})
  {
    hide Names;
    forall i | i in live ensures i < |calls| && calls[i].key != calls[n].key {
      assert Cached(m, calls, i);
    }
  }

  /** Evicting for call `n` leaves the entries that survive it. */
  lemma EvictionKeepsLive(m: map<NonceKey, U64>, calls: seq<Call>, capacity: nat, horizonMs: nat, n: nat)
    requires n < |calls|
    requires Holds(m, calls, Live(calls, capacity, horizonMs, n, n))
    ensures Holds(Unexpired(m, calls[n].ts, horizonMs), calls, Live(calls, capacity, horizonMs, n, n + 1))
  {
    hide Expires, Answer, Holds, Unexpired;
    var before := Live(calls, capacity, horizonMs, n, n);
    var live := Live(calls, capacity, horizonMs, n, n + 1);
    forall i: nat ensures i in live <==> i in before && !Expires(calls[n].ts, calls[i].ts, horizonMs) {
      if i < n {
        SurvivesOneMore(calls, horizonMs, i, n);
      }
    }
    Restrict(m, calls, before, live, calls[n].ts, horizonMs);
  }

  lemma SurvivesOneMore(calls: seq<Call>, horizonMs: nat, i: nat, n: nat)
    requires i < n < |calls|
    ensures Survives(calls, horizonMs, i, n + 1) <==>
            Survives(calls, horizonMs, i, n) && !Expires(calls[n].ts, calls[i].ts, horizonMs)
  {
    hide Expires;
  }

  lemma NextLive(calls: seq<Call>, capacity: nat, horizonMs: nat, n: nat)
    requires n < |calls|
    ensures Live(calls, capacity, horizonMs, n + 1, n + 1)
         == Live(calls, capacity, horizonMs, n, n + 1)
            + if Answer(calls, capacity, horizonMs, n) == Accepted then {n} else {}
    ensures n !in Live(calls, capacity, horizonMs, n, n + 1)
  {
    hide Expires, Answer;
    assert Survives(calls, horizonMs, n, n + 1);
  }

  /** Recording call `n` answers as the history says and adds exactly the accepted call. */
  lemma RecordKeepsLive(m: map<NonceKey, U64>, calls: seq<Call>, capacity: nat, horizonMs: nat, n: nat)
    requires n < |calls|
    requires Holds(Unexpired(m, calls[n].ts, horizonMs), calls, Live(calls, capacity, horizonMs, n, n + 1))
    ensures RecordSpec(m, capacity, horizonMs, calls[n].key, calls[n].ts).0 == Answer(calls, capacity, horizonMs, n)
    ensures Holds(RecordSpec(m, capacity, horizonMs, calls[n].key, calls[n].ts).1, calls,
                  Live(calls, capacity, horizonMs, n + 1, n + 1))
  {
    hide Expires, Unexpired, Holds, Live, Names;
    var left := Unexpired(m, calls[n].ts, horizonMs);
    var live := Live(calls, capacity, horizonMs, n, n + 1);
    HoldsNames(left, calls, live, calls[n].key);
    NextLive(calls, capacity, horizonMs, n);
    if Answer(calls, capacity, horizonMs, n) == Accepted {
      Extend(left, calls, live, n);
    } else {
      assert live + {} == live;
    }
  }

  lemma HoldsNames(m: map<NonceKey, U64>, calls: seq<Call>, live: set<nat>, key: NonceKey)
    requires Holds(m, calls, live)
    ensures Names(calls, live, key) <==> key in m
    ensures |m| == |live|
  {
    if Names(calls, live, key) {
      var i :| i in live && i < |calls| && calls[i].key == key;
      assert Cached(m, calls, i);
    }
  }

  lemma {:induction false} SubsetSize<T>(a: set<T>, b: set<T>)
    requires a <= b
    ensures |a| <= |b|
  {
    if a != {} {
      var x :| x in a;
      SubsetSize(a - {x}, b - {x});
    }
  }

  lemma RecordStaysBounded(m: map<NonceKey, U64>, capacity: nat, horizonMs: nat, key: NonceKey, ts: U64)
    requires |m| <= capacity
    ensures |RecordSpec(m, capacity, horizonMs, key, ts).1| <= capacity
  {
    var left := Unexpired(m, ts, horizonMs);
    SubsetSize(left.Keys, m.Keys);
    assert left[key := ts].Keys == left.Keys + {key};
  }

  /** After every prefix of every history the store has given the answers of the history and holds
      the calls that the history keeps alive, never more than its capacity. */
  lemma {:induction false} StoreRefinesHistory(calls: seq<Call>, capacity: nat, horizonMs: nat, n: nat)
    requires n <= |calls|
    ensures Holds(RunStore(calls, capacity, horizonMs, n).1, calls, Live(calls, capacity, horizonMs, n, n))
    ensures |RunStore(calls, capacity, horizonMs, n).1| <= capacity
    ensures forall i :: 0 <= i < n ==>
              RunStore(calls, capacity, horizonMs, n).0[i] == Answer(calls, capacity, horizonMs, i)
  {
    hide Holds, Live, Answer, RecordSpec, Unexpired, Survives;
    if n == 0 {
      EmptyHolds(calls, capacity, horizonMs);
    } else {
      StoreRefinesHistory(calls, capacity, horizonMs, n - 1);
      var m := RunStore(calls, capacity, horizonMs, n - 1).1;
      EvictionKeepsLive(m, calls, capacity, horizonMs, n - 1);
      RecordKeepsLive(m, calls, capacity, horizonMs, n - 1);
      RecordStaysBounded(m, capacity, horizonMs, calls[n - 1].key, calls[n - 1].ts);
    }
  }

  lemma EmptyHolds(calls: seq<Call>, capacity: nat, horizonMs: nat)
    ensures Holds(map[], calls, Live(calls, capacity, horizonMs, 0, 0))
  {
    assert Live(calls, capacity, horizonMs, 0, 0) == {};
  }
}
