/** One process's timestamp oracle as an object over the persisted high-water mark. */
module TsoProcess {
  import opened Core
  import opened Tso

  /** `u64::saturating_add`. */
  function SaturatingAdd(a: U64, b: U64): U64 {
    if a + b < U64_LIMIT then a + b else U64_LIMIT - 1
  }

  function SaturatingSub(a: nat, b: nat): nat {
    if a >= b then a - b else 0
  }

  function Max(a: U64, b: U64): U64 {
    if a >= b then a else b
  }

  datatype TimeError = OutsideHorizon | NonMonotonic

  /** A timestamp is accepted when it is not ahead of the oracle and at most `horizonMs` behind it. */
  function ValidateTso(last: U64, wall: U64, horizonMs: U64, ts: U64): Result<(), TimeError> {
    var now := Max(wall, PhysicalMs(last));
    if PhysicalMs(ts) > now then Err(NonMonotonic)
    else if SaturatingSub(now, PhysicalMs(ts)) > horizonMs then Err(OutsideHorizon)
    else Ok(())
  }

  /** The wall-clock source: up to one horizon ahead is accepted too. */
  function ValidateLocal(wall: U64, horizonMs: U64, ts: U64): Result<(), TimeError> {
    if PhysicalMs(ts) > SaturatingAdd(wall, horizonMs) then Err(NonMonotonic)
    else if SaturatingSub(wall, PhysicalMs(ts)) > horizonMs then Err(OutsideHorizon)
    else Ok(())
  }

  /** The word after other threads' calls, one per clock reading; a call that fails changes nothing. */
  function RivalWord(last: U64, rivals: seq<U64>): U64 {
    if rivals == [] then last
    else
      var before := RivalWord(last, rivals[..|rivals| - 1]);
      Advance(before, rivals[|rivals| - 1]).GetOr(before)
  }

  /** The word after several groups of such calls. */
  function WordAfter(last: U64, groups: seq<seq<U64>>): U64 {
    if groups == [] then last else RivalWord(WordAfter(last, groups[..|groups| - 1]), groups[|groups| - 1])
  }

  predicate BelowLimit(walls: seq<U64>) {
    forall i :: 0 <= i < |walls| ==> walls[i] < PHYSICAL_LIMIT
  }

  /** Other threads only move the word forward. */
  lemma {:induction false} RivalsMoveForward(last: U64, rivals: seq<U64>)
    requires BelowLimit(rivals)
    ensures RivalWord(last, rivals) >= last
  {
    if rivals != [] {
      RivalsMoveForward(last, rivals[..|rivals| - 1]);
      AdvanceIsLeast(RivalWord(last, rivals[..|rivals| - 1]), rivals[|rivals| - 1]);
    }
  }

  class HighWaterStore {
    var stored: U64

    constructor (value: U64)
      ensures stored == value
    {
      stored := value;
    }

    method Write(value: U64)
      modifies this
      ensures stored == value
    {
      stored := value;
    }
  }

  class InProcessTso {
    const store: HighWaterStore
    const horizonMs: U64
    const flushIntervalMs: U64
    var last: U64

    constructor (store: HighWaterStore, horizonMs: U64, flushIntervalMs: U64, seedMs: U64)
      ensures this.store == store && this.horizonMs == horizonMs && this.flushIntervalMs == flushIntervalMs
      ensures last == FromParts(seedMs, 0)
    {
      this.store, this.horizonMs, this.flushIntervalMs := store, horizonMs, flushIntervalMs;
      this.last := FromParts(seedMs, 0);
    }

    /** Boot. `readings` are what the clock shows the wait loop, `after` is the reading that follows it. As
        long as no reading is past the floor there is no oracle: the loop is still waiting. */
    static method NewWithClock(store: HighWaterStore, horizonMs: U64, flushIntervalMs: U64,
                               readings: seq<U64>, after: U64)
      returns (r: Option<InProcessTso>)
      ensures var floor := SaturatingAdd(store.stored, flushIntervalMs);
              && (r.None? <==> floor > 0 && forall i :: 0 <= i < |readings| ==> readings[i] <= floor)
              && (r.Some? ==>
                    && fresh(r.value) && r.value.store == store
                    && r.value.horizonMs == horizonMs && r.value.flushIntervalMs == flushIntervalMs
                    && r.value.last == FromParts(Max(floor, after), 0))
    {
      var crashFloor := SaturatingAdd(store.stored, flushIntervalMs);
      if crashFloor > 0 {
        var i := 0;
        while i < |readings| && readings[i] <= crashFloor
          invariant 0 <= i <= |readings|
          invariant forall j :: 0 <= j < i ==> readings[j] <= crashFloor
        {
          i := i + 1;
        }
        if i == |readings| {
          return None;
        }
      }
      var tso := new InProcessTso(store, horizonMs, flushIntervalMs, Max(crashFloor, after));
      return Some(tso);
    }

    /** The retry loop. Between the k-th load and its compare-exchange any number of other calls run, at the
        clocks `rivals[k]`. The exchange is lost exactly when one of them succeeded. */
    method Issue(wall: U64, rivals: seq<seq<U64>>) returns (r: Option<U64>, lost: nat)
      requires wall < PHYSICAL_LIMIT && forall k :: 0 <= k < |rivals| ==> BelowLimit(rivals[k])
      modifies this`last
      ensures lost <= |rivals|
      ensures forall k :: 0 <= k < lost ==> WordAfter(old(last), rivals[..k + 1]) > WordAfter(old(last), rivals[..k])
      ensures r == Advance(WordAfter(old(last), rivals[..lost]), wall)
      ensures last == r.GetOr(WordAfter(old(last), rivals[..lost]))
      ensures r.Some? && lost < |rivals| ==>
                WordAfter(old(last), rivals[..lost + 1]) == WordAfter(old(last), rivals[..lost])
    {
      hide Advance, RivalWord;
      lost := 0;
      while true
        invariant lost <= |rivals| && last == WordAfter(old(last), rivals[..lost])
        invariant forall k :: 0 <= k < lost ==> WordAfter(old(last), rivals[..k + 1]) > WordAfter(old(last), rivals[..k])
        decreases |rivals| - lost
      {
        var prev := last;
        var next := Attempt(prev, wall);
        if next.None? {
          return None, lost;
        }
        if lost < |rivals| {
          RivalsMoveForward(last, rivals[lost]);
          assert rivals[..lost + 1][..lost] == rivals[..lost];
          last := RivalWord(last, rivals[lost]);
        }
        if last == prev {
          last := next.value;
          return next, lost;
        }
        lost := lost + 1;
      }
    }

    /** What one attempt wants to store. */
    static method Attempt(prev: U64, wall: U64) returns (next: Option<U64>)
      ensures next == Advance(prev, wall)
    {
      if wall > PhysicalMs(prev) {
        return Some(FromParts(wall, 0));
      }
      if Logical(prev) == LOGICAL_LIMIT - 1 {
        return None;
      }
      return Some(FromParts(PhysicalMs(prev), Logical(prev) + 1));
    }

    method Validate(wall: U64, ts: U64) returns (r: Result<(), TimeError>)
      ensures r == ValidateTso(last, wall, horizonMs, ts)
    {
      var storedMs := PhysicalMs(last);
      var nowMs := Max(wall, storedMs);
      var tsMs := PhysicalMs(ts);
      if tsMs > nowMs { return Err(NonMonotonic); }
      if SaturatingSub(nowMs, tsMs) > horizonMs { return Err(OutsideHorizon); }
      return Ok(());
    }

    /** One tick of the flush task, or its final write on a clean stop. */
    method Flush()
      modifies store
      ensures store.stored == PhysicalMs(last)
    {
      var cur := PhysicalMs(last);
      store.Write(cur);
    }
  }
}
