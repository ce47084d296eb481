/** The replay cache: a bounded LRU that drops entries by the timestamp of the request being recorded. */
module NonceStore {
  import opened Core
  import opened Tso
  import opened TsoProcess

  datatype NonceKey = NonceKey(keyId: Uuid, nonce: seq<Byte>)

  datatype Verdict = Accepted | Replay | Capacity

  /** `entry` is more than the horizon older than `now`. */
  predicate Expires(now: U64, entry: U64, horizonMs: nat) {
    SaturatingSub(PhysicalMs(now), PhysicalMs(entry)) > horizonMs
  }

  function Unexpired(m: map<NonceKey, U64>, now: U64, horizonMs: nat): map<NonceKey, U64> {
    map k | k in m && !Expires(now, m[k], horizonMs) :: m[k]
  }

  /** What `record` does to the cache seen as a map, whatever the recency order. */
  function RecordSpec(m: map<NonceKey, U64>, capacity: nat, horizonMs: nat, key: NonceKey, ts: U64)
    : (Verdict, map<NonceKey, U64>)
  {
    var live := Unexpired(m, ts, horizonMs);
    if key in live then (Replay, live)
    else if |live| >= capacity then (Capacity, live)
    else (Accepted, live[key := ts])
  }

  // ----- The LRU -------------------------------------------------------------------------------

  datatype Entry = Entry(key: NonceKey, ts: U64)

  function View(entries: seq<Entry>): map<NonceKey, U64> {
    if entries == [] then map[] else View(entries[1..])[entries[0].key := entries[0].ts]
  }

  predicate DistinctKeys(entries: seq<Entry>) {
    entries == [] || (entries[0].key !in View(entries[1..]) && DistinctKeys(entries[1..]))
  }

  lemma {:induction false} ViewSize(entries: seq<Entry>)
    requires DistinctKeys(entries)
    ensures |View(entries)| == |entries|
  {
    if entries != [] {
      ViewSize(entries[1..]);
      assert View(entries).Keys == View(entries[1..]).Keys + {entries[0].key};
    }
  }

  /** The view holds each entry, and an entry's key does not come again after it. */
  lemma {:induction false} ViewAt(entries: seq<Entry>, i: nat)
    requires i < |entries| && DistinctKeys(entries)
    ensures entries[i].key in View(entries) && View(entries)[entries[i].key] == entries[i].ts
    ensures entries[i].key !in View(entries[i + 1..])
    ensures forall k :: k in View(entries[i + 1..]) ==> k in View(entries)
  {
    if i > 0 {
      ViewAt(entries[1..], i - 1);
      assert entries[1..][i..] == entries[i + 1..];
    }
  }

  lemma {:induction false} RemoveAt(entries: seq<Entry>, i: nat)
    requires i < |entries| && DistinctKeys(entries)
    ensures DistinctKeys(entries[..i] + entries[i + 1..])
    ensures View(entries[..i] + entries[i + 1..]) == View(entries) - {entries[i].key}
  {
    var rest := entries[..i] + entries[i + 1..];
    if i == 0 {
      assert rest == entries[1..];
    } else {
      RemoveAt(entries[1..], i - 1);
      assert rest[1..] == entries[1..][..i - 1] + entries[1..][i..];
      ViewAt(entries[1..], i - 1);
    }
  }

  /** `LruCache<NonceKey, Tso>` behind the mutex; the most recently used entry comes first. */
  class InMemoryNonceStore {
    const capacity: nat
    const horizonMs: nat
    var entries: seq<Entry>

    ghost predicate Valid()
      reads this
    {
      capacity >= 1 && DistinctKeys(entries) && |entries| <= capacity
    }

    constructor (capacity: nat, horizonMs: nat)
      requires capacity >= 1
      ensures Valid() && this.capacity == capacity && this.horizonMs == horizonMs && entries == []
    {
      this.capacity, this.horizonMs, entries := capacity, horizonMs, [];
    }

    method Find(key: NonceKey) returns (i: nat)
      requires DistinctKeys(entries)
      ensures i <= |entries|
      ensures i < |entries| ==> entries[i].key == key
      ensures i < |entries| <==> key in View(entries)
    {
      i := 0;
      while i < |entries| && entries[i].key != key
        invariant 0 <= i <= |entries|
        invariant key in View(entries) <==> key in View(entries[i..])
      {
        i := i + 1;
      }
    }

    method Pop(key: NonceKey)
      requires Valid()
      modifies this`entries
      ensures Valid() && View(entries) == View(old(entries)) - {key}
    {
      var i := Find(key);
      if i < |entries| {
        RemoveAt(entries, i);
        entries := entries[..i] + entries[i + 1..];
      } else {
        assert View(entries) - {key} == View(entries);
      }
    }

    /** A hit moves the entry to the front. */
    method Get(key: NonceKey) returns (hit: bool)
      requires Valid()
      modifies this`entries
      ensures Valid() && View(entries) == View(old(entries)) && |entries| == |old(entries)|
      ensures hit <==> key in View(old(entries))
    {
      var i := Find(key);
      hit := i < |entries|;
      if hit {
        var moved := [entries[i]] + (entries[..i] + entries[i + 1..]);
        RemoveAt(entries, i);
        ViewAt(entries, i);
        assert moved[1..] == entries[..i] + entries[i + 1..];
        entries := moved;
      }
    }

    /** A full cache drops its least recently used entry to make room. */
    method Put(key: NonceKey, ts: U64)
      requires Valid() && key !in View(entries)
      modifies this`entries
      ensures Valid()
      ensures |old(entries)| < capacity ==> View(entries) == View(old(entries))[key := ts]
    {
      var kept := entries;
      if |entries| == capacity {
        RemoveAt(entries, |entries| - 1);
        kept := entries[..|entries| - 1];
        assert kept == entries[..|entries| - 1] + entries[|entries| - 1 + 1..];
      }
      entries := [Entry(key, ts)] + kept;
      assert entries[1..] == kept;
    }

    method EvictExpired(now: U64)
      requires Valid()
      modifies this`entries
      ensures Valid() && View(entries) == Unexpired(View(old(entries)), now, horizonMs)
    {
      var toDrop: seq<NonceKey> := [];
      ghost var before := View(entries);
      var i := 0;
      while i < |entries|
        invariant 0 <= i <= |entries| && entries == old(entries)
        invariant forall k :: k in toDrop <==>
                    k in before && k !in View(entries[i..]) && Expires(now, before[k], horizonMs)
      {
        ViewAt(entries, i);
        assert View(entries[i..]) == View(entries[i + 1..])[entries[i].key := entries[i].ts];
        if SaturatingSub(PhysicalMs(now), PhysicalMs(entries[i].ts)) > horizonMs {
          toDrop := toDrop + [entries[i].key];
        }
        i := i + 1;
      }
      i := 0;
      while i < |toDrop|
        invariant 0 <= i <= |toDrop| && Valid()
        invariant View(entries) == before - (set k | k in toDrop[..i])
      {
        Pop(toDrop[i]);
        assert toDrop[..i + 1] == toDrop[..i] + [toDrop[i]];
        i := i + 1;
      }
      assert toDrop[..i] == toDrop;
    }

    method Record(key: NonceKey, ts: U64) returns (v: Verdict)
      requires Valid()
      modifies this`entries
      ensures Valid()
      ensures (v, View(entries)) == RecordSpec(View(old(entries)), capacity, horizonMs, key, ts)
    {
      EvictExpired(ts);
      ViewSize(entries);
      var hit := Get(key);
      if hit {
        v := Replay;
      } else if |entries| >= capacity {
        v := Capacity;
      } else {
        Put(key, ts);
        v := Accepted;
      }
    }
  }
}
