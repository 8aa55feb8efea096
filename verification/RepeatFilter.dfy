/** btchip_reader.go: the filter that suppresses repeated advertisements. */
module RepeatFilter {
  import opened Bytes

  /** The bytes of a message; Go strings are byte strings. */
  type Key = seq<byte>

  /** Times are in nanoseconds. */
  const SECOND: int := 1_000_000_000
  const HOLD: int := 5 * SECOND
  const MINUTE: int := 60 * SECOND

  /** One call of `Test`: `admitted` when it answered false. */
  datatype Entry = Entry(key: Key, at: int, admitted: bool)

  /** The key was admitted less than five seconds before `now`. */
  predicate Recent(log: seq<Entry>, key: Key, now: int) {
    exists i :: 0 <= i < |log| && log[i].admitted && log[i].key == key && now < log[i].at + HOLD
  }

  /** Every answer follows from the answers before it. */
  predicate Consistent(log: seq<Entry>) {
    && (forall i, j :: 0 <= i < j < |log| ==> log[i].at <= log[j].at)
    && forall i :: 0 <= i < |log| ==> log[i].admitted == !Recent(log[..i], log[i].key, log[i].at)
  }

  /** What a cache must know of the log at time `now`. */
  ghost predicate Remembers(cache: map<Key, int>, log: seq<Entry>, now: int) {
    && (forall i :: 0 <= i < |log| && log[i].admitted ==>
          if log[i].key in cache then log[i].at + HOLD <= cache[log[i].key] else log[i].at + HOLD < now)
    && (forall k :: k in cache ==>
          exists i :: 0 <= i < |log| && log[i].admitted && log[i].key == k && log[i].at + HOLD == cache[k])
  }

  /** The cache answers as the whole log would, whatever has been purged. */
  lemma LookupIsRecent(cache: map<Key, int>, log: seq<Entry>, key: Key, now: int)
    requires Remembers(cache, log, now)
    ensures (key in cache && now < cache[key]) <==> Recent(log, key, now)
  {}

  lemma ConsistentAppend(log: seq<Entry>, e: Entry)
    requires Consistent(log)
    requires forall i :: 0 <= i < |log| ==> log[i].at <= e.at
    requires e.admitted == !Recent(log, e.key, e.at)
    ensures Consistent(log + [e])
  {
    var longer := log + [e];
    assert longer[..|log|] == log;
    forall i | 0 <= i < |log|
      ensures longer[..i] == log[..i]
    {}
  }

  lemma RemembersLater(cache: map<Key, int>, log: seq<Entry>, earlier: int, now: int)
    requires Remembers(cache, log, earlier) && earlier <= now
    ensures Remembers(cache, log, now)
  {}

  /** Dropping expired keys loses nothing. */
  lemma RemembersPurged(cache: map<Key, int>, log: seq<Entry>, now: int, k: Key)
    requires Remembers(cache, log, now) && k in cache && cache[k] < now
    ensures Remembers(cache - {k}, log, now)
  {
    forall i | 0 <= i < |log| && log[i].admitted && log[i].key == k
      ensures log[i].at + HOLD < now
    {}
  }

  lemma RemembersAppend(cache: map<Key, int>, log: seq<Entry>, key: Key, now: int, admitted: bool)
    requires Remembers(cache, log, now)
    requires forall i :: 0 <= i < |log| ==> log[i].at <= now
    ensures Remembers(if admitted then cache[key := now + HOLD] else cache, log + [Entry(key, now, admitted)], now)
  {
    var longer := log + [Entry(key, now, admitted)];
    var after := if admitted then cache[key := now + HOLD] else cache;
    assert longer[|log|] == Entry(key, now, admitted);
    forall k | k in after
      ensures exists i ::
                0 <= i < |longer| && longer[i].admitted && longer[i].key == k && longer[i].at + HOLD == after[k]
    {
      if k == key && admitted {
        assert longer[|log|].admitted;
      } else {
        var i :| 0 <= i < |log| && log[i].admitted && log[i].key == k && log[i].at + HOLD == cache[k];
        assert longer[i] == log[i];
      }
    }
    forall i | 0 <= i < |log|
      ensures longer[i] == log[i]
    {}
  }

  /** The test that guards the purge. */
  predicate PurgesAt(clear: int, now: int) {
    clear > now
  }

  /** The entries that a call at `now` leaves before it looks its key up. */
  function Kept(cache: map<Key, int>, clear: int, now: int): map<Key, int> {
    if PurgesAt(clear, now) then map k | k in cache && cache[k] >= now :: cache[k] else cache
  }

  function Updated(cache: map<Key, int>, key: Key, now: int, seen: bool): map<Key, int> {
    if seen then cache else cache[key := now + HOLD]
  }

  /** A call drops expired entries if and only if the next clearing is due later
      than now, the opposite of what the comment in the source says. */
  lemma ExpiredEntryDroppedIff(cache: map<Key, int>, clear: int, key: Key, now: int, seen: bool, k: Key)
    requires k in cache && cache[k] < now && k != key
    ensures k !in Updated(Kept(cache, clear, now), key, now, seen) <==> clear > now
  {}

  class Filter {
    var cache: map<Key, int>
    var clear: int
    /** All calls so far, and the time of the last one. */
    ghost var log: seq<Entry>
    ghost var last: int

    ghost predicate Valid()
      reads this
    {
      && Remembers(cache, log, last)
      && Consistent(log)
      && forall i :: 0 <= i < |log| ==> log[i].at <= last
    }

    /** No call has purged the cache, and none ever will. */
    ghost predicate NeverPurged()
      reads this
    {
      clear <= last && cache.Keys == set i | 0 <= i < |log| :: log[i].key
    }

    /** `clear` is the time of construction in the program. */
    constructor (now: int, clear: int)
      ensures Valid() && log == [] && last == now && this.clear == clear
      ensures clear <= now ==> NeverPurged()
    {
      cache := map[];
      this.clear := clear;
      log := [];
      last := now;
    }

    /** Deletes the keys that have expired. */
    method Purge(now: int)
      requires Remembers(cache, log, now)
      modifies `cache
      ensures Remembers(cache, log, now)
      ensures cache == map k | k in old(cache) && old(cache)[k] >= now :: old(cache)[k]
    {
      hide Remembers;
      ghost var before := cache;
      var keys := cache.Keys;
      while keys != {}
        invariant keys <= cache.Keys <= before.Keys
        invariant Remembers(cache, log, now)
        invariant forall k :: k in before ==> (k in cache <==> k in keys || before[k] >= now)
        invariant forall k :: k in cache ==> cache[k] == before[k]
        decreases |keys|
      {
        var k :| k in keys;
        if now > cache[k] {
          RemembersPurged(cache, log, now, k);
          cache := cache - {k};
        }
        keys := keys - {k};
      }
    }

    method Test(key: Key, now: int) returns (seen: bool)
      requires Valid() && last <= now
      modifies this
      ensures Valid() && last == now
      ensures log == old(log) + [Entry(key, now, !seen)]
      ensures seen == Recent(old(log), key, now)
      ensures clear == if old(clear) > now then now + 60_000_000_000 else old(clear)
      ensures cache == Updated(Kept(old(cache), old(clear), now), key, now, seen)
      ensures old(NeverPurged()) ==> NeverPurged()
    {
      hide Consistent, Recent, Remembers;
      last := now;
      RemembersLater(cache, log, old(last), now);
      if clear > now {
        Purge(now);
        clear := now + MINUTE;
      }
      ghost var before := cache;
      LookupIsRecent(cache, log, key, now);
      seen := key in cache && now < cache[key];
      if !seen {
        cache := cache[key := now + HOLD];
      }
      RemembersAppend(before, log, key, now, !seen);
      ConsistentAppend(log, Entry(key, now, !seen));
      KeysAppend(log, Entry(key, now, !seen));
      log := log + [Entry(key, now, !seen)];
    }
  }

  lemma KeysAppend(log: seq<Entry>, e: Entry)
    ensures (set i | 0 <= i < |log + [e]| :: (log + [e])[i].key) == (set i | 0 <= i < |log| :: log[i].key) + {e.key}
  {
    var longer := log + [e];
    var keys := set i | 0 <= i < |log| :: log[i].key;
    assert longer[|log|] == e;
    forall k | k in keys
      ensures k in set i | 0 <= i < |longer| :: longer[i].key
    {
      var i :| 0 <= i < |log| && log[i].key == k;
      assert longer[i].key == k;
    }
  }

  // ----- what a consistent log means ---------------------------------------

  /** Messages let through with the same key are at least five seconds apart. */
  lemma AdmittedAreSpaced(log: seq<Entry>, i: nat, j: nat)
    requires Consistent(log) && i < j < |log|
    requires log[i].key == log[j].key && log[i].admitted && log[j].admitted
    ensures log[i].at + 5_000_000_000 <= log[j].at
  {
    assert log[..j][i] == log[i];
    assert !Recent(log[..j], log[j].key, log[j].at);
  }

  /** Nothing is suppressed that was not let through within five seconds, by
      the same or an earlier call. */
  lemma EveryMessageIsCovered(log: seq<Entry>, j: nat) returns (i: nat)
    requires Consistent(log) && j < |log|
    ensures i <= j && log[i].admitted && log[i].key == log[j].key && log[j].at < log[i].at + 5_000_000_000
  {
    if log[j].admitted {
      i := j;
    } else {
      var k :| 0 <= k < j && log[..j][k].admitted && log[..j][k].key == log[j].key && log[j].at < log[..j][k].at + HOLD;
      i := k;
    }
  }
}
