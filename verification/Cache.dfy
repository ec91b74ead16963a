/** The cache with an age timer and a count limit (internal/cache/cache.go). Times and durations are in
    nanoseconds; the clock is a parameter of every operation. */
module Cache {
  import opened Types

  datatype Entry<V> = Entry(used: int, value: V)

  datatype Limits = Limits(minAge: int, maxAge: int, minCount: int, maxCount: int)

  const MILLISECOND := 1_000_000

  /** The limits of a new cache. The count kept by pruning is given, as it is computed in floating point. */
  function NewLimits(age: int, minCount: int, count: int): Limits
    requires age >= 0
  {
    Limits(age, age + age / 10, minCount, count)
  }

  /** The cache proper: its entries and the deadline of its timer, if one is set. */
  datatype State<K(==), V> = State(entries: map<K, Entry<V>>, timer: Option<int>)

  /* ---------- Operations on a state ---------- */

  function AfterSet<K, V>(l: Limits, c: State<K, V>, key: K, value: V, now: int): State<K, V> {
    State(c.entries[key := Entry(now, value)],
          if c.timer.None? && l.maxAge > 0 then Some(now + l.maxAge) else c.timer)
  }

  function AfterGet<K, V>(c: State<K, V>, key: K, now: int): State<K, V> {
    if key in c.entries then c.(entries := c.entries[key := c.entries[key].(used := now)]) else c
  }

  /** Removes keys; the timer is stopped when nothing is left. */
  function AfterRemove<K, V>(c: State<K, V>, keys: set<K>): State<K, V> {
    var entries := c.entries - keys;
    State(entries, if entries == map[] then None else c.timer)
  }

  function Survivors<K, V>(l: Limits, entries: map<K, Entry<V>>, refuses: K -> bool, now: int): map<K, Entry<V>> {
    map k | k in entries && (entries[k].used >= now - l.minAge || refuses(k)) ::
      if entries[k].used < now - l.minAge then entries[k].(used := now) else entries[k]
  }

  /** `oldest` is the least of `now` and the times of the entries. */
  ghost predicate IsOldest<K, V>(entries: map<K, Entry<V>>, now: int, oldest: int) {
    && oldest <= now
    && (forall k | k in entries :: oldest <= entries[k].used)
    && (oldest == now || exists k :: k in entries && entries[k].used == oldest)
  }

  /** The delay until the next run of the age timer; too short a delay is replaced by a millisecond. */
  function NextDelay(l: Limits, now: int, oldest: int): int {
    var dur := l.maxAge - (now - oldest);
    if dur <= 0 then MILLISECOND else dur
  }

  ghost predicate AgePruned<K, V>(l: Limits, c: State<K, V>, refuses: K -> bool, now: int, after: State<K, V>) {
    if l.minAge <= 0 then after == c
    else
      && after.entries == Survivors(l, c.entries, refuses, now)
      && if after.entries == map[] then after.timer == None
         else exists oldest :: IsOldest(after.entries, now, oldest) &&
                               after.timer == Some(now + NextDelay(l, now, oldest))
  }

  /** What pruning by count may leave; entries of equal age are removed in any order. */
  ghost predicate CountPruned<K(!new), V>(l: Limits, c: State<K, V>, refuses: K -> bool, now: int, after: State<K, V>) {
    if l.minCount <= 0 || |c.entries| <= l.minCount then after == c
    else
      && after.timer == c.timer
      && after.entries.Keys <= c.entries.Keys
      && (forall k | k in c.entries && k !in after.entries :: !refuses(k))
      && (if |c.entries| - |Refused(c.entries, refuses)| >= |c.entries| - l.minCount
          then |after.entries| == l.minCount
          else after.entries.Keys == Refused(c.entries, refuses))
      && (forall k, s | k in c.entries && k !in after.entries && s in after.entries && !refuses(s) ::
            c.entries[k].used <= c.entries[s].used)
      && (forall k | k in after.entries ::
            after.entries[k] == c.entries[k] || (refuses(k) && after.entries[k] == c.entries[k].(used := now)))
  }

  function Refused<K, V>(entries: map<K, Entry<V>>, refuses: K -> bool): set<K> {
    set k | k in entries && refuses(k)
  }

  /* ---------- Sorting keys by their last use ---------- */

  ghost predicate EachOnce<K(!new)>(keys: seq<K>, all: set<K>) {
    NoRepeats(keys) && Enumerates(keys, all)
  }

  ghost predicate ByUse<K, V>(keys: seq<K>, entries: map<K, Entry<V>>) {
    && (forall k | k in keys :: k in entries)
    && (forall i, j | 0 <= i < j < |keys| :: entries[keys[i]].used <= entries[keys[j]].used)
  }

  function InsertByUse<K(!new), V>(key: K, keys: seq<K>, entries: map<K, Entry<V>>): (r: seq<K>)
    requires key in entries && forall k | k in keys :: k in entries
    ensures forall k :: k in r <==> k == key || k in keys
  {
    if keys == [] then [key]
    else if entries[keys[0]].used < entries[key].used then [keys[0]] + InsertByUse(key, keys[1..], entries)
    else [key] + keys
  }

  lemma {:induction false} InsertNoRepeats<K(!new), V>(key: K, keys: seq<K>, entries: map<K, Entry<V>>)
    requires key in entries && (forall k | k in keys :: k in entries)
    requires NoRepeats(keys) && key !in keys
    ensures NoRepeats(InsertByUse(key, keys, entries))
    decreases |keys|
  {
    if keys != [] && entries[keys[0]].used < entries[key].used {
      var rest := InsertByUse(key, keys[1..], entries);
      InsertNoRepeats(key, keys[1..], entries);
      assert keys[0] !in keys[1..];
      assert forall i | 0 <= i < |rest| :: rest[i] in rest;
    } else {
      assert forall i | 0 <= i < |keys| :: keys[i] in keys;
    }
  }

  lemma {:induction false} InsertByUseSorted<K(!new), V>(key: K, keys: seq<K>, entries: map<K, Entry<V>>)
    requires key in entries && ByUse(keys, entries)
    ensures ByUse(InsertByUse(key, keys, entries), entries)
    decreases |keys|
  {
    if keys != [] && entries[keys[0]].used < entries[key].used {
      var head := keys[0];
      var rest := InsertByUse(key, keys[1..], entries);
      InsertByUseSorted(key, keys[1..], entries);
      forall i | 0 <= i < |rest| ensures entries[head].used <= entries[rest[i]].used {
        assert rest[i] in rest;
        if rest[i] != key {
          var j :| 0 <= j < |keys| - 1 && keys[1..][j] == rest[i];
          assert keys[j + 1] == rest[i];
        }
      }
    }
  }

  /* ---------- Pruning by count ---------- */

  function Accepted<K>(done: seq<K>, refuses: K -> bool): set<K> {
    set k | k in done && !refuses(k)
  }

  /** The entries after the keys in `done` were tried. */
  ghost predicate PrunedPrefix<K, V>(
      all: map<K, Entry<V>>, done: seq<K>, refuses: K -> bool, now: int, entries: map<K, Entry<V>>)
  {
    && entries.Keys == all.Keys - Accepted(done, refuses)
    && forall k | k in entries :: entries[k] == if k in done then all[k].(used := now) else all[k]
  }

  /** After trying the first `i` keys, `count` of them were deleted. */
  ghost predicate Tried<K(!new), V>(
      all: map<K, Entry<V>>, keys: seq<K>, i: nat, refuses: K -> bool, now: int, entries: map<K, Entry<V>>, count: int)
  {
    && i <= |keys| && EachOnce(keys, all.Keys)
    && PrunedPrefix(all, keys[..i], refuses, now, entries)
    && count == |Accepted(keys[..i], refuses)|
  }

  lemma TriedNone<K(!new), V>(all: map<K, Entry<V>>, keys: seq<K>, refuses: K -> bool, now: int)
    requires EachOnce(keys, all.Keys)
    ensures Tried(all, keys, 0, refuses, now, all, 0)
  {
    assert Accepted(keys[..0], refuses) == {};
  }

  lemma AcceptedSnoc<K(!new)>(done: seq<K>, k: K, refuses: K -> bool)
    requires k !in done
    ensures Accepted(done + [k], refuses) == Accepted(done, refuses) + if refuses(k) then {} else {k}
    ensures |Accepted(done + [k], refuses)| == |Accepted(done, refuses)| + if refuses(k) then 0 else 1
  {
    var before := Accepted(done, refuses);
    assert Accepted(done + [k], refuses) == before + if refuses(k) then {} else {k};
    assert k !in before;
  }

  lemma PrunedSnoc<K(!new), V>(
      all: map<K, Entry<V>>, done: seq<K>, refuses: K -> bool, now: int, entries: map<K, Entry<V>>, k: K)
    requires k in all && k !in done && PrunedPrefix(all, done, refuses, now, entries)
    ensures k in entries
    ensures refuses(k) ==> PrunedPrefix(all, done + [k], refuses, now, entries[k := entries[k].(used := now)])
    ensures !refuses(k) ==> PrunedPrefix(all, done + [k], refuses, now, entries - {k})
  {
    AcceptedSnoc(done, k, refuses);
  }

  lemma TriedStep<K(!new), V>(
      all: map<K, Entry<V>>, keys: seq<K>, i: nat, refuses: K -> bool, now: int, entries: map<K, Entry<V>>, count: int)
    requires i < |keys| && Tried(all, keys, i, refuses, now, entries, count)
    ensures var k := keys[i];
            && k in entries
            && if refuses(k) then Tried(all, keys, i + 1, refuses, now, entries[k := entries[k].(used := now)], count)
               else Tried(all, keys, i + 1, refuses, now, entries - {k}, count + 1)
  {
    var k := keys[i];
    assert keys[..i + 1] == keys[..i] + [k];
    assert k in keys && k !in keys[..i];
    AcceptedSnoc(keys[..i], k, refuses);
    PrunedSnoc(all, keys[..i], refuses, now, entries, k);
  }

  lemma SubsetSize<K>(a: set<K>, b: set<K>)
    requires a <= b
    ensures |a| <= |b| && |b - a| == |b| - |a|
  {
    assert b == a + (b - a);
  }

  /** No deleted key was used after a key that was not tried. */
  lemma TriedOldest<K(!new), V>(
      all: map<K, Entry<V>>, keys: seq<K>, i: nat, refuses: K -> bool, now: int, entries: map<K, Entry<V>>, count: int,
      k: K, s: K)
    requires Tried(all, keys, i, refuses, now, entries, count) && ByUse(keys, all)
    requires k in all && k !in entries && s in entries && !refuses(s)
    ensures all[k].used <= all[s].used
  {
    assert keys == keys[..i] + keys[i..];
    assert k in keys[..i] && s in keys[i..];
    var a :| 0 <= a < i && keys[..i][a] == k;
    var b :| 0 <= b < |keys| - i && keys[i..][b] == s;
  }

  lemma PrunedEnough<K(!new), V>(
      l: Limits, c: State<K, V>, keys: seq<K>, i: nat, refuses: K -> bool, now: int, count: int, after: State<K, V>)
    requires l.minCount > 0 && |c.entries| > l.minCount && after.timer == c.timer
    requires Tried(c.entries, keys, i, refuses, now, after.entries, count) && ByUse(keys, c.entries)
    requires count == |c.entries| - l.minCount
    ensures CountPruned(l, c, refuses, now, after)
  {
    var all, entries := c.entries, after.entries;
    TriedSize(all, keys, i, refuses, now, entries, |all| - l.minCount);
    forall k, s | k in all && k !in entries && s in entries && !refuses(s) ensures all[k].used <= all[s].used {
      TriedOldest(all, keys, i, refuses, now, entries, |all| - l.minCount, k, s);
    }
    TriedValues(all, keys, i, refuses, now, entries, |all| - l.minCount);
  }

  lemma TriedSize<K(!new), V>(
      all: map<K, Entry<V>>, keys: seq<K>, i: nat, refuses: K -> bool, now: int, entries: map<K, Entry<V>>, count: int)
    requires Tried(all, keys, i, refuses, now, entries, count)
    ensures |entries| == |all| - count
    ensures count <= |all| - |Refused(all, refuses)|
  {
    var gone := Accepted(keys[..i], refuses);
    var refused := Refused(all, refuses);
    assert |entries| == |entries.Keys| && |all| == |all.Keys|;
    forall k | k in gone ensures k in all.Keys - refused {
      assert k in keys;
    }
    SubsetSize(gone, all.Keys);
    SubsetSize(refused, all.Keys);
    SubsetSize(gone, all.Keys - refused);
  }

  lemma AcceptedAll<K(!new), V>(all: map<K, Entry<V>>, keys: seq<K>, refuses: K -> bool)
    requires Enumerates(keys, all.Keys)
    ensures Accepted(keys, refuses) == all.Keys - Refused(all, refuses)
  {
  }

  lemma TriedDone<K(!new), V>(
      all: map<K, Entry<V>>, keys: seq<K>, refuses: K -> bool, now: int, entries: map<K, Entry<V>>, count: int)
    requires Tried(all, keys, |keys|, refuses, now, entries, count)
    ensures entries.Keys == Refused(all, refuses)
    ensures count == |all| - |Refused(all, refuses)|
  {
    var refused := Refused(all, refuses);
    assert keys[..|keys|] == keys;
    AcceptedAll(all, keys, refuses);
    assert |all| == |all.Keys|;
    SubsetSize(refused, all.Keys);
    assert all.Keys - (all.Keys - refused) == refused;
  }

  lemma TriedValues<K(!new), V>(
      all: map<K, Entry<V>>, keys: seq<K>, i: nat, refuses: K -> bool, now: int, entries: map<K, Entry<V>>, count: int)
    requires Tried(all, keys, i, refuses, now, entries, count)
    ensures entries.Keys <= all.Keys
    ensures forall k | k in all && k !in entries :: !refuses(k)
    ensures forall k | k in entries :: entries[k] == all[k] || (refuses(k) && entries[k] == all[k].(used := now))
  {
  }

  lemma PrunedAll<K(!new), V>(
      l: Limits, c: State<K, V>, keys: seq<K>, refuses: K -> bool, now: int, count: int, after: State<K, V>)
    requires l.minCount > 0 && |c.entries| > l.minCount && after.timer == c.timer
    requires Tried(c.entries, keys, |keys|, refuses, now, after.entries, count) && count < |c.entries| - l.minCount
    ensures CountPruned(l, c, refuses, now, after)
  {
    TriedDone(c.entries, keys, refuses, now, after.entries, count);
    TriedValues(c.entries, keys, |keys|, refuses, now, after.entries, count);
  }

  lemma PrunedNothing<K(!new), V>(l: Limits, c: State<K, V>, refuses: K -> bool, now: int)
    requires l.minCount <= 0 || |c.entries| <= l.minCount
    ensures CountPruned(l, c, refuses, now, c)
  {
  }

  /* ---------- Pruning by age ---------- */

  /** The entries while the keys in `todo` are still to be looked at. */
  ghost predicate AgeSwept<K, V>(
      l: Limits, all: map<K, Entry<V>>, todo: set<K>, refuses: K -> bool, now: int, entries: map<K, Entry<V>>,
      oldest: int)
  {
    var kept := Survivors(l, all, refuses, now);
    && todo <= all.Keys
    && entries.Keys == kept.Keys + todo
    && (forall k | k in entries :: entries[k] == if k in todo then all[k] else kept[k])
    && oldest <= now
    && (forall k | k in kept && k !in todo :: oldest <= kept[k].used)
    && (oldest == now || exists k :: k in kept && kept[k].used == oldest)
  }

  lemma AgeStep<K, V>(
      l: Limits, all: map<K, Entry<V>>, todo: set<K>, refuses: K -> bool, now: int, entries: map<K, Entry<V>>,
      oldest: int, key: K)
    requires l.minAge > 0 && key in todo && AgeSwept(l, all, todo, refuses, now, entries, oldest)
    ensures var rest := todo - {key};
            && key in entries && entries[key] == all[key]
            && if entries[key].used < now - l.minAge then
                 if refuses(key)
                 then AgeSwept(l, all, rest, refuses, now, entries[key := entries[key].(used := now)], oldest)
                 else AgeSwept(l, all, rest, refuses, now, entries - {key}, oldest)
               else
                 var least := if entries[key].used < oldest then entries[key].used else oldest;
                 AgeSwept(l, all, rest, refuses, now, entries, least)
  {
  }

  lemma AgeDone<K, V>(
      l: Limits, c: State<K, V>, refuses: K -> bool, now: int, oldest: int, after: State<K, V>)
    requires l.minAge > 0 && AgeSwept(l, c.entries, {}, refuses, now, after.entries, oldest)
    requires after.timer == if after.entries == map[] then None else Some(now + NextDelay(l, now, oldest))
    ensures AgePruned(l, c, refuses, now, after)
  {
    assert after.entries == Survivors(l, c.entries, refuses, now);
    assert IsOldest(after.entries, now, oldest);
  }

  /* ---------- The cache object ---------- */

  class Cache<K(==, !new), V> {
    const limits: Limits
    var entries: map<K, Entry<V>>
    var timer: Option<int>

    ghost function Current(): State<K, V>
      reads this
    {
      State(entries, timer)
    }

    constructor (limits: Limits)
      ensures this.limits == limits && Current() == State(map[], None)
    {
      this.limits := limits;
      entries, timer := map[], None;
    }

    /** Adds an entry; `prune` tells that pruning by count is started in the background. */
    method Set(key: K, value: V, now: int) returns (prune: bool)
      modifies this
      ensures Current() == AfterSet(limits, old(Current()), key, value, now)
      ensures prune <==> limits.maxCount > 0 && |entries| > limits.maxCount
    {
      entries := entries[key := Entry(now, value)];
      if timer.None? && limits.maxAge > 0 {
        timer := Some(now + limits.maxAge);
      }
      prune := limits.maxCount > 0 && |entries| > limits.maxCount;
    }

    method Get(key: K, now: int) returns (value: Option<V>)
      modifies this
      ensures Current() == AfterGet(old(Current()), key, now)
      ensures value == if key in old(entries) then Some(old(entries)[key].value) else None
    {
      if key in entries {
        value := Some(entries[key].value);
        entries := entries[key := entries[key].(used := now)];
      } else {
        value := None;
      }
    }

    /** Removes an entry unless the prune function refuses it. */
    method Delete(key: K, refuses: K -> bool) returns (refused: bool)
      modifies this
      ensures refused <==> key in old(entries) && refuses(key)
      ensures Current() == if refused then old(Current()) else AfterRemove(old(Current()), {key})
    {
      if key in entries && refuses(key) {
        return true;
      }
      entries := entries - {key};
      if entries == map[] {
        timer := None;
      }
      return false;
    }

    method DeleteAll(refuses: K -> bool) returns (failed: bool)
      modifies this
      ensures Current() == AfterRemove(old(Current()), old(entries).Keys - Refused(old(entries), refuses))
      ensures failed <==> Refused(old(entries), refuses) != {}
    {
      ghost var all := entries;
      ghost var errs: set<K> := {};
      failed := false;
      var todo := entries.Keys;
      while todo != {}
        invariant todo <= entries.Keys
        invariant errs == Refused(all, refuses) - todo
        invariant entries == all - ((all.Keys - Refused(all, refuses)) - todo)
        invariant failed <==> errs != {}
        invariant timer == old(timer)
        decreases todo
      {
        var key :| key in todo;
        todo := todo - {key};
        if refuses(key) {
          failed := true;
          errs := errs + {key};
          continue;
        }
        entries := entries - {key};
      }
      if entries == map[] {
        timer := None;
      }
    }

    /** Runs when the age timer fires: deletes the entries beyond the age and sets the next deadline. */
    method PruneAge(refuses: K -> bool, now: int)
      modifies this
      ensures AgePruned(limits, old(Current()), refuses, now, Current())
    {
      if limits.minAge <= 0 {
        return;
      }
      var cutoff := now - limits.minAge;
      var oldest := now;
      var todo := entries.Keys;
      ghost var all := entries;
      while todo != {}
        invariant AgeSwept(limits, all, todo, refuses, now, entries, oldest)
        invariant timer == old(timer)
        decreases todo
      {
        var key :| key in todo;
        AgeStep(limits, all, todo, refuses, now, entries, oldest, key);
        todo := todo - {key};
        if entries[key].used < cutoff {
          if refuses(key) {
            entries := entries[key := entries[key].(used := now)];
            continue;
          }
          entries := entries - {key};
        } else if entries[key].used < oldest {
          oldest := entries[key].used;
        }
      }
      if entries != map[] {
        var dur := limits.maxAge - (now - oldest);
        if dur <= 0 {
          dur := MILLISECOND;
        }
        timer := Some(now + dur);
      } else {
        timer := None;
      }
      AgeDone(limits, old(Current()), refuses, now, oldest, Current());
    }

    /** The keys in the order of their last use. */
    method SortedKeys() returns (keys: seq<K>)
      ensures EachOnce(keys, entries.Keys) && ByUse(keys, entries)
    {
      keys := [];
      var todo := entries.Keys;
      while todo != {}
        invariant todo <= entries.Keys
        invariant EachOnce(keys, entries.Keys - todo) && ByUse(keys, entries)
        decreases todo
      {
        var key :| key in todo;
        todo := todo - {key};
        InsertByUseSorted(key, keys, entries);
        InsertNoRepeats(key, keys, entries);
        keys := InsertByUse(key, keys, entries);
      }
    }

    /** Deletes the entries used longest ago until `minCount` are left, skipping those that are refused. */
    method PruneCount(refuses: K -> bool, now: int)
      modifies this
      ensures CountPruned(limits, old(Current()), refuses, now, Current())
    {
      if limits.minCount <= 0 || |entries| <= limits.minCount {
        PrunedNothing(limits, old(Current()), refuses, now);
        return;
      }
      var keyList := SortedKeys();
      ghost var before := Current();
      var delLen := |entries| - limits.minCount;
      var delCount := 0;
      TriedNone(before.entries, keyList, refuses, now);
      for i := 0 to |keyList|
        invariant delCount < delLen
        invariant Tried(before.entries, keyList, i, refuses, now, entries, delCount)
        invariant timer == old(timer)
      {
        var key := keyList[i];
        TriedStep(before.entries, keyList, i, refuses, now, entries, delCount);
        if refuses(key) {
          entries := entries[key := entries[key].(used := now)];
          continue;
        }
        entries := entries - {key};
        delCount := delCount + 1;
        if delCount >= delLen {
          PrunedEnough(limits, before, keyList, i + 1, refuses, now, delCount, Current());
          return;
        }
      }
      PrunedAll(limits, before, keyList, refuses, now, delCount, Current());
    }
  }
}
