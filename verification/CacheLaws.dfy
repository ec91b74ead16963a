/** What the cache promises: with ideal timers no entry outlives its maximum age, none is pruned by age before
    its minimum age, and pruning by count removes the entries used longest ago. */
module CacheLaws {
  import opened Types
  import opened Cache

  /** A non-empty cache with an age limit has a timer, due no later than any entry's maximum age. */
  ghost predicate Valid<K, V>(l: Limits, c: State<K, V>, now: int) {
    && (forall k | k in c.entries :: c.entries[k].used <= now)
    && if l.maxAge <= 0 then c.timer.None?
       else
         && (c.timer.None? <==> c.entries == map[])
         && (c.timer.Some? ==>
               now <= c.timer.value && forall k | k in c.entries :: c.timer.value <= c.entries[k].used + l.maxAge)
  }

  /* ---------- Steps ---------- */

  /** A cache at a time. */
  datatype Config<K(==), V> = Config(now: int, cache: State<K, V>)

  /** The timer is ideal: it fires exactly at its deadline, and time does not pass a deadline before that. */
  ghost predicate Next<K(!new), V(!new)>(l: Limits, a: Config<K, V>, b: Config<K, V>) {
    || (b.cache == a.cache && a.now <= b.now && (a.cache.timer.Some? ==> b.now <= a.cache.timer.value))
    || (b.now == a.now && exists k, v :: b.cache == AfterSet(l, a.cache, k, v, a.now))
    || (b.now == a.now && exists k :: b.cache == AfterGet(a.cache, k, a.now))
    || (b.now == a.now && exists keys :: b.cache == AfterRemove(a.cache, keys))
    || (b.now == a.now && exists refuses :: CountPruned(l, a.cache, refuses, a.now, b.cache))
    || (b.now == a.now && a.cache.timer == Some(a.now) &&
        exists refuses :: AgePruned(l, a.cache, refuses, a.now, b.cache))
  }

  ghost predicate IsRun<K(!new), V(!new)>(l: Limits, run: seq<Config<K, V>>) {
    && |run| > 0
    && run[0].cache == State(map[], None)
    && forall i | 0 <= i < |run| - 1 :: Next(l, run[i], run[i + 1])
  }

  lemma SetValid<K, V>(l: Limits, c: State<K, V>, now: int, k: K, v: V)
    requires Valid(l, c, now)
    ensures Valid(l, AfterSet(l, c, k, v, now), now)
  {
    assert k in AfterSet(l, c, k, v, now).entries;
  }

  lemma GetValid<K, V>(l: Limits, c: State<K, V>, now: int, k: K)
    requires Valid(l, c, now)
    ensures Valid(l, AfterGet(c, k, now), now)
  {
    if k in c.entries {
      assert k in AfterGet(c, k, now).entries;
    }
  }

  lemma RemoveValid<K, V>(l: Limits, c: State<K, V>, now: int, keys: set<K>)
    requires Valid(l, c, now)
    ensures Valid(l, AfterRemove(c, keys), now)
  {
  }

  lemma CountValid<K(!new), V>(l: Limits, c: State<K, V>, now: int, refuses: K -> bool, after: State<K, V>)
    requires Valid(l, c, now) && CountPruned(l, c, refuses, now, after)
    ensures Valid(l, after, now)
  {
    if l.minCount > 0 && |c.entries| > l.minCount {
      SubsetSize(Refused(c.entries, refuses), c.entries.Keys);
      assert |c.entries.Keys| == |c.entries| && |after.entries.Keys| == |after.entries|;
      assert after.entries.Keys != {};
    }
  }

  /** The deadline set when the timer fires is computed from the oldest entry, with some delay left. */
  ghost predicate DeadlineComputed<K, V>(l: Limits, now: int, after: State<K, V>) {
    exists oldest :: IsOldest(after.entries, now, oldest) && l.maxAge - (now - oldest) > 0 &&
                     after.timer == Some(oldest + l.maxAge)
  }

  lemma FireNext<K(!new), V>(l: Limits, c: State<K, V>, now: int, refuses: K -> bool, after: State<K, V>)
    requires 0 < l.minAge < l.maxAge
    requires Valid(l, c, now) && AgePruned(l, c, refuses, now, after)
    ensures Valid(l, after, now)
    ensures after.entries != map[] ==> DeadlineComputed(l, now, after)
  {
    if after.entries != map[] {
      var oldest :| IsOldest(after.entries, now, oldest) && after.timer == Some(now + NextDelay(l, now, oldest));
      assert oldest >= now - l.minAge;
    }
  }

  /** When the timer fires on a valid cache every surviving entry is at most the minimum age old, so the next
      delay is computed and not replaced, and the new deadline respects every entry. */
  lemma FireValid<K(!new), V>(
      age: int, minCount: int, count: int, c: State<K, V>, now: int, refuses: K -> bool, after: State<K, V>)
    requires age >= 10
    requires var l := NewLimits(age, minCount, count);
             Valid(l, c, now) && c.timer == Some(now) && AgePruned(l, c, refuses, now, after)
    ensures var l := NewLimits(age, minCount, count);
            Valid(l, after, now) && (after.entries != map[] ==> DeadlineComputed(l, now, after))
  {
    FireNext(NewLimits(age, minCount, count), c, now, refuses, after);
  }

  /** The limits: the minimum age is the age, the maximum age is the age and a whole tenth of it. */
  lemma LimitsMeaning(age: int, minCount: int, count: int)
    requires age >= 0
    ensures var l := NewLimits(age, minCount, count);
            && l.minAge == age && l.minCount == minCount && l.maxCount == count
            && 10 * (l.maxAge - age) <= age < 10 * (l.maxAge - age) + 10
  {
  }

  /** The first entry starts the timer for a whole maximum age; later ones leave it alone; without an age there is
      none. */
  lemma TimerStarted<K, V>(age: int, minCount: int, count: int, c: State<K, V>, k: K, v: V, now: int)
    requires age >= 0
    ensures var after := AfterSet(NewLimits(age, minCount, count), c, k, v, now);
            after.timer == if c.timer.None? && age > 0 then Some(now + age + age / 10) else c.timer
  {
  }

  /** An entry that was just set or read holds its value, and no firing of the timer within the age removes it. */
  lemma JustUsedSurvives<K(!new), V>(
      age: int, minCount: int, count: int, c: State<K, V>, k: K, v: V, used: int, now: int, refuses: K -> bool,
      after: State<K, V>)
    requires age > 0 && used <= now <= used + age
    requires var l := NewLimits(age, minCount, count);
             c == AfterSet(l, c, k, v, used) || (k in c.entries && c.entries[k].value == v && c == AfterGet(c, k, used))
    requires AgePruned(NewLimits(age, minCount, count), c, refuses, now, after)
    ensures k in after.entries && after.entries[k] == Entry(used, v)
  {
  }

  /** An entry removed by the age timer is older than the minimum age and was not refused; every other entry
      keeps its value, and its time unless it was refused. */
  lemma AgePrunedOnlyOld<K(!new), V>(l: Limits, c: State<K, V>, refuses: K -> bool, now: int, after: State<K, V>, k: K)
    requires AgePruned(l, c, refuses, now, after) && l.minAge > 0 && k in c.entries
    ensures k !in after.entries <==> now > c.entries[k].used + l.minAge && !refuses(k)
    ensures k in after.entries ==>
              after.entries[k] ==
              if now > c.entries[k].used + l.minAge then c.entries[k].(used := now) else c.entries[k]
  {
  }

  lemma NextValid<K(!new), V(!new)>(age: int, minCount: int, count: int, a: Config<K, V>, b: Config<K, V>)
    requires age >= 10 || age == 0
    requires var l := NewLimits(age, minCount, count); Valid(l, a.cache, a.now) && Next(l, a, b)
    ensures Valid(NewLimits(age, minCount, count), b.cache, b.now)
  {
    var l := NewLimits(age, minCount, count);
    if b.cache == a.cache && a.now <= b.now && (a.cache.timer.Some? ==> b.now <= a.cache.timer.value) {
    } else if k, v :| b.cache == AfterSet(l, a.cache, k, v, a.now) {
      SetValid(l, a.cache, a.now, k, v);
    } else if k :| b.cache == AfterGet(a.cache, k, a.now) {
      GetValid(l, a.cache, a.now, k);
    } else if keys :| b.cache == AfterRemove(a.cache, keys) {
      RemoveValid(l, a.cache, a.now, keys);
    } else if refuses :| CountPruned(l, a.cache, refuses, a.now, b.cache) {
      CountValid(l, a.cache, a.now, refuses, b.cache);
    } else {
      var refuses :| AgePruned(l, a.cache, refuses, a.now, b.cache);
      FireValid(age, minCount, count, a.cache, a.now, refuses, b.cache);
    }
  }

  /** At every point of every run with an age of at least 10 ns each entry is within its maximum age. */
  lemma {:induction false} RunWithinAge<K(!new), V(!new)>(
      age: int, minCount: int, count: int, run: seq<Config<K, V>>, i: nat)
    requires age >= 10
    requires IsRun(NewLimits(age, minCount, count), run) && i < |run|
    ensures var l := NewLimits(age, minCount, count);
            && Valid(l, run[i].cache, run[i].now)
            && forall k | k in run[i].cache.entries :: run[i].now <= run[i].cache.entries[k].used + age + age / 10
  {
    if i > 0 {
      RunWithinAge(age, minCount, count, run, i - 1);
      assert Next(NewLimits(age, minCount, count), run[i - 1], run[i]);
      NextValid(age, minCount, count, run[i - 1], run[i]);
    }
  }

  /** An entry exactly at the age when the timer fires survives, and with an age below 10 ns, where the maximum age
      is the minimum age, no delay is left: it is replaced by a millisecond. */
  lemma ShortAgeFires<K(!new), V(!new)>(l: Limits, k: K, v: V, used: int, refuses: K -> bool)
    requires 0 < l.minAge == l.maxAge
    ensures var c := State(map[k := Entry(used, v)], Some(used + l.maxAge));
            AgePruned(l, c, refuses, used + l.minAge, c.(timer := Some(used + l.minAge + MILLISECOND)))
  {
    var c := State(map[k := Entry(used, v)], Some(used + l.maxAge));
    assert Survivors(l, c.entries, refuses, used + l.minAge) == c.entries;
    assert k in c.entries && IsOldest(c.entries, used + l.minAge, used);
  }

  /** Below 10 ns the bound fails in a run: set an entry, let the timer fire, and let a nanosecond pass. */
  lemma ShortAgeOutlived<K(!new), V(!new)>(age: int, minCount: int, count: int, k: K, v: V, start: int)
    returns (run: seq<Config<K, V>>)
    requires 0 < age < 10
    ensures var l := NewLimits(age, minCount, count);
            && IsRun(l, run)
            && var last := run[|run| - 1];
               k in last.cache.entries && last.now > last.cache.entries[k].used + l.maxAge
  {
    var l := NewLimits(age, minCount, count);
    var empty: State<K, V> := State(map[], None);
    var one := State(map[k := Entry(start, v)], Some(start + age));
    var fired := one.(timer := Some(start + age + MILLISECOND));
    var refuses: K -> bool := _ => false;
    ShortAgeFires(l, k, v, start, refuses);
    assert one == AfterSet(l, empty, k, v, start);
    run := [Config(start, empty), Config(start, one), Config(start + age, one), Config(start + age, fired),
            Config(start + age + 1, fired)];
    assert Next(l, run[0], run[1]) && Next(l, run[1], run[2]) && Next(l, run[2], run[3]) && Next(l, run[3], run[4]);
  }

  /* ---------- Pruning by count ---------- */

  /** With distinct times the keys that are left do not depend on how the keys were sorted. */
  lemma CountPrunedUnique<K(!new), V>(
      l: Limits, c: State<K, V>, refuses: K -> bool, now: int, a: State<K, V>, b: State<K, V>)
    requires forall x, y | x in c.entries && y in c.entries && x != y :: c.entries[x].used != c.entries[y].used
    requires CountPruned(l, c, refuses, now, a) && CountPruned(l, c, refuses, now, b)
    ensures a.entries.Keys == b.entries.Keys
  {
    if l.minCount > 0 && |c.entries| > l.minCount && a.entries.Keys != b.entries.Keys {
      assert |a.entries.Keys| == |a.entries| && |b.entries.Keys| == |b.entries|;
      var x := OnlyInFirst(a.entries.Keys, b.entries.Keys);
      var y := OnlyInFirst(b.entries.Keys, a.entries.Keys);
      assert false;
    }
  }

  lemma OnlyInFirst<K>(a: set<K>, b: set<K>) returns (x: K)
    requires |a| == |b| && a != b
    ensures x in a && x !in b
  {
    if a <= b {
      SubsetSize(a, b);
      assert false;
    }
    x :| x in a && x !in b;
  }
}
