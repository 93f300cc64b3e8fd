/** AbstractCache under ExpireStrategy or AccessExpireStrategy. Expired entries are
    removed late, by a replacement or when they are asked for, but nobody can tell:
    the cache answers as an ideal map that keeps everything and looks at the clock. */
module ExpireCaches {
  import opened Options
  import opened ExpireStrategies

  datatype Stamped<V> = Stamped(value: V, time: int)

  // ---------- the ideal cache ----------

  /** What is found at time `now`: the value last given to the key, unless it has
      expired. */
  function Found<K, V>(ideal: map<K, Stamped<V>>, expireTime: int, key: K, now: int): Option<V> {
    if key in ideal && !IsElapsed(ideal[key].time, expireTime, now) then Some(ideal[key].value) else None
  }

  /** An access strategy refreshes what has not expired. */
  function Touched<K, V>(ideal: map<K, Stamped<V>>, expireTime: int, onAccess: bool, key: K, tested: int, now: int)
    : map<K, Stamped<V>>
  {
    if onAccess && key in ideal && !IsElapsed(ideal[key].time, expireTime, tested) then
      ideal[key := ideal[key].(time := now)]
    else ideal
  }

  /** What is added is found for the expiry time. */
  lemma FoundAfterAdd<K, V>(ideal: map<K, Stamped<V>>, expireTime: int, k: K, v: V, now: int, other: K, later: int)
    ensures Found(ideal[k := Stamped(v, now)], expireTime, k, later)
         == if later < now + expireTime then Some(v) else None
    ensures other != k ==>
              Found(ideal[k := Stamped(v, now)], expireTime, other, later) == Found(ideal, expireTime, other, later)
    ensures Found(ideal - {k}, expireTime, k, later).None?
    ensures other != k ==> Found(ideal - {k}, expireTime, other, later) == Found(ideal, expireTime, other, later)
  {
  }

  /** Under access expiry what is got in time is found for another expiry time from then
      on, and what is not, or got under plain expiry, is as if it had not been asked for;
      and so is every other key. */
  lemma FoundAfterGet<K, V>(ideal: map<K, Stamped<V>>, expireTime: int, onAccess: bool, k: K, tested: int, now: int,
                            other: K, later: int)
    ensures var got := Touched(ideal, expireTime, onAccess, k, tested, now);
            && (Found(got, expireTime, k, later)
                == if onAccess && k in ideal && tested < ideal[k].time + expireTime then
                     if later < now + expireTime then Some(ideal[k].value) else None
                   else Found(ideal, expireTime, k, later))
            && (other != k ==> Found(got, expireTime, other, later) == Found(ideal, expireTime, other, later))
  {
  }

  // ---------- what the real one keeps of it ----------

  /** At time `now` the cache holds part of the ideal one, and all that is missing
      has expired. */
  ghost predicate Represents<K, V>(data: map<K, V>, times: map<K, int>, ideal: map<K, Stamped<V>>,
                                   expireTime: int, now: int)
  {
    && data.Keys == times.Keys
    && (forall k | k in data :: k in ideal && ideal[k] == Stamped(data[k], times[k]))
    && (forall k | k in ideal && k !in data :: IsElapsed(ideal[k].time, expireTime, now))
  }

  lemma SameKeys<K, V>(data: map<K, V>, times: map<K, int>, ideal: map<K, Stamped<V>>, expireTime: int, now: int)
    requires Represents(data, times, ideal, expireTime, now)
    ensures data.Keys == times.Keys
  {
  }

  lemma Later<K, V>(data: map<K, V>, times: map<K, int>, ideal: map<K, Stamped<V>>, expireTime: int, now: int,
        later: int)
    requires Represents(data, times, ideal, expireTime, now) && now <= later
    ensures Represents(data, times, ideal, expireTime, later)
  {
  }

  lemma Dropped<K, V>(data: map<K, V>, times: map<K, int>, ideal: map<K, Stamped<V>>, expireTime: int, now: int,
        ks: set<K>)
    requires Represents(data, times, ideal, expireTime, now)
    requires forall k | k in ks && k in times :: IsElapsed(times[k], expireTime, now)
    ensures Represents(data - ks, times - ks, ideal, expireTime, now)
  {
  }

  lemma Stored<K, V>(data: map<K, V>, times: map<K, int>, ideal: map<K, Stamped<V>>, expireTime: int, now: int,
        k: K, v: V)
    requires Represents(data, times, ideal, expireTime, now)
    ensures Represents(data[k := v], times[k := now], ideal[k := Stamped(v, now)], expireTime, now)
  {
  }

  lemma Removed<K, V>(data: map<K, V>, times: map<K, int>, ideal: map<K, Stamped<V>>, expireTime: int, now: int, k: K)
    requires Represents(data, times, ideal, expireTime, now)
    ensures Represents(data - {k}, times - {k}, ideal - {k}, expireTime, now)
  {
  }

  /** A missing key is found in neither. */
  lemma SameAnswer<K, V>(data: map<K, V>, times: map<K, int>, ideal: map<K, Stamped<V>>, expireTime: int, now: int,
        k: K, at: int)
    requires Represents(data, times, ideal, expireTime, now) && now <= at
    ensures Found(ideal, expireTime, k, at)
         == if k in data && !IsElapsed(times[k], expireTime, at) then Some(data[k]) else None
  {
  }

  // ---------- the class ----------

  class ExpireCache<K(==), V> {
    const strategy: ExpireStrategy<K>
    var data: map<K, V>
    /** The ideal cache, and the latest reading of the clock. */
    ghost var ideal: map<K, Stamped<V>>
    ghost var latest: int

    ghost predicate Valid()
      reads this, strategy
    {
      strategy.Valid() && Represents(data, strategy.Times(), ideal, strategy.expireTime, latest)
    }

    constructor (strategy: ExpireStrategy<K>, now: int)
      requires strategy.Valid() && strategy.Times() == map[]
      ensures Valid() && this.strategy == strategy && ideal == map[] && latest == now
    {
      this.strategy := strategy;
      data, ideal, latest := map[], map[], now;
    }

    method DoRemove(key: K)
      requires strategy.Valid() && data.Keys == strategy.Times().Keys
      modifies this`data, strategy
      ensures strategy.Valid() && data == old(data) - {key} && strategy.Times() == old(strategy.Times()) - {key}
      ensures |strategy.keyIndex| <= old(|strategy.keyIndex|)
    {
      if key in data {
        strategy.OnRemove(key);
        data := data - {key};
      }
    }

    method RemoveAll(keys: set<K>)
      requires strategy.Valid() && data.Keys == strategy.Times().Keys
      modifies this`data, strategy
      ensures strategy.Valid() && data == old(data) - keys && strategy.Times() == old(strategy.Times()) - keys
    {
      hide Linked, Ordered, TimesOf;
      ghost var d, times, gone := data, strategy.Times(), {};
      var delMe := keys;
      assert d - {} == d && times - {} == times;
      while delMe != {}
        invariant strategy.Valid() && gone + delMe == keys
        invariant data == d - gone && strategy.Times() == times - gone
        invariant data.Keys == strategy.Times().Keys
        decreases delMe
      {
        var k :| k in delMe;
        delMe := delMe - {k};
        DoRemove(k);
        assert (d - gone) - {k} == d - (gone + {k});
        assert (times - gone) - {k} == times - (gone + {k});
        gone := gone + {k};
      }
      assert gone == keys;
    }

    /** What a replacement removes is expired for the ideal cache, too. */
    method DoReplace(clock: seq<int>)
      requires Valid() && |clock| > |strategy.keyIndex| && Nondecreasing(clock) && latest <= clock[0]
      modifies this`data, this`latest, strategy
      ensures Valid() && latest == clock[|clock| - 1]
      ensures forall k | k in data ::
                k in old(strategy.Times()) && !IsElapsed(old(strategy.Times())[k], strategy.expireTime, clock[0])
    {
      ghost var t, times := clock[|clock| - 1], strategy.Times();
      Later(data, times, ideal, strategy.expireTime, latest, t);
      var delMe := strategy.OnReplace(clock);
      Dropped(data, times, ideal, strategy.expireTime, t, delMe);
      RemoveAll(delMe);
      latest := t;
    }

    /** Strategy and map change together: the key's time becomes `now`. */
    method Store(key: K, value: V, now: int)
      requires Valid() && latest <= now
      modifies this, strategy
      ensures Valid() && ideal == old(ideal)[key := Stamped(value, now)] && latest == now
      ensures |strategy.keyIndex| <= old(|strategy.keyIndex|) + 1
    {
      Later(data, strategy.Times(), ideal, strategy.expireTime, latest, now);
      Stored(data, strategy.Times(), ideal, strategy.expireTime, now, key, value);
      strategy.OnAdd(key, now);
      data := data[key := value];
      ideal, latest := ideal[key := Stamped(value, now)], now;
    }

    method Add(key: K, value: V, now: int, clock: seq<int>)
      requires Valid() && latest <= now
      requires |clock| > |strategy.keyIndex| + 1 && Nondecreasing(clock) && now <= clock[0]
      modifies this, strategy
      ensures Valid() && ideal == old(ideal)[key := Stamped(value, now)] && latest == clock[|clock| - 1]
    {
      Removed(data, strategy.Times(), ideal, strategy.expireTime, latest, key);
      DoRemove(key);
      ideal := ideal - {key};
      Store(key, value, now);
      assert (old(ideal) - {key})[key := Stamped(value, now)] == old(ideal)[key := Stamped(value, now)];
      DoReplace(clock);
    }

    /** The strategy takes an update for a removal and an addition. */
    method Update(key: K, value: V, now: int, clock: seq<int>)
      requires Valid() && latest <= now
      requires |clock| > |strategy.keyIndex| + 1 && Nondecreasing(clock) && now <= clock[0]
      modifies this, strategy
      ensures Valid() && ideal == old(ideal)[key := Stamped(value, now)] && latest == clock[|clock| - 1]
    {
      hide Linked, Ordered, TimesOf, Represents;
      ghost var times := strategy.Times();
      SameKeys(data, times, ideal, strategy.expireTime, latest);
      if key !in data {
        Store(key, value, now);
      } else {
        Later(data, times, ideal, strategy.expireTime, latest, now);
        Stored(data, times, ideal, strategy.expireTime, now, key, value);
        strategy.OnRemove(key);
        strategy.OnAdd(key, now);
        assert (times - {key})[key := now] == times[key := now];
        data := data[key := value];
        ideal, latest := ideal[key := Stamped(value, now)], now;
      }
      DoReplace(clock);
    }

    method Remove(key: K)
      requires Valid()
      modifies this, strategy
      ensures Valid() && ideal == old(ideal) - {key} && latest == old(latest)
    {
      Removed(data, strategy.Times(), ideal, strategy.expireTime, latest, key);
      DoRemove(key);
      ideal := ideal - {key};
    }

    method Has(key: K, now: int) returns (result: bool)
      requires Valid() && latest <= now
      ensures result <==> Found(ideal, strategy.expireTime, key, now).Some?
    {
      SameAnswer(data, strategy.Times(), ideal, strategy.expireTime, latest, key, now);
      result := false;
      if key in data {
        result := strategy.OnIsValid(key, now);
      }
    }

    /** The readings are those of the strategy's onGet, which tests and stamps, and
        of onIsValid. An expired entry is removed here. */
    method Get(key: K, tested: int, now: int, validAt: int) returns (result: Option<V>)
      requires Valid() && latest <= tested <= now <= validAt
      modifies this, strategy
      ensures Valid() && latest == validAt
      ensures ideal == Touched(old(ideal), strategy.expireTime, strategy.onAccess, key, tested, now)
      ensures result == Found(ideal, strategy.expireTime, key, validAt)
    {
      hide Linked, Ordered, TimesOf;
      result := None;
      ghost var times := strategy.Times();
      Later(data, times, ideal, strategy.expireTime, latest, tested);
      ideal := Touched(ideal, strategy.expireTime, strategy.onAccess, key, tested, now);
      if key in data {
        strategy.OnGet(key, tested, now);
        Later(data, strategy.Times(), ideal, strategy.expireTime, tested, validAt);
        SameAnswer(data, strategy.Times(), ideal, strategy.expireTime, validAt, key, validAt);
        var valid := strategy.OnIsValid(key, validAt);
        if !valid {
          Dropped(data, strategy.Times(), ideal, strategy.expireTime, validAt, {key});
          DoRemove(key);
        } else {
          result := Some(data[key]);
        }
      } else {
        Later(data, times, ideal, strategy.expireTime, tested, validAt);
        SameAnswer(data, times, ideal, strategy.expireTime, validAt, key, validAt);
      }
      latest := validAt;
    }

    method ClearAll()
      requires Valid()
      modifies this, strategy
      ensures Valid() && ideal == map[] && latest == old(latest)
    {
      strategy.OnClear();
      data, ideal := map[], map[];
    }

    /** The number of entries after a replacement: everything unexpired at its end
        counts, nothing expired at its beginning does. */
    method Size(clock: seq<int>) returns (n: nat)
      requires Valid() && |clock| > |strategy.keyIndex| && Nondecreasing(clock) && latest <= clock[0]
      modifies this`data, this`latest, strategy
      ensures Valid() && latest == clock[|clock| - 1] && n == |data|
      ensures forall k | k in ideal && Found(ideal, strategy.expireTime, k, latest).Some? :: k in data
      ensures forall k | k in data :: Found(ideal, strategy.expireTime, k, clock[0]).Some?
    {
      DoReplace(clock);
      n := |data|;
    }
  }
}
