/** Poco's time-based replacement: ExpireStrategy and AccessExpireStrategy.
    Each keeps a map from keys to nodes of an index sorted by time. Every reading
    of the clock is a parameter, in microseconds. */
module ExpireStrategies {

  import opened Lists
  import opened Options

  /** A node of the std::multimap from timestamps to keys; an iterator into it is
      a reference to one. */
  class TimeNode<K> {
    const time: int
    const key: K

    constructor (time: int, key: K)
      ensures this.time == time && this.key == key
    {
      this.time, this.key := time, key;
    }
  }

  predicate IsElapsed(time: int, interval: int, now: int) { now - time >= interval }

  ghost predicate Nondecreasing(clock: seq<int>) {
    forall i, j | 0 <= i <= j < |clock| :: clock[i] <= clock[j]
  }

  // ---------- the sorted index ----------

  ghost predicate Sorted<K>(index: seq<TimeNode<K>>) {
    forall i, j | 0 <= i <= j < |index| :: index[i].time <= index[j].time
  }

  ghost predicate DistinctKeys<K>(index: seq<TimeNode<K>>) {
    forall i, j | 0 <= i < j < |index| :: index[i].key != index[j].key
  }

  /** std::multimap::insert: behind the nodes with the same time. */
  function Inserted<K>(index: seq<TimeNode<K>>, node: TimeNode<K>): (r: seq<TimeNode<K>>)
    ensures |r| == |index| + 1
  {
    if |index| == 0 || node.time < index[0].time then [node] + index
    else [index[0]] + Inserted(index[1..], node)
  }

  /** A new node goes behind all that are not later and in front of all that are. */
  lemma {:induction false} InsertedBetween<K>(index: seq<TimeNode<K>>, node: TimeNode<K>) returns (p: nat)
    requires Ordered(index)
    ensures p <= |index| && Inserted(index, node) == index[..p] + [node] + index[p..]
    ensures forall n | n in index[..p] :: n.time <= node.time
    ensures forall n | n in index[p..] :: node.time < n.time
  {
    if |index| == 0 || node.time < index[0].time {
      p := 0;
      assert forall n | n in index :: n == index[0] || n in index[1..];
    } else {
      var q := InsertedBetween(index[1..], node);
      p := q + 1;
      assert index[..p] == [index[0]] + index[1..][..q] && index[p..] == index[1..][q..];
    }
  }

  lemma {:induction false} InsertedMember<K>(index: seq<TimeNode<K>>, node: TimeNode<K>, n: TimeNode<K>)
    ensures n in Inserted(index, node) <==> n == node || n in index
  {
    if |index| > 0 && node.time >= index[0].time {
      InsertedMember(index[1..], node, n);
      assert index == [index[0]] + index[1..];
    }
  }

  /** Sorted and free of repeated keys, read from the front. */
  ghost predicate Ordered<K>(index: seq<TimeNode<K>>) {
    |index| > 0 ==>
      && (forall n | n in index[1..] :: index[0].time <= n.time && index[0].key != n.key)
      && Ordered(index[1..])
  }

  lemma {:induction false} OrderedMeans<K>(index: seq<TimeNode<K>>)
    requires Ordered(index)
    ensures Sorted(index) && DistinctKeys(index)
  {
    if |index| > 0 {
      var t := index[1..];
      OrderedMeans(t);
      forall i, j | 0 <= i < j < |index| ensures index[i].time <= index[j].time && index[i].key != index[j].key {
        assert index[j] == t[j - 1];
        if i > 0 {
          assert index[i] == t[i - 1];
        }
      }
    }
  }

  lemma {:induction false} InsertedOrdered<K>(index: seq<TimeNode<K>>, node: TimeNode<K>)
    requires Ordered(index) && forall n | n in index :: n.key != node.key
    ensures Ordered(Inserted(index, node))
  {
    if |index| > 0 && node.time >= index[0].time {
      var t := index[1..];
      assert forall n | n in t :: n in index;
      InsertedOrdered(t, node);
      forall n | n in Inserted(t, node) ensures index[0].time <= n.time && index[0].key != n.key {
        InsertedMember(t, node, n);
      }
      assert Inserted(index, node)[1..] == Inserted(t, node);
    } else if |index| > 0 {
      var r := [node] + index;
      assert r[1..] == index;
      forall n | n in index ensures node.time <= n.time {
        assert n == index[0] || n in index[1..];
      }
    }
  }

  lemma {:induction false} ErasedOrdered<K>(index: seq<TimeNode<K>>, node: TimeNode<K>)
    requires Ordered(index)
    ensures Ordered(Erased(index, node))
  {
    if |index| > 0 {
      var t := index[1..];
      ErasedOrdered(t, node);
      forall n | n in Erased(t, node) ensures n in t {
        ErasedMember(t, node, n);
      }
      if index[0] != node {
        assert Erased(index, node)[1..] == Erased(t, node);
      }
    }
  }

  // ---------- keys and index in bijection ----------

  ghost predicate Linked<K>(keys: map<K, TimeNode<K>>, index: seq<TimeNode<K>>) {
    && (forall n | n in index :: n.key in keys && keys[n.key] == n)
    && (forall k | k in keys :: keys[k] in index && keys[k].key == k)
  }

  lemma LinkedInserted<K>(keys: map<K, TimeNode<K>>, index: seq<TimeNode<K>>, node: TimeNode<K>)
    requires Linked(keys, index) && Ordered(index) && node.key !in keys
    ensures Linked(keys[node.key := node], Inserted(index, node)) && Ordered(Inserted(index, node))
  {
    InsertedOrdered(index, node);
    forall n | n in Inserted(index, node) ensures n == node || n in index {
      InsertedMember(index, node, n);
    }
    forall n | n in index ensures n in Inserted(index, node) {
      InsertedMember(index, node, n);
    }
    InsertedMember(index, node, node);
  }

  lemma LinkedErased<K>(keys: map<K, TimeNode<K>>, index: seq<TimeNode<K>>, k: K)
    requires Linked(keys, index) && Ordered(index) && k in keys
    ensures Linked(keys - {k}, Erased(index, keys[k])) && Ordered(Erased(index, keys[k]))
  {
    ErasedOrdered(index, keys[k]);
    forall n | n in Erased(index, keys[k]) ensures n in index && n != keys[k] {
      ErasedMember(index, keys[k], n);
    }
    forall k' | k' in keys && k' != k ensures keys[k'] in Erased(index, keys[k]) {
      ErasedMember(index, keys[k], keys[k']);
    }
  }

  /** Inserting the new node before erasing the old one gives the same index. */
  lemma {:induction false} InsertErase<K>(index: seq<TimeNode<K>>, node: TimeNode<K>, old_: TimeNode<K>)
    requires node != old_ && Ordered(index)
    ensures Erased(Inserted(index, node), old_) == Inserted(Erased(index, old_), node)
  {
    if |index| > 0 {
      InsertErase(index[1..], node, old_);
      if node.time < index[0].time {
        assert Inserted(index, node)[1..] == index;
        var r := Erased(index, old_);
        if |r| > 0 {
          ErasedMember(index, old_, r[0]);
          assert r[0] == index[0] || r[0] in index[1..];
        }
      }
    }
  }

  /** A key's node is replaced by a new one, in either order of the two changes. */
  lemma LinkedReplaced<K>(keys: map<K, TimeNode<K>>, index: seq<TimeNode<K>>, node: TimeNode<K>)
    requires Linked(keys, index) && Ordered(index) && node.key in keys && node != keys[node.key]
    ensures var r := Inserted(Erased(index, keys[node.key]), node);
            Linked(keys[node.key := node], r) && Ordered(r) && r == Erased(Inserted(index, node), keys[node.key])
  {
    hide Linked, Ordered, Inserted, Erased;
    var k := node.key;
    InsertErase(index, node, keys[k]);
    LinkedErased(keys, index, k);
    LinkedInserted(keys - {k}, Erased(index, keys[k]), node);
    assert (keys - {k})[k := node] == keys[k := node];
  }

  ghost function TimesOf<K>(keys: map<K, TimeNode<K>>): map<K, int> {
    map k | k in keys :: keys[k].time
  }

  lemma TimesUpdated<K>(keys: map<K, TimeNode<K>>, node: TimeNode<K>)
    ensures TimesOf(keys[node.key := node]) == TimesOf(keys)[node.key := node.time]
  {
  }

  // ---------- what the strategies mean ----------

  datatype Op<K> =
    | Add(key: K, now: int)
    | Get(key: K, tested: int, now: int)
    | Remove(key: K)
    | Clear

  /** The time each key was last added or refreshed. */
  function Step<K>(times: map<K, int>, expireTime: int, onAccess: bool, op: Op<K>): map<K, int> {
    match op
    case Add(k, now) => times[k := now]
    case Get(k, tested, now) =>
      if onAccess && k in times && !IsElapsed(times[k], expireTime, tested) then times[k := now] else times
    case Remove(k) => times - {k}
    case Clear => map[]
  }

  function Run<K>(times: map<K, int>, expireTime: int, onAccess: bool, ops: seq<Op<K>>): map<K, int> {
    if |ops| == 0 then times
    else Step(Run(times, expireTime, onAccess, ops[..|ops| - 1]), expireTime, onAccess, ops[|ops| - 1])
  }

  /** Every reading in the run is at or after `t`. */
  ghost predicate After<K>(ops: seq<Op<K>>, t: int) {
    forall op | op in ops :: (op.Add? ==> t <= op.now) && (op.Get? ==> t <= op.tested <= op.now)
  }

  /** Once a key has expired no access revives it: until it is added again it is
      either gone or still expired, whatever else happens. */
  lemma {:induction false} ExpiredStaysExpired<K>(times: map<K, int>, expireTime: int, onAccess: bool,
                                                 ops: seq<Op<K>>, k: K, t: int)
    requires k in times ==> IsElapsed(times[k], expireTime, t)
    requires After(ops, t) && forall op | op in ops :: !(op.Add? && op.key == k)
    ensures var r := Run(times, expireTime, onAccess, ops);
            k in r ==> k in times && r[k] == times[k] && IsElapsed(r[k], expireTime, t)
  {
    if |ops| > 0 {
      assert forall op | op in ops[..|ops| - 1] :: op in ops;
      ExpiredStaysExpired(times, expireTime, onAccess, ops[..|ops| - 1], k, t);
      assert ops[|ops| - 1] in ops;
    }
  }

  /** When `k`, there since `t`, was last added or got. */
  function LastAccess<K(==)>(t: int, ops: seq<Op<K>>, k: K): int {
    if |ops| == 0 then t
    else
      match ops[|ops| - 1]
      case Add(k', now) => if k' == k then now else LastAccess(t, ops[..|ops| - 1], k)
      case Get(k', _, now) => if k' == k then now else LastAccess(t, ops[..|ops| - 1], k)
      case _ => LastAccess(t, ops[..|ops| - 1], k)
  }

  /** When `k`, there since `t`, was last added. */
  function LastAddition<K(==)>(t: int, ops: seq<Op<K>>, k: K): int {
    if |ops| == 0 then t
    else
      match ops[|ops| - 1]
      case Add(k', now) => if k' == k then now else LastAddition(t, ops[..|ops| - 1], k)
      case _ => LastAddition(t, ops[..|ops| - 1], k)
  }

  /** Whatever else happens, a key that is neither removed nor cleared, and that is
      got again each time before the expiry time is over, is kept alive: it counts
      from its last access, and so expires exactly the expiry time after that. */
  lemma {:induction false} AccessKeepsAlive<K>(times: map<K, int>, expireTime: int, ops: seq<Op<K>>, k: K, later: int)
    requires k in times && forall op | op in ops :: op != Remove(k) && !op.Clear?
    requires forall i | 0 <= i < |ops| && ops[i].Get? && ops[i].key == k ::
               ops[i].tested - LastAccess(times[k], ops[..i], k) < expireTime
    ensures var r := Run(times, expireTime, true, ops);
            && k in r && r[k] == LastAccess(times[k], ops, k)
            && (IsElapsed(r[k], expireTime, later) <==> later - LastAccess(times[k], ops, k) >= expireTime)
  {
    if |ops| > 0 {
      var front := ops[..|ops| - 1];
      assert forall op | op in front :: op in ops;
      forall i | 0 <= i < |front| && front[i].Get? && front[i].key == k
        ensures front[i].tested - LastAccess(times[k], front[..i], k) < expireTime
      {
        assert front[..i] == ops[..i];
      }
      AccessKeepsAlive(times, expireTime, front, k, later);
      assert ops[|ops| - 1] in ops;
    }
  }

  /** Without refresh a key counts from its last addition, however often it is got. */
  lemma {:induction false} AccessDoesNotCount<K>(times: map<K, int>, expireTime: int, ops: seq<Op<K>>, k: K)
    requires k in times && forall op | op in ops :: op != Remove(k) && !op.Clear?
    ensures var r := Run(times, expireTime, false, ops);
            k in r && r[k] == LastAddition(times[k], ops, k)
  {
    if |ops| > 0 {
      var front := ops[..|ops| - 1];
      assert forall op | op in front :: op in ops;
      AccessDoesNotCount(times, expireTime, front, k);
      assert ops[|ops| - 1] in ops;
    }
  }

  /** The keys a replacement selects: walking the index from the oldest node, with
      one reading of the clock per node, it stops at the first unexpired one. */
  function Expired<K>(index: seq<TimeNode<K>>, expireTime: int, clock: seq<int>): (n: nat)
    requires |clock| > |index|
    ensures n <= |index|
    ensures forall i | 0 <= i < n :: IsElapsed(index[i].time, expireTime, clock[i])
    ensures n < |index| ==> !IsElapsed(index[n].time, expireTime, clock[n])
  {
    if |index| == 0 || !IsElapsed(index[0].time, expireTime, clock[0]) then 0
    else 1 + Expired(index[1..], expireTime, clock[1..])
  }

  ghost function KeySet<K>(index: seq<TimeNode<K>>): set<K> {
    set n | n in index :: n.key
  }

  /** With a clock that does not run backwards a replacement selects every key
      expired at its first reading and none unexpired at its last. */
  lemma ReplacementIsExact<K>(keys: map<K, TimeNode<K>>, index: seq<TimeNode<K>>, expireTime: int, clock: seq<int>,
        k: K)
    requires Linked(keys, index) && Ordered(index)
    requires |clock| > |index| && Nondecreasing(clock) && k in keys
    ensures var selected := KeySet(index[..Expired(index, expireTime, clock)]);
            && (IsElapsed(keys[k].time, expireTime, clock[0]) ==> k in selected)
            && (k in selected ==> IsElapsed(keys[k].time, expireTime, clock[Expired(index, expireTime, clock)]))
  {
    OrderedMeans(index);
    var n := Expired(index, expireTime, clock);
    var i :| 0 <= i < |index| && index[i] == keys[k];
    if i < n {
      assert index[..n][i] == keys[k];
      assert clock[i] <= clock[n];
    } else {
      assert index[n].time <= index[i].time && clock[0] <= clock[n];
      assert forall m | m in index[..n] :: m in index;
      if k in KeySet(index[..n]) {
        assert false;
      }
    }
  }

  // ---------- the strategies ----------

  /** `onAccess` tells AccessExpireStrategy, which overrides onGet only, from
      ExpireStrategy. */
  class ExpireStrategy<K(==)> {
    const expireTime: int
    const onAccess: bool
    var keys: map<K, TimeNode<K>>
    var keyIndex: seq<TimeNode<K>>

    ghost predicate Valid()
      reads this
    {
      Linked(keys, keyIndex) && Ordered(keyIndex)
    }

    ghost function Times(): map<K, int>
      reads this
    {
      TimesOf(keys)
    }

    constructor (expireTime: int, onAccess: bool)
      ensures Valid() && this.expireTime == expireTime && this.onAccess == onAccess && Times() == map[]
    {
      this.expireTime, this.onAccess := expireTime, onAccess;
      keys, keyIndex := map[], [];
    }

    /** Less than 25 milliseconds is refused with an exception by the original. */
    static method Create(expireTimeInMilliSec: int, onAccess: bool) returns (r: Option<ExpireStrategy<K>>)
      ensures r.None? <==> expireTimeInMilliSec < 25
      ensures r.Some? ==> fresh(r.value) && r.value.Valid() && r.value.Times() == map[]
                          && r.value.expireTime == 1000 * expireTimeInMilliSec && r.value.onAccess == onAccess
    {
      if expireTimeInMilliSec * 1000 < 25000 {
        return None;
      }
      var s := new ExpireStrategy<K>(expireTimeInMilliSec * 1000, onAccess);
      r := Some(s);
    }

    method OnAdd(key: K, now: int)
      requires Valid()
      modifies this
      ensures Valid() && Times() == Step(old(Times()), expireTime, onAccess, Add(key, now))
      ensures |keyIndex| <= old(|keyIndex|) + 1
    {
      hide Linked, Ordered, Inserted, Erased, TimesOf;
      var node := new TimeNode(now, key);
      TimesUpdated(keys, node);
      ghost var before := keyIndex;
      keyIndex := Inserted(keyIndex, node);
      if key in keys {
        LinkedReplaced(keys, before, node);
        keyIndex := Erased(keyIndex, keys[key]);
        keys := keys[key := node];
      } else {
        LinkedInserted(keys, before, node);
        keys := keys[key := node];
      }
    }

    method OnRemove(key: K)
      requires Valid()
      modifies this
      ensures Valid() && Times() == Step(old(Times()), expireTime, onAccess, Remove(key))
      ensures |keyIndex| <= old(|keyIndex|)
    {
      if key in keys {
        LinkedErased(keys, keyIndex, key);
        keyIndex := Erased(keyIndex, keys[key]);
        keys := keys - {key};
      }
    }

    /** `tested` is the reading isElapsed takes, `now` the later one that stamps
        the refreshed node. */
    method OnGet(key: K, tested: int, now: int)
      requires Valid() && tested <= now
      modifies this
      ensures Valid() && Times() == Step(old(Times()), expireTime, onAccess, Get(key, tested, now))
    {
      hide Linked, Ordered, Inserted, Erased;
      if onAccess {
        if key in keys {
          if !IsElapsed(keys[key].time, expireTime, tested) {
            ghost var before := keyIndex;
            keyIndex := Erased(keyIndex, keys[key]);
            var node := new TimeNode(now, key);
            LinkedReplaced(keys, before, node);
            TimesUpdated(keys, node);
            keyIndex := Inserted(keyIndex, node);
            keys := keys[key := node];
          }
        }
      }
    }

    method OnClear()
      modifies this
      ensures Valid() && Times() == Step(old(Times()), expireTime, onAccess, Clear)
    {
      keys, keyIndex := map[], [];
    }

    method OnIsValid(key: K, now: int) returns (valid: bool)
      requires Valid()
      ensures valid <==> key in Times() && !IsElapsed(Times()[key], expireTime, now)
    {
      valid := true;
      if key in keys {
        if IsElapsed(keys[key].time, expireTime, now) {
          valid := false;
        }
      } else {
        valid := false;
      }
    }

    /** `clock` holds the readings the loop test takes, one per node tested. */
    method OnReplace(clock: seq<int>) returns (elemsToRemove: set<K>)
      requires Valid() && |clock| > |keyIndex| && Nondecreasing(clock)
      ensures elemsToRemove == KeySet(keyIndex[..Expired(keyIndex, expireTime, clock)])
      ensures forall k | k in Times() && IsElapsed(Times()[k], expireTime, clock[0]) :: k in elemsToRemove
      ensures forall k | k in elemsToRemove ::
                k in Times() && IsElapsed(Times()[k], expireTime, clock[Expired(keyIndex, expireTime, clock)])
    {
      elemsToRemove := {};
      var it := 0;
      while it != |keyIndex| && IsElapsed(keyIndex[it].time, expireTime, clock[it])
        invariant 0 <= it <= |keyIndex|
        invariant forall i | 0 <= i < it :: IsElapsed(keyIndex[i].time, expireTime, clock[i])
        invariant elemsToRemove == KeySet(keyIndex[..it])
        decreases |keyIndex| - it
      {
        assert keyIndex[..it + 1] == keyIndex[..it] + [keyIndex[it]];
        elemsToRemove := elemsToRemove + {keyIndex[it].key};
        it := it + 1;
      }
      assert it == Expired(keyIndex, expireTime, clock);
      forall k | k in keys
        ensures IsElapsed(keys[k].time, expireTime, clock[0]) ==> k in elemsToRemove
        ensures k in elemsToRemove ==> IsElapsed(keys[k].time, expireTime, clock[it])
      {
        ReplacementIsExact(keys, keyIndex, expireTime, clock, k);
      }
      forall k | k in elemsToRemove ensures k in keys {
        var n :| n in keyIndex[..it] && n.key == k;
        assert n in keyIndex;
      }
    }
  }
}
