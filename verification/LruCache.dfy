/** Poco's cache (AbstractCache) under least-recently-used replacement
    (LRUStrategy). The value map and the strategy's list and index are separate
    structures kept in step by notifications; together they represent one list of
    entries, most recently used first. */
module LruCaches {

  import opened Lists
  import opened Options

  datatype Entry<K, V> = Entry(key: K, value: V)

  datatype Op<K, V> =
    | Add(key: K, value: V)
    | Update(key: K, value: V)
    | Get(key: K)
    | Remove(key: K)
    | Clear

  // ---------- the recency list ----------

  ghost predicate DistinctKeys<K, V>(l: seq<Entry<K, V>>) {
    forall i, j | 0 <= i < j < |l| :: l[i].key != l[j].key
  }

  function Without<K(==), V>(l: seq<Entry<K, V>>, k: K): (r: seq<Entry<K, V>>)
    ensures |r| <= |l|
  {
    if |l| == 0 then []
    else if l[0].key == k then Without(l[1..], k)
    else [l[0]] + Without(l[1..], k)
  }

  lemma {:induction false} WithoutMember<K, V>(l: seq<Entry<K, V>>, k: K)
    ensures forall e | e in Without(l, k) :: e in l && e.key != k
    ensures forall e | e in l && e.key != k :: e in Without(l, k)
    ensures Lookup(Without(l, k), k).None?
  {
    if |l| > 0 {
      WithoutMember(l[1..], k);
      assert l == [l[0]] + l[1..];
    }
  }

  function Truncate<T>(l: seq<T>, n: nat): seq<T> { if |l| <= n then l else l[..n] }

  function Lookup<K(==), V>(l: seq<Entry<K, V>>, k: K): (r: Option<V>)
    ensures r.None? <==> forall e | e in l :: e.key != k
    ensures r.Some? ==> Entry(k, r.value) in l
  {
    if |l| == 0 then None
    else if l[0].key == k then Some(l[0].value)
    else Lookup(l[1..], k)
  }

  /** What one operation does to the recency list of a cache of `n` entries. */
  function Step<K(==), V>(l: seq<Entry<K, V>>, n: nat, op: Op<K, V>): seq<Entry<K, V>> {
    match op
    case Add(k, v) => Truncate([Entry(k, v)] + Without(l, k), n)
    case Update(k, v) => Truncate([Entry(k, v)] + Without(l, k), n)
    case Get(k) => (match Lookup(l, k) case None => l case Some(v) => [Entry(k, v)] + Without(l, k))
    case Remove(k) => Without(l, k)
    case Clear => []
  }

  function Run<K(==), V>(n: nat, ops: seq<Op<K, V>>): seq<Entry<K, V>> {
    if |ops| == 0 then [] else Step(Run(n, ops[..|ops| - 1]), n, ops[|ops| - 1])
  }

  lemma RunAppend<K, V>(n: nat, ops: seq<Op<K, V>>, op: Op<K, V>)
    ensures Run(n, ops + [op]) == Step(Run(n, ops), n, op)
  {
    assert (ops + [op])[..|ops|] == ops;
  }

  // ---------- recency ----------

  predicate Uses<K(==), V>(op: Op<K, V>, k: K) {
    match op
    case Add(k', _) => k' == k
    case Update(k', _) => k' == k
    case Get(k') => k' == k
    case Remove(_) => false
    case Clear => false
  }

  /** One more than the index of the last operation that adds, updates or gets
      `k`; 0 if there is none. */
  function LastUse<K(==), V>(ops: seq<Op<K, V>>, k: K): (t: nat)
    ensures t <= |ops| && (t > 0 ==> Uses(ops[t - 1], k))
    ensures forall i | t <= i < |ops| :: !Uses(ops[i], k)
  {
    if |ops| == 0 then 0
    else if Uses(ops[|ops| - 1], k) then |ops|
    else LastUse(ops[..|ops| - 1], k)
  }

  /** The value the last add or update gave `k`. */
  function LastValue<K(==), V>(ops: seq<Op<K, V>>, k: K): Option<V> {
    if |ops| == 0 then None
    else
      match ops[|ops| - 1]
      case Add(k', v) => if k' == k then Some(v) else LastValue(ops[..|ops| - 1], k)
      case Update(k', v) => if k' == k then Some(v) else LastValue(ops[..|ops| - 1], k)
      case _ => LastValue(ops[..|ops| - 1], k)
  }

  ghost predicate SortedByUse<K, V>(l: seq<Entry<K, V>>, ops: seq<Op<K, V>>) {
    forall i, j | 0 <= i < j < |l| :: LastUse(ops, l[i].key) > LastUse(ops, l[j].key)
  }

  ghost predicate Current<K, V>(l: seq<Entry<K, V>>, ops: seq<Op<K, V>>) {
    forall e | e in l :: LastValue(ops, e.key) == Some(e.value)
  }

  lemma SortedTail<K, V>(l: seq<Entry<K, V>>, ops: seq<Op<K, V>>)
    requires SortedByUse(l, ops) && |l| > 0
    ensures SortedByUse(l[1..], ops)
    ensures forall e | e in l[1..] :: LastUse(ops, l[0].key) > LastUse(ops, e.key)
  {
    hide LastUse;
    forall i, j | 0 <= i < j < |l[1..]| ensures LastUse(ops, l[1..][i].key) > LastUse(ops, l[1..][j].key) {
      assert l[1..][i] == l[i + 1] && l[1..][j] == l[j + 1];
    }
  }

  /** `Without` keeps the order of what it keeps. */
  lemma {:induction false} WithoutKeepsOrder<K, V>(l: seq<Entry<K, V>>, k: K, ops: seq<Op<K, V>>)
    requires SortedByUse(l, ops)
    ensures SortedByUse(Without(l, k), ops)
  {
    hide LastUse;
    if |l| > 0 {
      SortedTail(l, ops);
      WithoutKeepsOrder(l[1..], k, ops);
      WithoutMember(l[1..], k);
      var rest := Without(l[1..], k);
      forall j | 0 <= j < |rest| ensures LastUse(ops, l[0].key) > LastUse(ops, rest[j].key) {
        assert rest[j] in l[1..];
      }
    }
  }

  /** Appending an operation changes the last use of the key it uses only. */
  lemma SortedAfter<K, V>(l: seq<Entry<K, V>>, ops: seq<Op<K, V>>, op: Op<K, V>)
    requires SortedByUse(l, ops)
    requires forall e | e in l :: !Uses(op, e.key)
    ensures SortedByUse(l, ops + [op])
  {
    assert (ops + [op])[..|ops|] == ops;
    forall e | e in l ensures LastUse(ops + [op], e.key) == LastUse(ops, e.key) {
    }
  }

  lemma FrontSorted<K, V>(l: seq<Entry<K, V>>, ops: seq<Op<K, V>>, op: Op<K, V>, k: K, v: V)
    requires SortedByUse(l, ops) && Lookup(l, k).None?
    requires Uses(op, k)
    ensures SortedByUse([Entry(k, v)] + l, ops + [op])
  {
    assert (ops + [op])[..|ops|] == ops;
    SortedAfter(l, ops, op);
    assert LastUse(ops + [op], k) == |ops| + 1;
    forall e | e in l ensures LastUse(ops + [op], e.key) <= |ops| {
      assert LastUse(ops + [op], e.key) == LastUse(ops, e.key);
    }
  }

  /** The used key in front of the others. */
  lemma MovedToFront<K, V>(l: seq<Entry<K, V>>, ops: seq<Op<K, V>>, op: Op<K, V>, k: K, v: V)
    requires SortedByUse(l, ops) && Uses(op, k)
    ensures SortedByUse([Entry(k, v)] + Without(l, k), ops + [op])
  {
    hide *;
    WithoutKeepsOrder(l, k, ops);
    WithoutMember(l, k);
    FrontSorted(Without(l, k), ops, op, k, v);
  }

  lemma TruncatedSorted<K, V>(l: seq<Entry<K, V>>, n: nat, ops: seq<Op<K, V>>)
    requires SortedByUse(l, ops)
    ensures SortedByUse(Truncate(l, n), ops)
  {
    hide LastUse;
  }

  lemma RemovalSorted<K, V>(l: seq<Entry<K, V>>, ops: seq<Op<K, V>>, k: K)
    requires SortedByUse(l, ops)
    ensures SortedByUse(Without(l, k), ops + [Remove(k)])
  {
    hide LastUse, SortedByUse, Without;
    WithoutKeepsOrder(l, k, ops);
    WithoutMember(l, k);
    SortedAfter(Without(l, k), ops, Remove(k));
  }

  /** A get that misses changes nothing. */
  lemma MissSorted<K, V>(l: seq<Entry<K, V>>, ops: seq<Op<K, V>>, k: K)
    requires SortedByUse(l, ops) && Lookup(l, k).None?
    ensures SortedByUse(l, ops + [Get(k)])
  {
    hide LastUse, SortedByUse;
    SortedAfter(l, ops, Get(k));
  }

  lemma StepSorted<K, V>(l: seq<Entry<K, V>>, n: nat, ops: seq<Op<K, V>>, op: Op<K, V>)
    requires SortedByUse(l, ops)
    ensures SortedByUse(Step(l, n, op), ops + [op])
  {
    hide LastUse, Without, Truncate, Lookup;
    match op {
      case Clear =>
      case Remove(k) => RemovalSorted(l, ops, k);
      case Add(k, v) =>
        MovedToFront(l, ops, op, k, v);
        TruncatedSorted([Entry(k, v)] + Without(l, k), n, ops + [op]);
      case Update(k, v) =>
        MovedToFront(l, ops, op, k, v);
        TruncatedSorted([Entry(k, v)] + Without(l, k), n, ops + [op]);
      case Get(k) =>
        match Lookup(l, k) {
          case None => MissSorted(l, ops, k);
          case Some(v) => MovedToFront(l, ops, op, k, v);
        }
    }
  }

  lemma StepCurrent<K, V>(l: seq<Entry<K, V>>, n: nat, ops: seq<Op<K, V>>, op: Op<K, V>)
    requires Current(l, ops)
    ensures Current(Step(l, n, op), ops + [op])
  {
    assert (ops + [op])[..|ops|] == ops;
    if !op.Clear? {
      WithoutMember(l, op.key);
    }
  }

  /** Over every run a cache of `n` entries holds at most `n`, lists them strictly
      by their last use, so without repeating a key, and each with the value last
      given to its key. */
  lemma {:induction false} RunIsRecencyOrdered<K, V>(n: nat, ops: seq<Op<K, V>>)
    requires n > 0
    ensures |Run(n, ops)| <= n
    ensures SortedByUse(Run(n, ops), ops)
    ensures DistinctKeys(Run(n, ops))
    ensures Current(Run(n, ops), ops)
  {
    if |ops| > 0 {
      var before, op := ops[..|ops| - 1], ops[|ops| - 1];
      RunIsRecencyOrdered(n, before);
      assert before + [op] == ops;
      StepSorted(Run(n, before), n, before, op);
      StepCurrent(Run(n, before), n, before, op);
      if op.Get? && Lookup(Run(n, before), op.key).Some? {
        WithoutShrinks(Run(n, before), op.key);
      }
    }
  }

  lemma {:induction false} WithoutShrinks<K, V>(l: seq<Entry<K, V>>, k: K)
    requires Lookup(l, k).Some?
    ensures |Without(l, k)| < |l|
  {
    if l[0].key != k {
      WithoutShrinks(l[1..], k);
    }
  }

  lemma {:induction false} WithoutAbsent<K, V>(l: seq<Entry<K, V>>, k: K)
    requires Lookup(l, k).None?
    ensures Without(l, k) == l
  {
    if |l| > 0 {
      assert l[0] in l;
      assert forall e | e in l[1..] :: e in l;
      WithoutAbsent(l[1..], k);
    }
  }

  lemma PushedOut<T>(l: seq<T>, x: T, e: T, n: nat)
    requires n > 0 && |l| <= n && e in l && e !in Truncate([x] + l, n)
    ensures |l| == n && l[n - 1] == e
    ensures forall f | f in l && f != e :: f in Truncate([x] + l, n)
  {
    var added := [x] + l;
    var i :| 0 <= i < |l| && l[i] == e;
    assert added[i + 1] == e;
    assert |l| == n;
    assert Truncate(added, n) == added[..n];
    assert forall j | 0 <= j < n :: added[..n][j] == added[j];
    forall f | f in l && f != e ensures f in added[..n] {
      var j :| 0 <= j < |l| && l[j] == f;
      assert added[..n][j + 1] == f;
    }
  }

  /** An addition evicts only from a full cache, only the entry least recently
      used, and never the key just added. */
  lemma EvictsLeastRecentlyUsed<K, V>(n: nat, ops: seq<Op<K, V>>, op: Op<K, V>, e: Entry<K, V>)
    requires n > 0 && (op.Add? || op.Update?)
    requires e in Run(n, ops) && Lookup(Run(n, ops + [op]), e.key).None?
    ensures Lookup(Run(n, ops + [op]), op.key) == Some(op.value)
    ensures e.key != op.key && |Run(n, ops)| == n && Run(n, ops)[n - 1] == e && Lookup(Run(n, ops), op.key).None?
    ensures forall f | f in Run(n, ops) && f != e :: LastUse(ops, f.key) > LastUse(ops, e.key)
    ensures forall f | f in Run(n, ops) && f != e :: f in Run(n, ops + [op])
  {
    var l := Run(n, ops);
    var x := Entry(op.key, op.value);
    assert (ops + [op])[..|ops|] == ops;
    RunIsRecencyOrdered(n, ops);
    var w := Without(l, op.key);
    assert Truncate([x] + w, n)[0] == x;
    if Lookup(l, op.key).Some? {
      WithoutShrinks(l, op.key);
      WithoutMember(l, op.key);
      assert false;
    }
    WithoutAbsent(l, op.key);
    PushedOut(l, x, e, n);
  }

  // ---------- how long an entry stays ----------

  /** The keys that operations from index `i` on add, update or get. */
  ghost function UsedSince<K, V>(ops: seq<Op<K, V>>, i: nat): set<K>
    requires i <= |ops|
  {
    set j | i <= j < |ops| && (ops[j].Add? || ops[j].Update? || ops[j].Get?) :: ops[j].key
  }

  /** How many keys other than `k` they use. */
  ghost function OtherUses<K, V>(ops: seq<Op<K, V>>, i: nat, k: K): nat
    requires i <= |ops|
  {
    |UsedSince(ops, i) - {k}|
  }

  lemma {:induction false} DistinctCount<K, V>(l: seq<Entry<K, V>>, xs: set<K>)
    requires DistinctKeys(l) && forall e | e in l :: e.key in xs
    ensures |l| <= |xs|
  {
    if |l| > 0 {
      var last := |l| - 1;
      forall e | e in l[..last] ensures e.key in xs - {l[last].key} {
      }
      DistinctCount(l[..last], xs - {l[last].key});
    }
  }

  /** When an addition pushes `k` out, the added key and everything ahead of `k`
      are `n` different keys used after `k` was. */
  lemma EvictionNeedsUses<K, V>(n: nat, ops: seq<Op<K, V>>, op: Op<K, V>, i: nat, e: Entry<K, V>)
    requires n > 0 && (op.Add? || op.Update?)
    requires e in Run(n, ops) && Lookup(Run(n, ops + [op]), e.key).None?
    requires i < |ops| && Uses(ops[i], e.key)
    ensures OtherUses(ops + [op], i + 1, e.key) >= n
  {
    hide Run, UsedSince, LastUse, Lookup;
    EvictsLeastRecentlyUsed(n, ops, op, e);
    RunIsRecencyOrdered(n, ops);
    var l := Run(n, ops);
    var used := UsedSince(ops + [op], i + 1) - {e.key};
    UsedNow(ops, op, i + 1);
    LastUseAfter(ops, i, e.key);
    NotListed(l, op.key);
    forall f | f in l[..n - 1] ensures f.key in used - {op.key} {
      assert f in l && f != e;
      UsedAfter(ops, op, i, f.key);
    }
    DistinctCount(l[..n - 1], used - {op.key});
  }

  lemma NotListed<K, V>(l: seq<Entry<K, V>>, k: K)
    requires Lookup(l, k).None?
    ensures forall f | f in l :: f.key != k
  {
  }

  lemma LastUseAfter<K, V>(ops: seq<Op<K, V>>, i: nat, k: K)
    requires i < |ops| && Uses(ops[i], k)
    ensures LastUse(ops, k) >= i + 1
  {
  }

  lemma UsedNow<K, V>(ops: seq<Op<K, V>>, op: Op<K, V>, i: nat)
    requires i <= |ops| && (op.Add? || op.Update?)
    ensures op.key in UsedSince(ops + [op], i)
  {
    assert (ops + [op])[|ops|] == op;
  }

  lemma UsedAfter<K, V>(ops: seq<Op<K, V>>, op: Op<K, V>, i: nat, k: K)
    requires i + 1 < LastUse(ops, k)
    ensures k in UsedSince(ops + [op], i + 1)
  {
    var t := LastUse(ops, k) - 1;
    assert (ops + [op])[t] == ops[t];
  }

  /** A key stays cached as long as it is neither removed nor cleared and fewer
      than `n` other keys have been used since. */
  lemma {:induction false} Retained<K, V>(n: nat, ops: seq<Op<K, V>>, i: nat, k: K)
    requires n > 0 && i < |ops| && Uses(ops[i], k)
    requires Lookup(Run(n, ops[..i + 1]), k).Some?
    requires forall j | i < j < |ops| :: ops[j] != Remove(k) && !ops[j].Clear?
    requires OtherUses(ops, i + 1, k) < n
    ensures Lookup(Run(n, ops), k).Some?
  {
    hide Run, Step, Truncate, Without, LastUse, OtherUses, Lookup;
    var last := |ops| - 1;
    if i == last {
      assert ops[..i + 1] == ops;
    } else {
      var before, op := ops[..last], ops[last];
      assert before + [op] == ops && before[..i + 1] == ops[..i + 1];
      RunAppend(n, before, op);
      UsedMonotone(before, op, i + 1, k);
      Retained(n, before, i, k);
      if Lookup(Run(n, ops), k).None? {
        var e := Entry(k, Lookup(Run(n, before), k).value);
        LostByAddition(Run(n, before), n, op, e);
        EvictionNeedsUses(n, before, op, i, e);
        assert false;
      }
    }
  }

  lemma LostByAddition<K, V>(l: seq<Entry<K, V>>, n: nat, op: Op<K, V>, e: Entry<K, V>)
    requires e in l && op != Remove(e.key) && !op.Clear?
    requires Lookup(Step(l, n, op), e.key).None?
    ensures op.Add? || op.Update?
  {
    if !op.Clear? {
      WithoutMember(l, op.key);
    }
  }

  lemma UsedMonotone<K, V>(before: seq<Op<K, V>>, op: Op<K, V>, i: nat, k: K)
    requires i <= |before|
    ensures OtherUses(before, i, k) <= OtherUses(before + [op], i, k)
  {
    var ops := before + [op];
    forall x | x in UsedSince(before, i) ensures x in UsedSince(ops, i) {
      var j :| i <= j < |before| && (before[j].Add? || before[j].Update? || before[j].Get?) && before[j].key == x;
      assert ops[j] == before[j];
    }
    SubsetCount(UsedSince(before, i) - {k}, UsedSince(ops, i) - {k});
  }

  lemma {:induction false} SubsetCount<T>(a: set<T>, b: set<T>)
    requires a <= b
    ensures |a| <= |b|
  {
    assert b == a + (b - a);
  }

  // ---------- what each operation leaves ----------

  /** `r` is `l` with the entry of `k`, if there is one, cut out. */
  ghost predicate IsCut<K, V>(l: seq<Entry<K, V>>, r: seq<Entry<K, V>>, k: K) {
    && (forall e | e in r :: e.key != k)
    && (r == l || exists i :: 0 <= i < |l| && l[i].key == k && r == l[..i] + l[i + 1..])
  }

  lemma {:induction false} WithoutAt<K, V>(l: seq<Entry<K, V>>, k: K, i: nat)
    requires DistinctKeys(l) && i < |l| && l[i].key == k
    ensures Without(l, k) == l[..i] + l[i + 1..]
  {
    var t := l[1..];
    assert forall j | 0 <= j < |t| :: t[j] == l[j + 1];
    if i == 0 {
      WithoutAbsent(t, k);
    } else {
      WithoutAt(t, k, i - 1);
      assert l[..i] == [l[0]] + t[..i - 1];
    }
  }

  lemma WithoutCuts<K, V>(l: seq<Entry<K, V>>, k: K)
    requires DistinctKeys(l)
    ensures IsCut(l, Without(l, k), k)
  {
    WithoutMember(l, k);
    if i :| 0 <= i < |l| && l[i].key == k {
      WithoutAt(l, k, i);
    } else {
      WithoutAbsent(l, k);
    }
  }

  /** Each operation in full, for a list without repeated keys. A removal cuts out the
      key's entry and leaves the others in order; a hit moves the entry to the front; an
      addition or update puts an entry in front, in place of the key's old one or, in a
      full cache, of the last one. */
  lemma StepIsExact<K, V>(l: seq<Entry<K, V>>, n: nat, op: Op<K, V>)
    requires DistinctKeys(l) && |l| <= n && n > 0
    ensures var r := Step(l, n, op);
            match op
            case Remove(k) => IsCut(l, r, k)
            case Clear => r == []
            case Get(k) =>
              if forall e | e in l :: e.key != k then r == l
              else |r| == |l| && r[0].key == k && r[0] in l && IsCut(l, r[1..], k)
            case Add(k, v) => Puts(l, r, n, Entry(k, v))
            case Update(k, v) => Puts(l, r, n, Entry(k, v))
  {
    hide Without, Lookup, Truncate;
    if !op.Clear? {
      var k, w := op.key, Without(l, op.key);
      WithoutCuts(l, k);
      match op {
        case Get(_) =>
          if Lookup(l, k).Some? {
            var x := Entry(k, Lookup(l, k).value);
            assert w != l;
            assert ([x] + w)[1..] == w;
          }
        case Add(_, v) => PutsInFront(l, w, n, Entry(k, v));
        case Update(_, v) => PutsInFront(l, w, n, Entry(k, v));
        case Remove(_) =>
      }
    }
  }

  ghost predicate Puts<K, V>(l: seq<Entry<K, V>>, r: seq<Entry<K, V>>, n: nat, e: Entry<K, V>)
    requires n > 0
  {
    && |r| > 0 && r[0] == e
    && if forall f | f in l :: f.key != e.key then r[1..] == (if |l| < n then l else l[..n - 1])
       else |r| == |l| && IsCut(l, r[1..], e.key)
  }

  lemma PutsInFront<K, V>(l: seq<Entry<K, V>>, rest: seq<Entry<K, V>>, n: nat, e: Entry<K, V>)
    requires IsCut(l, rest, e.key) && |l| <= n && n > 0
    ensures Puts(l, Truncate([e] + rest, n), n, e)
  {
    var r := Truncate([e] + rest, n);
    assert r[0] == e;
    if forall f | f in l :: f.key != e.key {
      assert rest == l;
      assert r[1..] == if |l| < n then l else l[..n - 1];
    } else {
      assert rest != l;
      assert r[1..] == rest;
    }
  }

  // ---------- the cache and a map ----------

  ghost function MapStep<K, V>(m: map<K, V>, op: Op<K, V>): map<K, V> {
    match op
    case Add(k, v) => m[k := v]
    case Update(k, v) => m[k := v]
    case Get(_) => m
    case Remove(k) => m - {k}
    case Clear => map[]
  }

  ghost function MapRun<K, V>(ops: seq<Op<K, V>>): map<K, V> {
    if |ops| == 0 then map[] else MapStep(MapRun(ops[..|ops| - 1]), ops[|ops| - 1])
  }

  ghost predicate PartOf<K, V>(l: seq<Entry<K, V>>, m: map<K, V>) {
    forall e | e in l :: e.key in m && m[e.key] == e.value
  }

  lemma StepPart<K, V>(l: seq<Entry<K, V>>, n: nat, op: Op<K, V>, m: map<K, V>)
    requires PartOf(l, m)
    ensures PartOf(Step(l, n, op), MapStep(m, op))
  {
    if !op.Clear? {
      WithoutMember(l, op.key);
    }
  }

  /** Over every run the cache holds nothing that a map would not: what was removed,
      cleared or overwritten is not found again. */
  lemma {:induction false} NeverStale<K, V>(n: nat, ops: seq<Op<K, V>>)
    ensures PartOf(Run(n, ops), MapRun(ops))
  {
    if |ops| > 0 {
      var front := ops[..|ops| - 1];
      NeverStale(n, front);
      StepPart(Run(n, front), n, ops[|ops| - 1], MapRun(front));
    }
  }

  /** The list holds all of the map. */
  ghost predicate AllOf<K, V>(l: seq<Entry<K, V>>, m: map<K, V>) {
    forall k | k in m :: Entry(k, m[k]) in l
  }

  lemma StepAll<K, V>(l: seq<Entry<K, V>>, n: nat, op: Op<K, V>, m: map<K, V>)
    requires PartOf(l, m) && AllOf(l, m)
    requires (op.Add? || op.Update?) ==> |Without(l, op.key)| < n
    ensures AllOf(Step(l, n, op), MapStep(m, op))
  {
    if !op.Clear? {
      WithoutMember(l, op.key);
      var r := Step(l, n, op);
      forall e | e in Without(l, op.key) ensures e in r {
        var j :| 0 <= j < |Without(l, op.key)| && Without(l, op.key)[j] == e;
        assert !op.Remove? && r != l ==> r[j + 1] == e;
      }
      assert op.Add? || op.Update? ==> r[0] == Entry(op.key, op.value);
      assert op.Get? && r != l ==> r[0] == Entry(op.key, Lookup(l, op.key).value);
    }
  }

  lemma {:induction false} LengthByKeys<K, V>(l: seq<Entry<K, V>>, ks: set<K>)
    requires DistinctKeys(l) && forall e | e in l :: e.key in ks
    ensures |l| <= |ks|
  {
    if |l| > 0 {
      var last := |l| - 1;
      forall e | e in l[..last] ensures e.key in ks - {l[last].key} {
        var i :| 0 <= i < last && l[i] == e;
      }
      LengthByKeys(l[..last], ks - {l[last].key});
    }
  }

  /** Keys in the cache have been used. */
  lemma {:induction false} HeldWereUsed<K, V>(n: nat, ops: seq<Op<K, V>>)
    ensures forall e | e in Run(n, ops) :: e.key in UsedSince(ops, 0)
  {
    if |ops| > 0 {
      var front, op := ops[..|ops| - 1], ops[|ops| - 1];
      HeldWereUsed(n, front);
      UsedMore(front, op);
      assert front + [op] == ops;
      if !op.Clear? {
        WithoutMember(Run(n, front), op.key);
      }
    }
  }

  lemma UsedMore<K, V>(front: seq<Op<K, V>>, op: Op<K, V>)
    ensures UsedSince(front, 0) <= UsedSince(front + [op], 0)
    ensures (op.Add? || op.Update? || op.Get?) ==> op.key in UsedSince(front + [op], 0)
  {
    var ops := front + [op];
    assert ops[|front|] == op;
    forall x | x in UsedSince(front, 0) ensures x in UsedSince(ops, 0) {
      var j :| 0 <= j < |front| && (front[j].Add? || front[j].Update? || front[j].Get?) && front[j].key == x;
      assert ops[j] == front[j];
    }
  }

  /** While no more than `n` keys have been used in all, the cache is that map. */
  lemma {:induction false} UnfilledIsMap<K, V>(n: nat, ops: seq<Op<K, V>>)
    requires n > 0 && |UsedSince(ops, 0)| <= n
    ensures PartOf(Run(n, ops), MapRun(ops)) && AllOf(Run(n, ops), MapRun(ops))
  {
    NeverStale(n, ops);
    if |ops| > 0 {
      var front, op := ops[..|ops| - 1], ops[|ops| - 1];
      var l := Run(n, front);
      assert front + [op] == ops;
      UsedMore(front, op);
      SubsetCount(UsedSince(front, 0), UsedSince(ops, 0));
      UnfilledIsMap(n, front);
      if op.Add? || op.Update? {
        WithoutFits(n, front, op);
      }
      StepAll(l, n, op, MapRun(front));
    }
  }

  lemma WithoutFits<K, V>(n: nat, front: seq<Op<K, V>>, op: Op<K, V>)
    requires n > 0 && (op.Add? || op.Update?) && |UsedSince(front + [op], 0)| <= n
    ensures |Without(Run(n, front), op.key)| < n
  {
    var l, w := Run(n, front), Without(Run(n, front), op.key);
    RunIsRecencyOrdered(n, front);
    HeldWereUsed(n, front);
    UsedMore(front, op);
    WithoutMember(l, op.key);
    WithoutKeepsOrder(l, op.key, front);
    SortedDistinct(w, front);
    LengthByKeys(w, UsedSince(front + [op], 0) - {op.key});
  }

  lemma SortedDistinct<K, V>(l: seq<Entry<K, V>>, ops: seq<Op<K, V>>)
    requires SortedByUse(l, ops)
    ensures DistinctKeys(l)
  {
  }

  // ---------- removal from the list representation ----------

  function WithoutAll<K(==), V>(l: seq<Entry<K, V>>, ks: set<K>): (r: seq<Entry<K, V>>) {
    if |l| == 0 then []
    else if l[0].key in ks then WithoutAll(l[1..], ks)
    else [l[0]] + WithoutAll(l[1..], ks)
  }

  lemma {:induction false} WithoutOneMore<K, V>(l: seq<Entry<K, V>>, ks: set<K>, k: K)
    ensures Without(WithoutAll(l, ks), k) == WithoutAll(l, ks + {k})
  {
    if |l| > 0 {
      WithoutOneMore(l[1..], ks, k);
    }
  }

  lemma {:induction false} WithoutNone<K, V>(l: seq<Entry<K, V>>)
    ensures WithoutAll(l, {}) == l
  {
    if |l| > 0 {
      WithoutNone(l[1..]);
    }
  }

  lemma {:induction false} WithoutTail<K, V>(l: seq<Entry<K, V>>, n: nat, ks: set<K>)
    requires n <= |l|
    requires forall i | 0 <= i < |l| :: l[i].key in ks <==> n <= i
    ensures WithoutAll(l, ks) == l[..n]
  {
    if |l| > 0 {
      WithoutTail(l[1..], if n == 0 then 0 else n - 1, ks);
    }
  }

  // ---------- the classes ----------

  /** A node of the strategy's std::list; a list iterator is a reference to one. */
  class ListNode<K> {
    const key: K

    constructor (key: K)
      ensures this.key == key
    {
      this.key := key;
    }
  }

  lemma {:induction false} NodeCount<K>(keys: seq<ListNode<K>>, index: set<K>)
    requires forall i, j | 0 <= i < j < |keys| :: keys[i].key != keys[j].key
    requires forall n | n in keys :: n.key in index
    requires forall k | k in index :: exists n :: n in keys && n.key == k
    ensures |index| == |keys|
  {
    if |keys| == 0 {
      if k :| k in index {
        assert false;
      }
    } else {
      var last := |keys| - 1;
      var k := keys[last].key;
      forall k' | k' in index - {k} ensures exists n :: n in keys[..last] && n.key == k' {
        var n :| n in keys && n.key == k';
        assert n in keys[..last];
      }
      NodeCount(keys[..last], index - {k});
    }
  }

  /** The list holds each key once and the index locates every node of it. */
  ghost predicate Linked<K>(keys: seq<ListNode<K>>, index: map<K, ListNode<K>>) {
    && (forall i, j | 0 <= i < j < |keys| :: keys[i].key != keys[j].key)
    && (forall n | n in keys :: n.key in index && index[n.key] == n)
    && (forall k | k in index :: index[k] in keys && index[k].key == k)
  }

  ghost predicate Covered<K, V>(keys: seq<ListNode<K>>, data: map<K, V>) {
    forall n | n in keys :: n.key in data
  }

  /** The entries of a list of nodes, with the values `data` gives their keys. */
  ghost function EntriesOf<K, V>(keys: seq<ListNode<K>>, data: map<K, V>): (l: seq<Entry<K, V>>)
    requires Covered(keys, data)
    ensures |l| == |keys|
    ensures forall i | 0 <= i < |l| :: l[i] == Entry(keys[i].key, data[keys[i].key])
  {
    if |keys| == 0 then []
    else [Entry(keys[0].key, data[keys[0].key])] + EntriesOf(keys[1..], data)
  }

  lemma {:induction false} ErasedDistinct<K>(keys: seq<ListNode<K>>, node: ListNode<K>)
    requires forall i, j | 0 <= i < j < |keys| :: keys[i].key != keys[j].key
    ensures forall i, j | 0 <= i < j < |Erased(keys, node)| :: Erased(keys, node)[i].key != Erased(keys, node)[j].key
  {
    if |keys| > 0 {
      var t := keys[1..];
      assert forall i | 0 <= i < |t| :: t[i] == keys[i + 1];
      ErasedDistinct(t, node);
      var r := Erased(t, node);
      forall j | 0 <= j < |r| ensures r[j].key != keys[0].key {
        ErasedMember(t, node, r[j]);
      }
    }
  }

  lemma LinkedErased<K>(keys: seq<ListNode<K>>, index: map<K, ListNode<K>>, k: K)
    requires Linked(keys, index) && k in index
    ensures Linked(Erased(keys, index[k]), index - {k})
  {
    var r := Erased(keys, index[k]);
    ErasedDistinct(keys, index[k]);
    forall n | n in r ensures n in keys && n != index[k] {
      ErasedMember(keys, index[k], n);
    }
    forall k' | k' in index && k' != k ensures index[k'] in r {
      ErasedMember(keys, index[k], index[k']);
    }
  }

  lemma {:induction false} EntriesErased<K, V>(keys: seq<ListNode<K>>, data: map<K, V>, node: ListNode<K>)
    requires Covered(keys, data)
    requires forall n | n in keys && n != node :: n.key != node.key
    ensures Covered(Erased(keys, node), data - {node.key})
    ensures EntriesOf(Erased(keys, node), data - {node.key}) == Without(EntriesOf(keys, data), node.key)
  {
    if |keys| > 0 {
      var t := keys[1..];
      assert keys[0] in keys && forall n | n in t :: n in keys;
      EntriesErased(t, data, node);
      assert EntriesOf(keys, data)[1..] == EntriesOf(t, data);
    }
  }

  lemma EntriesWithout<K, V>(keys: seq<ListNode<K>>, index: map<K, ListNode<K>>, data: map<K, V>, k: K)
    requires Linked(keys, index) && Covered(keys, data) && k in index
    ensures Linked(Erased(keys, index[k]), index - {k})
    ensures Covered(Erased(keys, index[k]), data - {k})
    ensures EntriesOf(Erased(keys, index[k]), data - {k}) == Without(EntriesOf(keys, data), k)
  {
    hide EntriesOf, Without;
    LinkedErased(keys, index, k);
    EntriesErased(keys, data, index[k]);
  }

  lemma EntriesAdded<K, V>(node: ListNode<K>, keys: seq<ListNode<K>>, index: map<K, ListNode<K>>, data: map<K, V>, v: V)
    requires Linked(keys, index) && Covered(keys, data) && node.key !in index
    ensures Linked([node] + keys, index[node.key := node])
    ensures Covered([node] + keys, data[node.key := v])
    ensures EntriesOf([node] + keys, data[node.key := v]) == [Entry(node.key, v)] + EntriesOf(keys, data)
  {
    hide EntriesOf;
    LinkedAdded(node, keys, index);
    var all := [node] + keys;
    forall n | n in all ensures n.key in data[node.key := v] {
      assert n == node || n in keys;
    }
    var r, l := EntriesOf(all, data[node.key := v]), EntriesOf(keys, data);
    forall j | 0 <= j < |all| ensures r[j] == ([Entry(node.key, v)] + l)[j] {
      if j > 0 {
        assert all[j] == keys[j - 1] && keys[j - 1] in keys;
      }
    }
  }

  lemma LinkedAdded<K>(node: ListNode<K>, keys: seq<ListNode<K>>, index: map<K, ListNode<K>>)
    requires Linked(keys, index) && node.key !in index
    ensures Linked([node] + keys, index[node.key := node])
  {
    var all := [node] + keys;
    forall n | n in keys ensures n.key in index && n.key != node.key && n in all {
      var j :| 0 <= j < |keys| && keys[j] == n;
      assert all[j + 1] == n;
    }
    assert all[0] == node && all[1..] == keys;
  }

  lemma EntriesDistinct<K, V>(keys: seq<ListNode<K>>, index: map<K, ListNode<K>>, data: map<K, V>)
    requires Linked(keys, index) && Covered(keys, data)
    ensures DistinctKeys(EntriesOf(keys, data))
  {
  }

  lemma {:induction false} LookupPresent<K, V>(keys: seq<ListNode<K>>, data: map<K, V>, node: ListNode<K>)
    requires Covered(keys, data) && node in keys
    ensures Lookup(EntriesOf(keys, data), node.key) == Some(data[node.key])
  {
    if keys[0].key != node.key {
      assert forall n | n in keys[1..] :: n in keys;
      LookupPresent(keys[1..], data, node);
      assert EntriesOf(keys, data)[1..] == EntriesOf(keys[1..], data);
    }
  }

  lemma LookupAbsent<K, V>(keys: seq<ListNode<K>>, data: map<K, V>, k: K)
    requires Covered(keys, data) && k !in data
    ensures Lookup(EntriesOf(keys, data), k).None?
  {
    var l := EntriesOf(keys, data);
    forall e | e in l ensures e.key != k {
      var j :| 0 <= j < |l| && l[j] == e;
      assert keys[j] in keys;
    }
  }

  lemma EntriesLookup<K, V>(keys: seq<ListNode<K>>, index: map<K, ListNode<K>>, data: map<K, V>, k: K)
    requires Linked(keys, index) && data.Keys == index.Keys
    ensures Covered(keys, data)
    ensures Lookup(EntriesOf(keys, data), k) == if k in data then Some(data[k]) else None
    ensures k !in data ==> Without(EntriesOf(keys, data), k) == EntriesOf(keys, data)
  {
    hide EntriesOf, Without, Lookup;
    if k in data {
      LookupPresent(keys, data, index[k]);
    } else {
      LookupAbsent(keys, data, k);
      WithoutAbsent(EntriesOf(keys, data), k);
    }
  }

  class LruStrategy<K(==)> {
    const size: nat
    var keys: seq<ListNode<K>>
    var keyIndex: map<K, ListNode<K>>

    ghost predicate Valid()
      reads this
    {
      size >= 1 && Linked(keys, keyIndex)
    }

    constructor (size: nat)
      requires size >= 1
      ensures Valid() && this.size == size && keys == [] && keyIndex == map[]
    {
      this.size := size;
      keys, keyIndex := [], map[];
    }

    method OnAdd(key: K)
      requires Valid()
      modifies this
      ensures |keys| > 0 && fresh(keys[0]) && keys[0].key == key
      ensures keys == [keys[0]] + old(keys) && keyIndex == old(keyIndex)[key := keys[0]]
    {
      var node := new ListNode(key);
      keys := [node] + keys;
      keyIndex := keyIndex[key := node];
    }

    method OnRemove(key: K)
      requires Valid()
      modifies this
      ensures keyIndex == old(keyIndex) - {key}
      ensures keys == if key in old(keyIndex) then Erased(old(keys), old(keyIndex)[key]) else old(keys)
    {
      if key in keyIndex {
        keys := Erased(keys, keyIndex[key]);
        keyIndex := keyIndex - {key};
      }
    }

    /** The base class's default: a removal and an addition. */
    method OnUpdate(key: K)
      requires Valid()
      modifies this
      ensures |keys| > 0 && fresh(keys[0]) && keys[0].key == key
      ensures keys == [keys[0]] + if key in old(keyIndex) then Erased(old(keys), old(keyIndex)[key]) else old(keys)
      ensures keyIndex == (old(keyIndex) - {key})[key := keys[0]]
    {
      if key in keyIndex {
        LinkedErased(keys, keyIndex, key);
      } else {
        assert keyIndex - {key} == keyIndex;
      }
      OnRemove(key);
      OnAdd(key);
    }

    method OnGet(key: K)
      requires Valid()
      modifies this
      ensures key !in old(keyIndex) ==> keys == old(keys) && keyIndex == old(keyIndex)
      ensures key in old(keyIndex) ==>
        && keys == [old(keyIndex)[key]] + Erased(old(keys), old(keyIndex)[key])
        && keyIndex == (old(keyIndex) - {key})[key := old(keyIndex)[key]]
    {
      if key in keyIndex {
        var node := keyIndex[key];
        keys := [node] + Erased(keys, node);
        keyIndex := keyIndex[key := keys[0]];
      }
    }

    method OnClear()
      modifies this
      ensures keys == [] && keyIndex == map[]
    {
      keys := [];
      keyIndex := map[];
    }

    method OnIsValid(key: K) returns (valid: bool)
      ensures valid <==> key in keyIndex
    {
      valid := key in keyIndex;
    }

    /** Names the keys beyond the first `size`, walking back from the tail. */
    method OnReplace() returns (elemsToRemove: set<K>)
      requires Valid()
      ensures forall i | 0 <= i < |keys| :: keys[i].key in elemsToRemove <==> size <= i
      ensures elemsToRemove <= keyIndex.Keys
    {
      elemsToRemove := {};
      NodeCount(keys, keyIndex.Keys);
      var curSize := |keyIndex|;
      if curSize < size {
        return;
      }
      var diff := curSize - size;
      var it := |keys| - 1;
      var i := 0;
      while i < diff
        invariant 0 <= i <= diff && it == |keys| - 1 - i
        invariant forall j | 0 <= j < |keys| :: keys[j].key in elemsToRemove <==> it < j
        invariant elemsToRemove <= keyIndex.Keys
      {
        i := i + 1;
        assert keys[it] in keys;
        elemsToRemove := elemsToRemove + {keys[it].key};
        if it != 0 {
          it := it - 1;
        }
      }
    }
  }

  /** AbstractCache with an LRU strategy as its only subscriber. */
  class LruCache<K(==), V> {
    const strategy: LruStrategy<K>
    var data: map<K, V>

    /** The strategy's structures and the value map have the same keys; the size
        bound is restored by DoReplace. */
    ghost predicate InStep()
      reads this, strategy
      ensures InStep() ==> Covered(strategy.keys, data)
    {
      strategy.Valid() && data.Keys == strategy.keyIndex.Keys
    }

    ghost predicate Valid()
      reads this, strategy
    {
      InStep() && |strategy.keys| <= strategy.size
    }

    ghost function Entries(): (l: seq<Entry<K, V>>)
      requires InStep()
      reads this, strategy
      ensures |l| == |strategy.keys|
    {
      EntriesOf(strategy.keys, data)
    }

    constructor (size: nat)
      requires size >= 1
      ensures Valid() && fresh(strategy) && strategy.size == size && Entries() == []
    {
      strategy := new LruStrategy(size);
      data := map[];
    }

    /** A size below 1 is refused with an exception by the original. */
    static method Create(size: int) returns (r: Option<LruCache<K, V>>)
      ensures r.None? <==> size < 1
      ensures r.Some? ==> fresh(r.value) && r.value.Valid() && r.value.strategy.size == size && r.value.Entries() == []
    {
      if size < 1 {
        return None;
      }
      var c := new LruCache<K, V>(size);
      r := Some(c);
    }

    method DoRemove(key: K)
      requires InStep()
      modifies this, strategy
      ensures InStep() && Entries() == Without(old(Entries()), key) && data == old(data) - {key}
    {
      hide Linked, EntriesOf, Without, Covered;
      EntriesLookup(strategy.keys, strategy.keyIndex, data, key);
      if key in data {
        EntriesWithout(strategy.keys, strategy.keyIndex, data, key);
        strategy.OnRemove(key);
        data := data - {key};
      }
    }

    method DoReplace()
      requires InStep()
      modifies this, strategy
      ensures Valid() && Entries() == Truncate(old(Entries()), strategy.size)
    {
      hide Linked, EntriesOf, Without, Covered, WithoutAll;
      ghost var l := Entries();
      var delMe := strategy.OnReplace();
      ghost var all, gone := delMe, {};
      WithoutNone(l);
      while delMe != {}
        invariant InStep() && gone + delMe == all && Entries() == WithoutAll(l, gone)
        decreases delMe
      {
        var k :| k in delMe;
        delMe := delMe - {k};
        WithoutOneMore(l, gone, k);
        DoRemove(k);
        gone := gone + {k};
      }
      assert gone == all;
      WithoutTail(l, if |l| <= strategy.size then |l| else strategy.size, all);
    }

    /** Adding a key the strategy does not hold puts it in front. */
    method NotifyAdd(key: K, value: V)
      requires InStep() && key !in data
      modifies this, strategy
      ensures InStep() && Entries() == [Entry(key, value)] + old(Entries())
    {
      hide Linked, EntriesOf, Covered;
      strategy.OnAdd(key);
      EntriesAdded(strategy.keys[0], old(strategy.keys), old(strategy.keyIndex), data, value);
      data := data[key := value];
    }

    method Add(key: K, value: V)
      requires Valid()
      modifies this, strategy
      ensures Valid() && Entries() == Step(old(Entries()), strategy.size, Op.Add(key, value))
    {
      hide Linked, EntriesOf, Without, Covered, Truncate;
      WithoutMember(Entries(), key);
      DoRemove(key);
      EntriesLookup(strategy.keys, strategy.keyIndex, data, key);
      NotifyAdd(key, value);
      DoReplace();
    }

    method Update(key: K, value: V)
      requires Valid()
      modifies this, strategy
      ensures Valid() && Entries() == Step(old(Entries()), strategy.size, Op.Update(key, value))
    {
      hide Linked, EntriesOf, Without, Covered, Truncate;
      EntriesLookup(strategy.keys, strategy.keyIndex, data, key);
      if key !in data {
        NotifyAdd(key, value);
      } else {
        strategy.OnUpdate(key);
        EntriesMoved(strategy.keys[0], old(strategy.keys), old(strategy.keyIndex), data, value);
        data := data[key := value];
      }
      DoReplace();
    }

    method Remove(key: K)
      requires Valid()
      modifies this, strategy
      ensures Valid() && Entries() == Step(old(Entries()), strategy.size, Op.Remove(key))
      ensures IsCut(old(Entries()), Entries(), key) && data == old(data) - {key}
    {
      hide Linked, EntriesOf, Without, Covered, IsCut, DistinctKeys;
      EntriesDistinct(strategy.keys, strategy.keyIndex, data);
      WithoutCuts(Entries(), key);
      DoRemove(key);
    }

    method Has(key: K) returns (result: bool)
      requires Valid()
      ensures result <==> Lookup(Entries(), key).Some?
    {
      result := false;
      EntriesLookup(strategy.keys, strategy.keyIndex, data, key);
      if key in data {
        result := strategy.OnIsValid(key);
      }
    }

    method Get(key: K) returns (result: Option<V>)
      requires Valid()
      modifies this, strategy
      ensures Valid() && Entries() == Step(old(Entries()), strategy.size, Op.Get(key))
      ensures result == Lookup(old(Entries()), key)
    {
      assert key in strategy.keyIndex ==> strategy.keyIndex[key].key == key;
      hide Linked, EntriesOf, Without, Covered, Truncate, Lookup;
      result := None;
      EntriesLookup(strategy.keys, strategy.keyIndex, data, key);
      if key in data {
        WithoutShrinks(Entries(), key);
        strategy.OnGet(key);
        EntriesMoved(strategy.keys[0], old(strategy.keys), old(strategy.keyIndex), data, data[key]);
        assert data[key := data[key]] == data;
        var valid := strategy.OnIsValid(key);
        if !valid {
          // The original removes the entry here; this strategy never asks for it.
          assert false;
        } else {
          result := Some(data[key]);
        }
      }
    }

    method ClearAll()
      requires Valid()
      modifies this, strategy
      ensures Valid() && Entries() == Step(old(Entries()), strategy.size, Op.Clear)
      ensures Entries() == [] && data == map[]
    {
      strategy.OnClear();
      data := map[];
    }

    /** forceReplace() and getAllKeys() start with the same replacement. */
    method Size() returns (n: nat)
      requires Valid()
      modifies this, strategy
      ensures Valid() && Entries() == old(Entries()) && n == |Entries()|
    {
      DoReplace();
      NodeCount(strategy.keys, strategy.keyIndex.Keys);
      n := |data|;
      assert |data| == |data.Keys|;
    }
  }

  /** Taking a key out of the list and adding it again in front. */
  lemma EntriesMoved<K, V>(node: ListNode<K>, keys: seq<ListNode<K>>, index: map<K, ListNode<K>>, data: map<K, V>, v: V)
    requires Linked(keys, index) && Covered(keys, data) && node.key in index
    ensures var rest := Erased(keys, index[node.key]);
            && Linked([node] + rest, (index - {node.key})[node.key := node])
            && Covered([node] + rest, data[node.key := v])
            && EntriesOf([node] + rest, data[node.key := v])
               == [Entry(node.key, v)] + Without(EntriesOf(keys, data), node.key)
  {
    hide Linked, EntriesOf, Without, Covered, Erased;
    var k := node.key;
    EntriesWithout(keys, index, data, k);
    EntriesAdded(node, Erased(keys, index[k]), index - {k}, data - {k}, v);
    assert (data - {k})[k := v] == data[k := v];
  }
}
