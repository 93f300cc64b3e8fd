/** Poco's linear hash table: buckets are split one at a time on insertion and
    merged one at a time on erasure, so that a table of n values always has n + 1
    buckets.

    The class below updates its fields in place as the original does; every method
    is proved against a function on table values, and the properties of the table
    are lemmas about those functions. */
module LinearHashTables {
  import opened Arithmetic

  /** The data members of a table. */
  datatype Table<V> = Table(buckets: seq<seq<V>>, split: nat, front: nat, size: nat)

  /** Where an iterator points: a bucket and an index into it. */
  datatype Position = Position(vec: nat, buck: nat)

  datatype Op<V> = Insert(value: V) | Erase(value: V) | Clear

  // ---------- addressing ----------

  function BucketAddress(hash: nat, split: nat, front: nat): (addr: nat)
    requires front > 0
  {
    if hash % front >= split then hash % front else hash % (2 * front)
  }

  predicate IsPowerOfTwo(n: nat) {
    n == 1 || (n > 0 && n % 2 == 0 && IsPowerOfTwo(n / 2))
  }

  lemma DoubledModulus(hash: nat, front: nat)
    requires front > 0
    ensures hash % (2 * front) == hash % front || hash % (2 * front) == hash % front + front
  {
    var q := hash / front;
    var r := hash % front;
    assert hash == q * front + r;
    if q % 2 == 0 {
      assert hash == (q / 2) * (2 * front) + r;
      ModulusUnique(hash, 2 * front, q / 2, r);
    } else {
      assert hash == (q / 2) * (2 * front) + (r + front) by {
        assert q == 2 * (q / 2) + 1;
        assert q * front == (2 * (q / 2)) * front + front;
        assert (2 * (q / 2)) * front == (q / 2) * (2 * front);
      }
      ModulusUnique(hash, 2 * front, q / 2, r + front);
    }
  }

  /** Every address falls on an existing bucket. */
  lemma AddressInRange(hash: nat, split: nat, front: nat)
    requires front > 0 && split <= front
    ensures BucketAddress(hash, split, front) < front + split
  {
    DoubledModulus(hash, front);
  }

  /** Advancing the split pointer moves only the values of the bucket it leaves,
      and moves them only to that bucket or to the new last one. */
  lemma AddressAfterSplit(hash: nat, split: nat, front: nat)
    requires front > 0 && split < front
    ensures var before := BucketAddress(hash, split, front);
            var after := BucketAddress(hash, split + 1, front);
            && (before != split ==> after == before && after != front + split)
            && (before == split ==> after == split || after == front + split)
            && (after == split || after == front + split ==> before == split)
  {
    DoubledModulus(hash, front);
  }

  /** Once every bucket has been split, doubling `front` and restarting the split
      pointer leaves every address as it was. */
  lemma AddressAfterDoubling(hash: nat, front: nat)
    requires front > 0
    ensures BucketAddress(hash, 0, 2 * front) == BucketAddress(hash, front, front)
  {
  }

  /** A hash counts modulo twice the front. One below the number of buckets is its own
      address, and the others wait in the bucket that has yet to be split. */
  lemma AddressIsExact(a: nat, rounds: nat, split: nat, front: nat)
    requires split <= front && a < 2 * front
    ensures BucketAddress(rounds * (2 * front) + a, split, front) == if a < front + split then a else a - front
  {
    var hash := rounds * (2 * front) + a;
    ModulusUnique(hash, 2 * front, rounds, a);
    if a < front {
      assert rounds * (2 * front) == (2 * rounds) * front;
      ModulusUnique(hash, front, 2 * rounds, a);
    } else {
      assert rounds * (2 * front) + front == (2 * rounds + 1) * front;
      ModulusUnique(hash, front, 2 * rounds + 1, a - front);
    }
  }

  // ---------- contents ----------

  ghost function Contents<V>(bs: seq<seq<V>>): multiset<V> {
    if |bs| == 0 then multiset{} else Contents(bs[..|bs| - 1]) + multiset(bs[|bs| - 1])
  }

  lemma {:induction false} ContentsUpdate<V>(bs: seq<seq<V>>, i: nat, b: seq<V>)
    requires i < |bs|
    ensures Contents(bs[i := b]) + multiset(bs[i]) == Contents(bs) + multiset(b)
  {
    var last := |bs| - 1;
    if i == last {
      assert bs[i := b][..last] == bs[..last];
    } else {
      ContentsUpdate(bs[..last], i, b);
      assert bs[i := b][..last] == bs[..last][i := b];
      assert bs[i := b][last] == bs[last];
      calc {
        Contents(bs[i := b]) + multiset(bs[i]);
        Contents(bs[..last][i := b]) + multiset(bs[..last][i]) + multiset(bs[last]);
        Contents(bs) + multiset(b);
      }
    }
  }

  lemma ContentsAppend<V>(bs: seq<seq<V>>, i: nat, v: V)
    requires i < |bs|
    ensures Contents(bs[i := bs[i] + [v]]) == Contents(bs) + multiset{v}
  {
    var m := multiset(bs[i]);
    ContentsUpdate(bs, i, bs[i] + [v]);
    assert multiset(bs[i] + [v]) == m + multiset{v};
    MultisetCancel(Contents(bs) + multiset{v}, Contents(bs[i := bs[i] + [v]]), m, multiset{});
  }

  lemma ContentsRemove<V>(bs: seq<seq<V>>, i: nat, k: nat)
    requires i < |bs| && k < |bs[i]|
    ensures Contents(bs[i := RemoveAt(bs[i], k)]) + multiset{bs[i][k]} == Contents(bs)
  {
    var b := bs[i];
    assert b == b[..k] + [b[k]] + b[k + 1..];
    assert multiset(b) == multiset(RemoveAt(b, k)) + multiset{b[k]};
    ContentsUpdate(bs, i, RemoveAt(b, k));
    MultisetCancel(Contents(bs[i := RemoveAt(b, k)]), Contents(bs), multiset(RemoveAt(b, k)), multiset{b[k]});
  }

  lemma {:induction false} ContentsMember<V>(bs: seq<seq<V>>, v: V)
    ensures v in Contents(bs) <==> exists i :: 0 <= i < |bs| && v in bs[i]
  {
    if |bs| > 0 {
      var last := |bs| - 1;
      ContentsMember(bs[..last], v);
      if v in Contents(bs[..last]) {
        var i :| 0 <= i < last && v in bs[..last][i];
        assert v in bs[i];
      }
      if i :| 0 <= i < |bs| && v in bs[i] {
        if i < last {
          assert v in bs[..last][i];
        }
      }
    }
  }

  // ---------- the invariant ----------

  ghost predicate Placed<V>(t: Table<V>, hash: V -> nat)
    requires t.front > 0
  {
    forall i, v | 0 <= i < |t.buckets| && v in t.buckets[i] :: BucketAddress(hash(v), t.split, t.front) == i
  }

  ghost predicate Distinct<V>(t: Table<V>) {
    forall v | v in Contents(t.buckets) :: Contents(t.buckets)[v] == 1
  }

  /** What holds whenever buckets and split pointer are in step; insertion and
      erasure break `Counted` between their two halves. */
  ghost predicate Consistent<V>(t: Table<V>, hash: V -> nat) {
    && IsPowerOfTwo(t.front)
    && t.split <= t.front
    && |t.buckets| == t.front + t.split
    && Placed(t, hash)
    && Distinct(t)
    && |Contents(t.buckets)| == t.size
  }

  ghost predicate Inv<V>(t: Table<V>, hash: V -> nat) {
    Consistent(t, hash) && |t.buckets| == t.size + 1
  }

  ghost function Elements<V>(t: Table<V>): set<V> {
    set v | v in Contents(t.buckets)
  }

  /** The part of `s` that addressing sends to bucket `addr`, in order. */
  function Landing<V>(s: seq<V>, hash: V -> nat, split: nat, front: nat, addr: nat): seq<V>
    requires front > 0
  {
    if |s| == 0 then []
    else
      var rest := Landing(s[..|s| - 1], hash, split, front, addr);
      var v := s[|s| - 1];
      if BucketAddress(hash(v), split, front) == addr then rest + [v] else rest
  }

  lemma {:induction false} LandingMember<V>(s: seq<V>, hash: V -> nat, split: nat, front: nat, addr: nat, v: V)
    requires front > 0
    ensures v in Landing(s, hash, split, front, addr)
       <==> v in s && BucketAddress(hash(v), split, front) == addr
  {
    if |s| > 0 {
      LandingMember(s[..|s| - 1], hash, split, front, addr, v);
      assert s == s[..|s| - 1] + [s[|s| - 1]];
    }
  }

  lemma {:induction false} LandingPartition<V>(s: seq<V>, hash: V -> nat, split: nat, front: nat, a: nat, b: nat)
    requires front > 0 && a != b
    requires forall v | v in s :: BucketAddress(hash(v), split, front) in {a, b}
    ensures multiset(Landing(s, hash, split, front, a)) + multiset(Landing(s, hash, split, front, b)) == multiset(s)
  {
    if |s| > 0 {
      LandingPartition(s[..|s| - 1], hash, split, front, a, b);
      assert s == s[..|s| - 1] + [s[|s| - 1]];
    }
  }

  // ---------- what the methods compute ----------

  function EmptyTable<V>(): Table<V> { Table([[]], 0, 1, 0) }

  /** The split pointer is put back to 0, with `front` doubled, once it has
      reached `front`. */
  function Rewound<V>(t: Table<V>): Table<V> {
    if t.split == t.front then t.(split := 0, front := 2 * t.front) else t
  }

  function SplitTable<V>(t: Table<V>, hash: V -> nat): Table<V>
    requires 0 < t.front && t.split <= t.front && |t.buckets| == t.front + t.split
  {
    var r := Rewound(t);
    var tmp := r.buckets[r.split];
    var stay := Landing(tmp, hash, r.split + 1, r.front, r.split);
    var move := Landing(tmp, hash, r.split + 1, r.front, |r.buckets|);
    Table(r.buckets[r.split := stay] + [move], r.split + 1, r.front, t.size)
  }

  function Unwound<V>(t: Table<V>): Table<V> {
    if t.split == 0 then t.(split := t.front / 2, front := t.front / 2) else t
  }

  function MergeTable<V>(t: Table<V>): Table<V>
    requires t.split <= t.front && IsPowerOfTwo(t.front) && |t.buckets| == t.front + t.split && |t.buckets| > 1
  {
    var u := Unwound(t);
    var last := |u.buckets| - 1;
    Table(u.buckets[..last][u.split - 1 := u.buckets[u.split - 1] + u.buckets[last]], u.split - 1, u.front, t.size)
  }

  function AddressOf<V>(t: Table<V>, hash: V -> nat, v: V): (addr: nat)
    requires t.front > 0 && t.split <= t.front && |t.buckets| == t.front + t.split
    ensures addr < |t.buckets|
  {
    AddressInRange(hash(v), t.split, t.front);
    BucketAddress(hash(v), t.split, t.front)
  }

  function IndexOf<V(==)>(s: seq<V>, v: V): (i: nat)
    ensures i <= |s| && v !in s[..i] && (i < |s| ==> s[i] == v)
  {
    if |s| == 0 || s[0] == v then 0
    else
      var i := IndexOf(s[1..], v);
      assert s[..i + 1] == [s[0]] + s[1..][..i];
      1 + i
  }

  function InsertTable<V(==)>(t: Table<V>, hash: V -> nat, v: V): Table<V>
    requires 0 < t.front && t.split <= t.front && |t.buckets| == t.front + t.split
  {
    if v in t.buckets[AddressOf(t, hash, v)] then t
    else
      var s := SplitTable(t, hash);
      var addr := AddressOf(s, hash, v);
      s.(buckets := s.buckets[addr := s.buckets[addr] + [v]], size := s.size + 1)
  }

  function RemoveAt<V>(s: seq<V>, i: nat): seq<V>
    requires i < |s|
  {
    s[..i] + s[i + 1..]
  }

  predicate Dereferenceable<V>(t: Table<V>, p: Position) {
    p.vec < |t.buckets| && p.buck < |t.buckets[p.vec]|
  }

  function EraseAt<V>(t: Table<V>, p: Position): Table<V>
    requires t.split <= t.front && IsPowerOfTwo(t.front) && |t.buckets| == t.front + t.split && |t.buckets| > 1
    requires t.size > 0 && Dereferenceable(t, p)
  {
    MergeTable(t.(buckets := t.buckets[p.vec := RemoveAt(t.buckets[p.vec], p.buck)], size := t.size - 1))
  }

  /** The position of `v`, or the end. */
  function FindPosition<V(==)>(t: Table<V>, hash: V -> nat, v: V): (p: Position)
    requires 0 < t.front && t.split <= t.front && |t.buckets| == t.front + t.split
  {
    var addr := AddressOf(t, hash, v);
    var i := IndexOf(t.buckets[addr], v);
    if i < |t.buckets[addr]| then Position(addr, i) else Position(|t.buckets|, 0)
  }

  ghost function EraseTable<V>(t: Table<V>, hash: V -> nat, v: V): Table<V>
    requires Inv(t, hash)
  {
    var p := FindPosition(t, hash, v);
    if p.vec == |t.buckets| then t else
      ContentsMember(t.buckets, v);
      EraseAt(t, p)
  }


  // ---------- split and merge keep the invariant ----------

  /** An element reached by an iterator is counted, so the table is not empty. */
  lemma DereferenceableIsCounted<V>(t: Table<V>, p: Position)
    requires Dereferenceable(t, p) && |Contents(t.buckets)| == t.size
    ensures t.size > 0 && t.buckets[p.vec][p.buck] in Contents(t.buckets)
  {
    hide BucketAddress;
    var v := t.buckets[p.vec][p.buck];
    ContentsMember(t.buckets, v);
    assert v in t.buckets[p.vec];
  }

  lemma RewoundPlaced<V>(t: Table<V>, hash: V -> nat)
    requires t.front > 0 && Placed(t, hash)
    ensures Rewound(t).front > 0 && Placed(Rewound(t), hash)
  {
    hide BucketAddress;
    if t.split == t.front {
      forall i, v | 0 <= i < |t.buckets| && v in t.buckets[i]
        ensures BucketAddress(hash(v), 0, 2 * t.front) == i
      {
        AddressAfterDoubling(hash(v), t.front);
      }
    }
  }

  lemma RewoundConsistent<V>(t: Table<V>, hash: V -> nat)
    requires Consistent(t, hash)
    ensures Consistent(Rewound(t), hash) && Rewound(t).split < Rewound(t).front
  {
    hide BucketAddress, Placed, Contents;
    RewoundPlaced(t, hash);
  }

  lemma UnwoundPlaced<V>(t: Table<V>, hash: V -> nat)
    requires t.front > 1 && t.front % 2 == 0 && Placed(t, hash)
    ensures Unwound(t).front > 0 && Placed(Unwound(t), hash)
  {
    hide BucketAddress;
    if t.split == 0 {
      forall i, v | 0 <= i < |t.buckets| && v in t.buckets[i]
        ensures BucketAddress(hash(v), t.front / 2, t.front / 2) == i
      {
        AddressAfterDoubling(hash(v), t.front / 2);
      }
    }
  }

  lemma UnwoundConsistent<V>(t: Table<V>, hash: V -> nat)
    requires Consistent(t, hash) && |t.buckets| > 1
    ensures Consistent(Unwound(t), hash) && Unwound(t).split > 0
  {
    hide BucketAddress, Placed, Contents;
    if t.split == 0 {
      UnwoundPlaced(t, hash);
    }
  }

  lemma SplitPlaces<V>(t: Table<V>, hash: V -> nat)
    requires Consistent(t, hash)
    ensures Placed(SplitTable(t, hash), hash)
  {
    RewoundConsistent(t, hash);
    var r, s := Rewound(t), SplitTable(t, hash);
    forall i, v | 0 <= i < |s.buckets| && v in s.buckets[i]
      ensures BucketAddress(hash(v), s.split, s.front) == i
    {
      if i == r.split || i == |r.buckets| {
        LandingMember(r.buckets[r.split], hash, s.split, s.front, i, v);
      } else {
        assert v in r.buckets[i];
        AddressAfterSplit(hash(v), r.split, r.front);
      }
    }
  }

  /** Everything in the bucket being split stays there or goes to the new one. */
  lemma MovedOut<V>(t: Table<V>, hash: V -> nat, v: V)
    requires Consistent(t, hash) && v in t.buckets[Rewound(t).split]
    ensures var s := SplitTable(t, hash);
            && s.front > 0 && s.split == Rewound(t).split + 1
            && BucketAddress(hash(v), s.split, s.front) in {Rewound(t).split, |t.buckets|}
  {
    hide Contents, Distinct;
    RewoundConsistent(t, hash);
    AddressAfterSplit(hash(v), Rewound(t).split, Rewound(t).front);
  }

  /** The bucket that is split is shared out between itself and the new one. */
  lemma SplitPartitions<V>(t: Table<V>, hash: V -> nat)
    requires Consistent(t, hash)
    ensures var r, s := Rewound(t), SplitTable(t, hash);
            r.split < |r.buckets| && |s.buckets| == |t.buckets| + 1
            && multiset(s.buckets[r.split]) + multiset(s.buckets[|t.buckets|]) == multiset(t.buckets[r.split])
  {
    hide BucketAddress, Contents, Distinct, Placed;
    RewoundConsistent(t, hash);
    var r, s := Rewound(t), SplitTable(t, hash);
    forall v | v in r.buckets[r.split]
      ensures BucketAddress(hash(v), s.split, s.front) in {r.split, |r.buckets|}
    {
      MovedOut(t, hash, v);
    }
    LandingPartition(r.buckets[r.split], hash, s.split, s.front, r.split, |r.buckets|);
  }

  /** Moving one bucket's values into itself and a new last bucket. */
  lemma SharedOut<V>(bs: seq<seq<V>>, i: nat, stay: seq<V>, move: seq<V>)
    requires i < |bs| && multiset(stay) + multiset(move) == multiset(bs[i])
    ensures Contents(bs[i := stay] + [move]) == Contents(bs)
  {
    var r := bs[i := stay] + [move];
    assert r[..|bs|] == bs[i := stay];
    ContentsUpdate(bs, i, stay);
    MultisetCancel(Contents(bs[i := stay]), Contents(bs), multiset(stay), multiset(move));
  }

  lemma MultisetCancel<V>(a: multiset<V>, b: multiset<V>, s: multiset<V>, m: multiset<V>)
    requires a + (s + m) == b + s
    ensures a + m == b
  {
    assert forall v | v in a + m :: (a + m)[v] == (a + (s + m))[v] - s[v];
    assert forall v | v in b :: b[v] == (b + s)[v] - s[v];
  }

  /** Splitting keeps every value, touches only the bucket the split pointer
      designates and the new last one, and leaves addressing exact. */
  lemma SplitPreserves<V>(t: Table<V>, hash: V -> nat)
    requires Consistent(t, hash)
    ensures var s := SplitTable(t, hash);
            && Consistent(s, hash)
            && Contents(s.buckets) == Contents(t.buckets)
            && |s.buckets| == |t.buckets| + 1
            && forall i | 0 <= i < |t.buckets| && i != Rewound(t).split :: s.buckets[i] == t.buckets[i]
  {
    hide BucketAddress, Placed, Contents;
    RewoundConsistent(t, hash);
    SplitPlaces(t, hash);
    SplitPartitions(t, hash);
    var r, s := Rewound(t), SplitTable(t, hash);
    SharedOut(r.buckets, r.split, s.buckets[r.split], s.buckets[|r.buckets|]);
  }

  lemma MergePlaces<V>(t: Table<V>, hash: V -> nat)
    requires Consistent(t, hash) && |t.buckets| > 1
    ensures MergeTable(t).front > 0 && Placed(MergeTable(t), hash)
  {
    UnwoundConsistent(t, hash);
    var u, m := Unwound(t), MergeTable(t);
    forall i, v | 0 <= i < |m.buckets| && v in m.buckets[i]
      ensures BucketAddress(hash(v), m.split, m.front) == i
    {
      AddressAfterSplit(hash(v), m.split, m.front);
      assert v in u.buckets[i] || (i == m.split && v in u.buckets[|m.buckets|]);
    }
  }

  /** Merging keeps every value, empties only the last bucket into the one the
      split pointer retreats to, and leaves addressing exact. */
  lemma MergePreserves<V>(t: Table<V>, hash: V -> nat)
    requires Consistent(t, hash) && |t.buckets| > 1
    ensures var m := MergeTable(t);
            && Consistent(m, hash)
            && Contents(m.buckets) == Contents(t.buckets)
            && |m.buckets| == |t.buckets| - 1
            && forall i | 0 <= i < |t.buckets| - 1 && i != m.split :: m.buckets[i] == t.buckets[i]
  {
    hide BucketAddress, Placed, Contents;
    UnwoundConsistent(t, hash);
    MergePlaces(t, hash);
    var m := MergeTable(t);
    var last := |m.buckets|;
    assert t.buckets == m.buckets[m.split := t.buckets[m.split]] + [t.buckets[last]];
    SharedOut(m.buckets, m.split, t.buckets[m.split], t.buckets[last]);
  }

  /** A merge directly after a split restores every bucket up to the order of the
      values in the one bucket that was split. */
  lemma MergeUndoesSplit<V>(t: Table<V>, hash: V -> nat)
    requires Consistent(t, hash)
    ensures var s := SplitTable(t, hash);
            && Consistent(s, hash) && |s.buckets| > 1
            && var m := MergeTable(s);
               && m.(buckets := t.buckets) == Rewound(t)
               && |m.buckets| == |t.buckets|
               && forall i | 0 <= i < |t.buckets| :: multiset(m.buckets[i]) == multiset(t.buckets[i])
  {
    hide BucketAddress, Placed, Distinct, Contents;
    SplitPreserves(t, hash);
    RewoundConsistent(t, hash);
    SplitPartitions(t, hash);
    var r, s := Rewound(t), SplitTable(t, hash);
    var m := MergeTable(s);
    assert m.buckets[r.split] == s.buckets[r.split] + s.buckets[|t.buckets|];
  }

  /** Everything in the last bucket goes back to the one it was split from. */
  lemma MovedBack<V>(t: Table<V>, hash: V -> nat, v: V)
    requires Consistent(t, hash) && |t.buckets| > 1 && v in t.buckets[|t.buckets| - 1]
    ensures var m := MergeTable(t); m.front > 0 && BucketAddress(hash(v), m.split, m.front) == m.split
  {
    UnwoundConsistent(t, hash);
    AddressAfterSplit(hash(v), MergeTable(t).split, MergeTable(t).front);
  }

  // ---------- find, insert and erase refine a set ----------

  /** Looking in the one bucket addressing designates finds any stored value. */
  lemma FindIsMembership<V>(t: Table<V>, hash: V -> nat, v: V)
    requires Consistent(t, hash)
    ensures v in t.buckets[AddressOf(t, hash, v)] <==> v in Elements(t)
    ensures FindPosition(t, hash, v).vec < |t.buckets| <==> v in Elements(t)
    ensures v in Elements(t) ==>
      var p := FindPosition(t, hash, v); Dereferenceable(t, p) && t.buckets[p.vec][p.buck] == v
  {
    ContentsMember(t.buckets, v);
    var addr := AddressOf(t, hash, v);
    assert addr < |t.buckets|;
    var b := t.buckets[addr];
    assert b == b[..|b|];
    if i :| 0 <= i < |t.buckets| && v in t.buckets[i] {
      assert i == addr;
    }
  }

  lemma InsertPlaces<V>(t: Table<V>, hash: V -> nat, v: V)
    requires Inv(t, hash)
    ensures InsertTable(t, hash, v).front > 0 && Placed(InsertTable(t, hash, v), hash)
  {
    SplitPlaces(t, hash);
  }

  lemma InsertContents<V>(t: Table<V>, hash: V -> nat, v: V)
    requires Inv(t, hash) && v !in Elements(t)
    ensures var r := InsertTable(t, hash, v);
            && Contents(r.buckets) == Contents(t.buckets) + multiset{v}
            && r.size == t.size + 1 && |r.buckets| == |t.buckets| + 1
            && r.split <= r.front && IsPowerOfTwo(r.front) && |r.buckets| == r.front + r.split
  {
    hide BucketAddress;
    FindIsMembership(t, hash, v);
    SplitPreserves(t, hash);
    var s := SplitTable(t, hash);
    ContentsAppend(s.buckets, AddressOf(s, hash, v), v);
  }

  lemma DistinctAfterInsert<V>(t: Table<V>, r: Table<V>, v: V)
    requires Distinct(t) && v !in Contents(t.buckets)
    requires Contents(r.buckets) == Contents(t.buckets) + multiset{v}
    ensures Distinct(r) && Elements(r) == Elements(t) + {v}
    ensures |Contents(r.buckets)| == |Contents(t.buckets)| + 1
  {
  }

  lemma InsertRefines<V>(t: Table<V>, hash: V -> nat, v: V)
    requires Inv(t, hash)
    ensures Inv(InsertTable(t, hash, v), hash)
    ensures Elements(InsertTable(t, hash, v)) == Elements(t) + {v}
  {
    hide BucketAddress;
    if v in Elements(t) {
      FindIsMembership(t, hash, v);
    } else {
      InsertPlaces(t, hash, v);
      InsertContents(t, hash, v);
      DistinctAfterInsert(t, InsertTable(t, hash, v), v);
    }
  }

  lemma DistinctAfterRemove<V>(t: Table<V>, r: Table<V>, v: V)
    requires Distinct(t) && Contents(r.buckets) + multiset{v} == Contents(t.buckets)
    ensures Distinct(r) && Elements(r) == Elements(t) - {v}
    ensures |Contents(r.buckets)| + 1 == |Contents(t.buckets)|
  {
    forall w ensures Contents(t.buckets)[w] == Contents(r.buckets)[w] + (if w == v then 1 else 0) {
      assert (Contents(r.buckets) + multiset{v})[w] == Contents(t.buckets)[w];
    }
    forall w | w in Contents(r.buckets) ensures Contents(r.buckets)[w] == 1 {
      assert w in Contents(t.buckets);
    }
  }

  /** Dropping the value an iterator designates, before the merge. */
  lemma DropPreserves<V>(t: Table<V>, hash: V -> nat, p: Position)
    requires Inv(t, hash) && Dereferenceable(t, p)
    ensures t.size > 0
    ensures var c := t.(buckets := t.buckets[p.vec := RemoveAt(t.buckets[p.vec], p.buck)], size := t.size - 1);
            Consistent(c, hash) && Elements(c) == Elements(t) - {t.buckets[p.vec][p.buck]}
  {
    hide BucketAddress, Contents, Distinct;
    DereferenceableIsCounted(t, p);
    ContentsRemove(t.buckets, p.vec, p.buck);
    var c := t.(buckets := t.buckets[p.vec := RemoveAt(t.buckets[p.vec], p.buck)], size := t.size - 1);
    assert forall w | w in c.buckets[p.vec] :: w in t.buckets[p.vec];
    DistinctAfterRemove(t, c, t.buckets[p.vec][p.buck]);
  }

  lemma EraseAtRefines<V>(t: Table<V>, hash: V -> nat, p: Position)
    requires Inv(t, hash) && Dereferenceable(t, p)
    ensures t.size > 0
    ensures Inv(EraseAt(t, p), hash)
    ensures Elements(EraseAt(t, p)) == Elements(t) - {t.buckets[p.vec][p.buck]}
  {
    hide BucketAddress, Placed, Distinct, Contents;
    DropPreserves(t, hash, p);
    MergePreserves(t.(buckets := t.buckets[p.vec := RemoveAt(t.buckets[p.vec], p.buck)], size := t.size - 1), hash);
  }

  lemma EraseRefines<V>(t: Table<V>, hash: V -> nat, v: V)
    requires Inv(t, hash)
    ensures Inv(EraseTable(t, hash, v), hash)
    ensures Elements(EraseTable(t, hash, v)) == Elements(t) - {v}
  {
    hide BucketAddress;
    FindIsMembership(t, hash, v);
    if v in Elements(t) {
      EraseAtRefines(t, hash, FindPosition(t, hash, v));
    }
  }

  lemma EmptyIsValid<V>(hash: V -> nat)
    ensures Inv(EmptyTable<V>(), hash)
    ensures Elements(EmptyTable<V>()) == {}
  {
    var t := EmptyTable<V>();
    assert Contents(t.buckets) == Contents(t.buckets[..0]) + multiset(t.buckets[0]);
  }

  /** `_size` counts the stored values. */
  lemma SizeCounts<V>(t: Table<V>, hash: V -> nat)
    requires Consistent(t, hash)
    ensures |Elements(t)| == t.size
  {
    hide BucketAddress;
    assert Contents(t.buckets) == multiset(Elements(t));
  }

  // ---------- whole runs ----------

  ghost function Step<V>(t: Table<V>, hash: V -> nat, op: Op<V>): (r: Table<V>)
    requires Inv(t, hash)
    ensures Inv(r, hash)
  {
    match op
    case Insert(v) => InsertRefines(t, hash, v); InsertTable(t, hash, v)
    case Erase(v) => EraseRefines(t, hash, v); EraseTable(t, hash, v)
    case Clear => EmptyIsValid(hash); EmptyTable()
  }

  ghost function Run<V>(hash: V -> nat, ops: seq<Op<V>>): (r: Table<V>)
    ensures Inv(r, hash)
  {
    if |ops| == 0 then EmptyIsValid(hash); EmptyTable()
    else Step(Run(hash, ops[..|ops| - 1]), hash, ops[|ops| - 1])
  }

  /** What one operation does to a mathematical set. */
  ghost function SetStep<V>(s: set<V>, op: Op<V>): set<V> {
    match op
    case Insert(v) => s + {v}
    case Erase(v) => s - {v}
    case Clear => {}
  }

  ghost function SetRun<V>(ops: seq<Op<V>>): set<V> {
    if |ops| == 0 then {} else SetStep(SetRun(ops[..|ops| - 1]), ops[|ops| - 1])
  }

  lemma StepRefinesSet<V>(t: Table<V>, hash: V -> nat, op: Op<V>)
    requires Inv(t, hash)
    ensures Elements(Step(t, hash, op)) == SetStep(Elements(t), op)
  {
    hide BucketAddress;
    match op
    case Insert(v) => InsertRefines(t, hash, v);
    case Erase(v) => EraseRefines(t, hash, v);
    case Clear => EmptyIsValid(hash);
  }

  lemma {:induction false} RunElements<V>(hash: V -> nat, ops: seq<Op<V>>)
    ensures Elements(Run(hash, ops)) == SetRun(ops)
  {
    hide BucketAddress;
    if |ops| == 0 {
      EmptyIsValid(hash);
    } else {
      RunElements(hash, ops[..|ops| - 1]);
      StepRefinesSet(Run(hash, ops[..|ops| - 1]), hash, ops[|ops| - 1]);
    }
  }

  /** Over every run from the empty table: the geometry invariant holds, every
      value sits in the bucket its address designates, and the table is the set
      that the same insertions and erasures produce. */
  lemma RunRefinesSet<V>(hash: V -> nat, ops: seq<Op<V>>)
    ensures Inv(Run(hash, ops), hash)
    ensures Elements(Run(hash, ops)) == SetRun(ops)
    ensures Run(hash, ops).size == |SetRun(ops)|
  {
    hide BucketAddress;
    RunElements(hash, ops);
    SizeCounts(Run(hash, ops), hash);
  }

  // ---------- iteration ----------

  /** All values, bucket after bucket. */
  ghost function Flat<V>(bs: seq<seq<V>>): seq<V> {
    if |bs| == 0 then [] else Flat(bs[..|bs| - 1]) + bs[|bs| - 1]
  }

  /** The first non-empty bucket at or after `i`, or the end. */
  function SkipEmpty<V>(bs: seq<seq<V>>, i: nat): (j: nat)
    requires i <= |bs|
    ensures i <= j <= |bs| && (j < |bs| ==> |bs[j]| > 0)
    decreases |bs| - i
  {
    if i == |bs| || |bs[i]| > 0 then i else SkipEmpty(bs, i + 1)
  }

  function Begin<V>(t: Table<V>): Position { Position(SkipEmpty(t.buckets, 0), 0) }

  function Successor<V>(t: Table<V>, p: Position): Position
    requires Dereferenceable(t, p)
  {
    if p.buck + 1 < |t.buckets[p.vec]| then p.(buck := p.buck + 1)
    else Position(SkipEmpty(t.buckets, p.vec + 1), 0)
  }

  ghost function Offset<V>(t: Table<V>, p: Position): nat
    requires p.vec <= |t.buckets|
  {
    |Flat(t.buckets[..p.vec])| + p.buck
  }

  lemma {:induction false} FlatContents<V>(bs: seq<seq<V>>)
    ensures multiset(Flat(bs)) == Contents(bs)
  {
    if |bs| > 0 {
      FlatContents(bs[..|bs| - 1]);
    }
  }

  lemma {:induction false} FlatAt<V>(bs: seq<seq<V>>, i: nat, j: nat)
    requires i < |bs| && j < |bs[i]|
    ensures |Flat(bs[..i])| + j < |Flat(bs)|
    ensures Flat(bs)[|Flat(bs[..i])| + j] == bs[i][j]
  {
    var last := |bs| - 1;
    if i < last {
      FlatAt(bs[..last], i, j);
      assert bs[..last][..i] == bs[..i];
    }
  }

  lemma {:induction false} SkipEmptyKeepsOffset<V>(bs: seq<seq<V>>, i: nat)
    requires i <= |bs|
    ensures Flat(bs[..SkipEmpty(bs, i)]) == Flat(bs[..i])
    decreases |bs| - i
  {
    if i < |bs| && |bs[i]| == 0 {
      SkipEmptyKeepsOffset(bs, i + 1);
      assert bs[..i + 1][..i] == bs[..i];
    }
  }

  /** The position is inside the table, or is the end. */
  predicate Reachable<V>(t: Table<V>, p: Position) {
    Dereferenceable(t, p) || p == Position(|t.buckets|, 0)
  }

  lemma BeginHasOffsetZero<V>(t: Table<V>)
    ensures Reachable(t, Begin(t)) && Offset(t, Begin(t)) == 0
  {
    SkipEmptyKeepsOffset(t.buckets, 0);
  }

  lemma SuccessorAdvances<V>(t: Table<V>, p: Position)
    requires Dereferenceable(t, p)
    ensures Reachable(t, Successor(t, p)) && Offset(t, Successor(t, p)) == Offset(t, p) + 1
  {
    if p.buck + 1 == |t.buckets[p.vec]| {
      SkipEmptyKeepsOffset(t.buckets, p.vec + 1);
      assert t.buckets[..p.vec + 1][..p.vec] == t.buckets[..p.vec];
    }
  }

  lemma OffsetBounds<V>(t: Table<V>, hash: V -> nat, p: Position)
    requires Inv(t, hash) && Reachable(t, p)
    ensures Dereferenceable(t, p) <==> Offset(t, p) < t.size
    ensures Offset(t, p) <= t.size
  {
    hide BucketAddress, Placed, Distinct, Contents;
    FlatLength(t, hash);
    if Dereferenceable(t, p) {
      FlatAt(t.buckets, p.vec, p.buck);
    } else {
      assert t.buckets[..p.vec] == t.buckets;
    }
  }

  /** Where an iterator stands after `k` increments from `begin()`. */
  ghost function Nth<V>(t: Table<V>, hash: V -> nat, k: nat): (p: Position)
    requires Inv(t, hash) && k <= t.size
    ensures Reachable(t, p) && Offset(t, p) == k
  {
    if k == 0 then BeginHasOffsetZero(t); Begin(t)
    else
      var p := Nth(t, hash, k - 1);
      OffsetBounds(t, hash, p);
      SuccessorAdvances(t, p);
      Successor(t, p)
  }

  /** The values met by dereferencing before each of the first `k` increments. */
  ghost function Visited<V>(t: Table<V>, hash: V -> nat, k: nat): (s: seq<V>)
    requires Inv(t, hash) && k <= t.size
    ensures |s| == k
  {
    if k == 0 then []
    else
      var p := Nth(t, hash, k - 1);
      OffsetBounds(t, hash, p);
      Visited(t, hash, k - 1) + [t.buckets[p.vec][p.buck]]
  }

  lemma FlatLength<V>(t: Table<V>, hash: V -> nat)
    requires Inv(t, hash)
    ensures |Flat(t.buckets)| == t.size
  {
    hide BucketAddress, Placed, Distinct, Flat, Contents;
    FlatContents(t.buckets);
    assert |multiset(Flat(t.buckets))| == |Flat(t.buckets)|;
  }

  lemma {:induction false} VisitedIsFlat<V>(t: Table<V>, hash: V -> nat, k: nat)
    requires Inv(t, hash) && k <= t.size
    ensures |Flat(t.buckets)| == t.size && Visited(t, hash, k) == Flat(t.buckets)[..k]
  {
    hide BucketAddress, Placed, Distinct, Contents, Flat;
    FlatLength(t, hash);
    if k > 0 {
      VisitedIsFlat(t, hash, k - 1);
      var p := Nth(t, hash, k - 1);
      OffsetBounds(t, hash, p);
      FlatAt(t.buckets, p.vec, p.buck);
    }
  }

  /** Counting up from `begin()` reaches the end after exactly `_size` increments
      and not before, having met every stored value exactly once. */
  lemma IterationVisitsAllOnce<V>(t: Table<V>, hash: V -> nat)
    requires Inv(t, hash)
    ensures Nth(t, hash, t.size).vec == |t.buckets|
    ensures forall k | 0 <= k < t.size :: Nth(t, hash, k).vec < |t.buckets|
    ensures multiset(Visited(t, hash, t.size)) == multiset(Elements(t))
  {
    hide BucketAddress;
    forall k | 0 <= k <= t.size
      ensures Dereferenceable(t, Nth(t, hash, k)) <==> k < t.size
    {
      OffsetBounds(t, hash, Nth(t, hash, k));
    }
    VisitedIsFlat(t, hash, t.size);
    FlatContents(t.buckets);
    assert Flat(t.buckets)[..t.size] == Flat(t.buckets);
    assert Contents(t.buckets) == multiset(Elements(t));
  }

  // ---------- the classes ----------

  class LinearHashTable<V(==)> {
    const hash: V -> nat
    var buckets: seq<seq<V>>
    var split: nat
    var front: nat
    var size: nat

    ghost function State(): Table<V>
      reads this
    {
      Table(buckets, split, front, size)
    }

    ghost predicate Valid()
      reads this
    {
      Inv(State(), hash)
    }

    constructor (hash: V -> nat)
      ensures Valid() && State() == EmptyTable() && this.hash == hash
    {
      hide BucketAddress, Placed, Distinct, Contents;
      this.hash := hash;
      buckets, split, front, size := [[]], 0, 1, 0;
      new;
      assert State() == EmptyTable();
      EmptyIsValid(hash);
    }

    /** An iterator at the value, or the end. */
    method Find(value: V) returns (it: Iterator<V>)
      requires Valid()
      ensures fresh(it) && it.table == this
      ensures it.At(FindPosition(State(), hash, value))
      ensures it.vecIt < |buckets| <==> value in Elements(State())
      ensures it.vecIt < |buckets| ==> it.Valid() && buckets[it.vecIt][it.buckIt] == value
    {
      hide BucketAddress, Placed, Distinct, Contents;
      AddressInRange(hash(value), split, front);
      var addr := BucketAddress(hash(value), split, front);
      var i := 0;
      while i < |buckets[addr]| && buckets[addr][i] != value
        invariant i <= |buckets[addr]| && value !in buckets[addr][..i]
      {
        i := i + 1;
      }
      IndexOfFirst(buckets[addr], value, i);
      FindIsMembership(State(), hash, value);
      if i < |buckets[addr]| {
        it := new Iterator(this, addr, i);
      } else {
        it := End();
      }
    }

    method Insert(value: V) returns (it: Iterator<V>, inserted: bool)
      requires Valid()
      modifies this
      ensures Valid() && State() == InsertTable(old(State()), hash, value)
      ensures Elements(State()) == old(Elements(State())) + {value}
      ensures inserted <==> value !in old(Elements(State()))
      ensures fresh(it) && it.table == this && it.Valid() && buckets[it.vecIt][it.buckIt] == value
    {
      hide BucketAddress, Placed, Distinct, Contents, IsPowerOfTwo, Elements, SplitTable;
      ghost var t := State();
      FindIsMembership(t, hash, value);
      InsertRefines(t, hash, value);
      AddressInRange(hash(value), split, front);
      var addr := BucketAddress(hash(value), split, front);
      var i := 0;
      while i < |buckets[addr]| && buckets[addr][i] != value
        invariant i <= |buckets[addr]| && value !in buckets[addr][..i]
      {
        i := i + 1;
      }
      if i == |buckets[addr]| {
        assert buckets[addr][..i] == buckets[addr];
        SplitPreserves(t, hash);
        Split();
        AddressInRange(hash(value), split, front);
        addr := BucketAddress(hash(value), split, front);
        buckets := buckets[addr := buckets[addr] + [value]];
        size := size + 1;
        it := new Iterator(this, addr, |buckets[addr]| - 1);
        inserted := true;
      } else {
        it := new Iterator(this, addr, i);
        inserted := false;
      }
    }

    /** Erases the element at the iterator; at the end it does nothing. */
    method EraseIterator(it: Iterator<V>)
      requires Valid() && it.table == this
      requires it.vecIt == |buckets| || it.Valid()
      modifies this
      ensures Valid()
      ensures it.vecIt == old(it.vecIt) && it.buckIt == old(it.buckIt)
      ensures it.vecIt == |old(buckets)| ==> State() == old(State())
      ensures it.vecIt < |old(buckets)| ==>
        && State() == EraseAt(old(State()), Position(it.vecIt, it.buckIt))
        && Elements(State()) == old(Elements(State())) - {old(buckets)[it.vecIt][it.buckIt]}
    {
      hide BucketAddress, Placed, Distinct, Contents;
      if it.vecIt != |buckets| {
        ghost var p := Position(it.vecIt, it.buckIt);
        DropPreserves(State(), hash, p);
        EraseAtRefines(State(), hash, p);
        var b := buckets[it.vecIt];
        buckets := buckets[it.vecIt := b[..it.buckIt] + b[it.buckIt + 1..]];
        size := size - 1;
        Merge();
      }
    }

    method Erase(value: V)
      requires Valid()
      modifies this
      ensures Valid() && State() == EraseTable(old(State()), hash, value)
      ensures Elements(State()) == old(Elements(State())) - {value}
    {
      hide BucketAddress, Placed, Distinct, Contents;
      EraseRefines(State(), hash, value);
      var it := Find(value);
      EraseIterator(it);
    }

    method Clear()
      modifies this
      ensures Valid() && State() == EmptyTable()
    {
      hide BucketAddress, Placed, Distinct, Contents;
      buckets, split, front, size := [[]], 0, 1, 0;
      assert State() == EmptyTable();
      EmptyIsValid(hash);
    }

    method Split()
      requires Consistent(State(), hash)
      modifies this
      ensures State() == SplitTable(old(State()), hash)
    {
      hide BucketAddress, Placed, Distinct, Contents;
      ghost var t := State();
      RewoundConsistent(t, hash);
      if split == front {
        split := 0;
        front := 2 * front;
      }
      ghost var r := Rewound(t);
      var tmp := buckets[split];
      buckets := buckets[split := []] + [[]];
      split := split + 1;
      for i := 0 to |tmp|
        invariant split == r.split + 1 && front == r.front && size == r.size
        invariant buckets == r.buckets[r.split := Landing(tmp[..i], hash, split, front, r.split)]
                             + [Landing(tmp[..i], hash, split, front, |r.buckets|)]
      {
        MovedOut(t, hash, tmp[i]);
        var addr := BucketAddress(hash(tmp[i]), split, front);
        assert tmp[..i + 1][..i] == tmp[..i];
        buckets := buckets[addr := buckets[addr] + [tmp[i]]];
      }
      assert tmp[..|tmp|] == tmp;
    }

    method Merge()
      requires Consistent(State(), hash) && |buckets| > 1
      modifies this
      ensures State() == MergeTable(old(State()))
    {
      hide BucketAddress, Distinct, Contents, Placed, IsPowerOfTwo;
      ghost var t := State();
      UnwoundConsistent(t, hash);
      if split == 0 {
        front := front / 2;
        split := front;
      }
      ghost var u := Unwound(t);
      split := split - 1;
      var last := |buckets| - 1;
      var tmp := buckets[last];
      buckets := buckets[..last];
      for i := 0 to |tmp|
        invariant split == u.split - 1 && front == u.front && size == u.size
        invariant |buckets| == last && buckets[split] == u.buckets[split] + tmp[..i]
        invariant forall j | 0 <= j < last && j != split :: buckets[j] == u.buckets[j]
      {
        MovedBack(t, hash, tmp[i]);
        var addr := BucketAddress(hash(tmp[i]), split, front);
        buckets := buckets[addr := buckets[addr] + [tmp[i]]];
        assert tmp[..i + 1] == tmp[..i] + [tmp[i]];
      }
      assert tmp[..|tmp|] == tmp;
      assert buckets == MergeTable(t).buckets;
    }

    method BeginIterator() returns (it: Iterator<V>)
      requires Valid()
      ensures fresh(it) && it.table == this && it.At(Begin(State()))
    {
      hide BucketAddress, Placed, Distinct, Contents;
      var i := 0;
      while i < |buckets| && |buckets[i]| == 0
        invariant i <= |buckets| && SkipEmpty(buckets, i) == SkipEmpty(buckets, 0)
      {
        i := i + 1;
      }
      if i == |buckets| {
        it := End();
      } else {
        it := new Iterator(this, i, 0);
      }
    }

    method End() returns (it: Iterator<V>)
      requires |buckets| > 0
      ensures fresh(it) && it.table == this && it.vecIt == |buckets|
    {
      it := new Iterator(this, |buckets|, |buckets[0]|);
    }
  }

  lemma {:induction false} IndexOfFirst<V>(s: seq<V>, v: V, i: nat)
    requires i <= |s| && v !in s[..i] && (i < |s| ==> s[i] == v)
    ensures IndexOf(s, v) == i
  {
  }

  /** Valid while the table is not modified, as for the original. At the end only
      the bucket cursor is meaningful. */
  class Iterator<V(==)> {
    const table: LinearHashTable<V>
    var vecIt: nat
    var buckIt: nat

    constructor (table: LinearHashTable<V>, vecIt: nat, buckIt: nat)
      ensures this.table == table && this.vecIt == vecIt && this.buckIt == buckIt
    {
      this.table, this.vecIt, this.buckIt := table, vecIt, buckIt;
    }

    ghost predicate Valid()
      reads this, table
    {
      Dereferenceable(table.State(), Position(vecIt, buckIt))
    }

    ghost predicate At(p: Position)
      reads this, table
    {
      vecIt == p.vec && (vecIt < |table.buckets| ==> buckIt == p.buck)
    }

    method Increment()
      requires vecIt == |table.buckets| || Valid()
      modifies this
      ensures old(vecIt) == |table.buckets| ==> vecIt == old(vecIt)
      ensures old(vecIt) < |table.buckets| ==> At(Successor(table.State(), old(Position(vecIt, buckIt))))
    {
      if vecIt != |table.buckets| {
        ghost var v0 := vecIt;
        buckIt := buckIt + 1;
        while vecIt != |table.buckets| && buckIt == |table.buckets[vecIt]|
          invariant v0 <= vecIt <= |table.buckets|
          invariant vecIt == v0 ==> buckIt == old(buckIt) + 1
          invariant vecIt > v0 ==> buckIt == 0 || vecIt == |table.buckets|
          invariant vecIt > v0 ==> old(buckIt) + 1 == |table.buckets[v0]|
          invariant vecIt > v0 ==> SkipEmpty(table.buckets, vecIt) == SkipEmpty(table.buckets, v0 + 1)
          decreases |table.buckets| - vecIt
        {
          vecIt := vecIt + 1;
          if vecIt != |table.buckets| {
            buckIt := 0;
          }
        }
      }
    }
  }
}
