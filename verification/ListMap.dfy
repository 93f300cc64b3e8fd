/** ListMap: a multimap kept in a sequence, entries with equal keys side by side. Keys
    are compared with an equivalence, which for header names ignores case. */
module ListMaps {
  import opened Options

  /** `serial` is history: it numbers the insertions. */
  datatype Entry<K, V> = Entry(key: K, value: V, serial: nat)

  /** The container, and the serial number of the next insertion. */
  datatype State<K, V> = State(entries: seq<Entry<K, V>>, clock: nat)

  ghost predicate Equivalence<K(!new)>(eq: (K, K) -> bool) {
    && (forall a :: eq(a, a))
    && (forall a, b :: eq(a, b) ==> eq(b, a))
    && (forall a, b, c :: eq(a, b) && eq(b, c) ==> eq(a, c))
  }

  // ---------- operations ----------

  /** The first entry with the key, at `i` or behind it. */
  function First<K, V>(eq: (K, K) -> bool, s: seq<Entry<K, V>>, key: K, i: nat): (p: nat)
    requires i <= |s|
    ensures i <= p <= |s|
    decreases |s| - i
  {
    if i == |s| || eq(s[i].key, key) then i else First(eq, s, key, i + 1)
  }

  /** The end of the run of entries with the key that starts at `i`. */
  function PastRun<K, V>(eq: (K, K) -> bool, s: seq<Entry<K, V>>, key: K, i: nat): (p: nat)
    requires i <= |s|
    ensures i <= p <= |s|
    decreases |s| - i
  {
    if i == |s| || !eq(s[i].key, key) then i else PastRun(eq, s, key, i + 1)
  }

  function InsertPosition<K, V>(eq: (K, K) -> bool, s: seq<Entry<K, V>>, key: K): (p: nat)
    ensures p <= |s|
  {
    PastRun(eq, s, key, First(eq, s, key, 0))
  }

  function Without<K, V>(s: seq<Entry<K, V>>, from: nat, to: nat): (r: seq<Entry<K, V>>)
    requires from <= to <= |s|
    ensures |r| == |s| - (to - from)
  {
    s[..from] + s[to..]
  }

  function AfterInsert<K, V>(eq: (K, K) -> bool, m: State<K, V>, key: K, value: V): State<K, V> {
    var p := InsertPosition(eq, m.entries, key);
    State(m.entries[..p] + [Entry(key, value, m.clock)] + m.entries[p..], m.clock + 1)
  }

  function AfterEraseAt<K, V>(m: State<K, V>, i: nat): State<K, V>
    requires i < |m.entries|
  {
    m.(entries := Without(m.entries, i, i + 1))
  }

  /** Erasing stops at the first entry behind the first run. */
  function AfterEraseKey<K, V>(eq: (K, K) -> bool, m: State<K, V>, key: K): State<K, V> {
    m.(entries := Without(m.entries, First(eq, m.entries, key, 0), InsertPosition(eq, m.entries, key)))
  }

  /** map[key] = value */
  function AfterAssign<K, V>(eq: (K, K) -> bool, m: State<K, V>, key: K, value: V): State<K, V> {
    var p := First(eq, m.entries, key, 0);
    if p < |m.entries| then m.(entries := m.entries[p := m.entries[p].(value := value)])
    else AfterInsert(eq, m, key, value)
  }

  // ---------- the invariant ----------

  ghost predicate Contiguous<K, V>(eq: (K, K) -> bool, s: seq<Entry<K, V>>) {
    forall i, j, k | 0 <= i < j < k < |s| && eq(s[i].key, s[k].key) :: eq(s[i].key, s[j].key)
  }

  /** Entries with equal keys stand in the order of their insertion. */
  ghost predicate InOrder<K, V>(eq: (K, K) -> bool, s: seq<Entry<K, V>>) {
    forall i, j | 0 <= i < j < |s| && eq(s[i].key, s[j].key) :: s[i].serial < s[j].serial
  }

  ghost predicate Inv<K, V>(eq: (K, K) -> bool, m: State<K, V>) {
    && Contiguous(eq, m.entries) && InOrder(eq, m.entries)
    && forall i | 0 <= i < |m.entries| :: m.entries[i].serial < m.clock
  }

  lemma {:induction false} FirstMatches<K, V>(eq: (K, K) -> bool, s: seq<Entry<K, V>>, key: K, i: nat)
    requires i <= |s|
    ensures var p := First(eq, s, key, i);
            (forall j | i <= j < p :: !eq(s[j].key, key)) && (p < |s| ==> eq(s[p].key, key))
    decreases |s| - i
  {
    if i < |s| && !eq(s[i].key, key) {
      FirstMatches(eq, s, key, i + 1);
    }
  }

  lemma FirstAgain<K, V>(eq: (K, K) -> bool, s: seq<Entry<K, V>>, key: K)
    ensures First(eq, s, key, First(eq, s, key, 0)) == First(eq, s, key, 0)
  {
    FirstMatches(eq, s, key, 0);
  }

  lemma {:induction false} RunMatches<K, V>(eq: (K, K) -> bool, s: seq<Entry<K, V>>, key: K, i: nat)
    requires i <= |s|
    ensures var p := PastRun(eq, s, key, i);
            (forall j | i <= j < p :: eq(s[j].key, key)) && (p < |s| ==> !eq(s[p].key, key))
    decreases |s| - i
  {
    if i < |s| && eq(s[i].key, key) {
      RunMatches(eq, s, key, i + 1);
    }
  }

  lemma Between<K, V>(eq: (K, K) -> bool, s: seq<Entry<K, V>>, i: nat, j: nat, k: nat)
    requires Contiguous(eq, s) && i <= j < k < |s|
    ensures eq(s[i].key, s[k].key) ==> eq(s[i].key, s[j].key) || i == j
  {
  }

  /** In a contiguous list the first run has all the matches. */
  lemma RunHasAll<K(!new), V>(eq: (K, K) -> bool, s: seq<Entry<K, V>>, key: K)
    requires Equivalence(eq) && Contiguous(eq, s)
    ensures var from, to := First(eq, s, key, 0), InsertPosition(eq, s, key);
            && (from < |s| ==> from < to)
            && forall j | 0 <= j < |s| :: eq(s[j].key, key) <==> from <= j < to
  {
    var from, to := First(eq, s, key, 0), InsertPosition(eq, s, key);
    FirstMatches(eq, s, key, 0);
    RunMatches(eq, s, key, from);
    forall j | to < j < |s| ensures !eq(s[j].key, key) {
      Between(eq, s, from, to, j);
    }
  }

  lemma WithoutAt<K, V>(s: seq<Entry<K, V>>, from: nat, to: nat, i: nat)
    requires from <= to <= |s| && i < |Without(s, from, to)|
    ensures Without(s, from, to)[i] == s[if i < from then i else i + (to - from)]
  {
  }

  lemma WithoutContiguous<K, V>(eq: (K, K) -> bool, s: seq<Entry<K, V>>, from: nat, to: nat)
    requires Contiguous(eq, s) && from <= to <= |s|
    ensures Contiguous(eq, Without(s, from, to))
  {
    var t, d := Without(s, from, to), to - from;
    forall i, j, k | 0 <= i < j < k < |t| ensures eq(t[i].key, t[k].key) ==> eq(t[i].key, t[j].key) {
      hide *;
      WithoutAt(s, from, to, i);
      WithoutAt(s, from, to, j);
      WithoutAt(s, from, to, k);
      Between(eq, s, if i < from then i else i + d, if j < from then j else j + d, if k < from then k else k + d);
    }
  }

  lemma Serials<K, V>(eq: (K, K) -> bool, s: seq<Entry<K, V>>, i: nat, j: nat)
    requires InOrder(eq, s) && i < j < |s|
    ensures eq(s[i].key, s[j].key) ==> s[i].serial < s[j].serial
  {
  }

  lemma WithoutInOrder<K, V>(eq: (K, K) -> bool, s: seq<Entry<K, V>>, from: nat, to: nat)
    requires InOrder(eq, s) && from <= to <= |s|
    ensures InOrder(eq, Without(s, from, to))
  {
    var t, d := Without(s, from, to), to - from;
    forall i, j | 0 <= i < j < |t| ensures eq(t[i].key, t[j].key) ==> t[i].serial < t[j].serial {
      hide *;
      WithoutAt(s, from, to, i);
      WithoutAt(s, from, to, j);
      Serials(eq, s, if i < from then i else i + d, if j < from then j else j + d);
    }
  }

  lemma WithoutKeeps<K, V>(eq: (K, K) -> bool, m: State<K, V>, from: nat, to: nat)
    requires Inv(eq, m) && from <= to <= |m.entries|
    ensures Inv(eq, m.(entries := Without(m.entries, from, to)))
  {
    WithoutContiguous(eq, m.entries, from, to);
    WithoutInOrder(eq, m.entries, from, to);
    hide Contiguous, InOrder, Without;
    var t := Without(m.entries, from, to);
    forall i | 0 <= i < |t| ensures t[i].serial < m.clock {
      WithoutAt(m.entries, from, to, i);
    }
  }

  /** No two equal keys have the insert position of another key between them. */
  lemma NoStraddle<K(!new), V>(eq: (K, K) -> bool, s: seq<Entry<K, V>>, key: K, i: nat, k: nat)
    requires Equivalence(eq) && Contiguous(eq, s) && i < InsertPosition(eq, s, key) <= k < |s|
    ensures !eq(s[i].key, s[k].key)
  {
    RunHasAll(eq, s, key);
    Between(eq, s, i, InsertPosition(eq, s, key) - 1, k);
  }

  lemma InsertedAt<K, V>(s: seq<Entry<K, V>>, p: nat, e: Entry<K, V>, x: nat)
    requires p <= |s| && x <= |s|
    ensures (s[..p] + [e] + s[p..])[x] == if x < p then s[x] else if x == p then e else s[x - 1]
  {
  }

  lemma InsertBetween<K(!new), V>(eq: (K, K) -> bool, s: seq<Entry<K, V>>, e: Entry<K, V>, i: nat, j: nat, k: nat)
    requires Equivalence(eq) && Contiguous(eq, s) && i < j < k <= |s|
    ensures var p := InsertPosition(eq, s, e.key); var t := s[..p] + [e] + s[p..];
            eq(t[i].key, t[k].key) ==> eq(t[i].key, t[j].key)
  {
    var p := InsertPosition(eq, s, e.key);
    var t := s[..p] + [e] + s[p..];
    if i < p < k {
      NoStraddle(eq, s, e.key, i, k - 1);
    }
    RunHasAll(eq, s, e.key);
    hide InsertPosition;
    InsertedAt(s, p, e, i);
    InsertedAt(s, p, e, j);
    InsertedAt(s, p, e, k);
  }

  /** A later serial goes in behind everything with its key. */
  lemma InsertInOrder<K(!new), V>(eq: (K, K) -> bool, s: seq<Entry<K, V>>, e: Entry<K, V>, i: nat, j: nat)
    requires Equivalence(eq) && Contiguous(eq, s) && InOrder(eq, s) && i < j <= |s|
    requires forall x | 0 <= x < |s| :: s[x].serial < e.serial
    ensures var p := InsertPosition(eq, s, e.key); var t := s[..p] + [e] + s[p..];
            eq(t[i].key, t[j].key) ==> t[i].serial < t[j].serial
  {
    var p := InsertPosition(eq, s, e.key);
    RunHasAll(eq, s, e.key);
    hide InsertPosition, Contiguous;
    InsertedAt(s, p, e, i);
    InsertedAt(s, p, e, j);
  }

  lemma InsertKeeps<K(!new), V>(eq: (K, K) -> bool, m: State<K, V>, key: K, value: V)
    requires Equivalence(eq) && Inv(eq, m)
    ensures Inv(eq, AfterInsert(eq, m, key, value))
  {
    hide InsertPosition, Equivalence;
    var s, p, e := m.entries, InsertPosition(eq, m.entries, key), Entry(key, value, m.clock);
    var t := s[..p] + [e] + s[p..];
    forall i, j, k | 0 <= i < j < k < |t| ensures eq(t[i].key, t[k].key) ==> eq(t[i].key, t[j].key) {
      InsertBetween(eq, s, e, i, j, k);
    }
    forall i, j | 0 <= i < j < |t| ensures eq(t[i].key, t[j].key) ==> t[i].serial < t[j].serial {
      InsertInOrder(eq, s, e, i, j);
    }
    forall i | 0 <= i < |t| ensures t[i].serial < m.clock + 1 {
      InsertedAt(s, p, e, i);
    }
  }

  lemma AssignKeeps<K(!new), V>(eq: (K, K) -> bool, m: State<K, V>, key: K, value: V)
    requires Equivalence(eq) && Inv(eq, m)
    ensures Inv(eq, AfterAssign(eq, m, key, value))
  {
    if First(eq, m.entries, key, 0) == |m.entries| {
      InsertKeeps(eq, m, key, value);
    }
  }

  // ---------- runs ----------

  datatype Op<K, V> =
    | Insert(key: K, value: V)
    | EraseAt(index: nat)
    | EraseKey(key: K)
    | Assign(key: K, value: V)
    | Clear

  function Step<K, V>(eq: (K, K) -> bool, m: State<K, V>, op: Op<K, V>): State<K, V> {
    match op
    case Insert(key, value) => AfterInsert(eq, m, key, value)
    case EraseAt(i) => if i < |m.entries| then AfterEraseAt(m, i) else m
    case EraseKey(key) => AfterEraseKey(eq, m, key)
    case Assign(key, value) => AfterAssign(eq, m, key, value)
    case Clear => m.(entries := [])
  }

  function Run<K, V>(eq: (K, K) -> bool, ops: seq<Op<K, V>>): State<K, V> {
    if |ops| == 0 then State([], 0) else Step(eq, Run(eq, ops[..|ops| - 1]), ops[|ops| - 1])
  }

  lemma EraseKeyKeeps<K, V>(eq: (K, K) -> bool, m: State<K, V>, key: K)
    requires Inv(eq, m)
    ensures Inv(eq, AfterEraseKey(eq, m, key))
  {
    hide Inv, Without;
    WithoutKeeps(eq, m, First(eq, m.entries, key, 0), InsertPosition(eq, m.entries, key));
  }

  lemma ClearKeeps<K, V>(eq: (K, K) -> bool, m: State<K, V>)
    ensures Inv(eq, m.(entries := []))
  {
  }

  lemma StepKeeps<K(!new), V>(eq: (K, K) -> bool, m: State<K, V>, op: Op<K, V>)
    requires Equivalence(eq) && Inv(eq, m)
    ensures Inv(eq, Step(eq, m, op))
  {
    hide Inv, Equivalence, Without, AfterInsert, AfterEraseKey, AfterAssign;
    match op {
      case Insert(key, value) => InsertKeeps(eq, m, key, value);
      case EraseAt(i) =>
        if i < |m.entries| {
          WithoutKeeps(eq, m, i, i + 1);
        }
      case EraseKey(key) => EraseKeyKeeps(eq, m, key);
      case Assign(key, value) => AssignKeeps(eq, m, key, value);
      case Clear => ClearKeeps(eq, m);
    }
  }

  /** Whatever is done to an empty map, entries with equal keys stay contiguous and in
      the order of their insertion. */
  lemma {:induction false} RunKeeps<K(!new), V>(eq: (K, K) -> bool, ops: seq<Op<K, V>>)
    requires Equivalence(eq)
    ensures Inv(eq, Run(eq, ops))
  {
    if |ops| > 0 {
      hide Step, Inv, Equivalence;
      RunKeeps(eq, ops[..|ops| - 1]);
      StepKeeps(eq, Run(eq, ops[..|ops| - 1]), ops[|ops| - 1]);
    }
  }

  // ---------- what the operations mean ----------

  /** The entries with the key, in order. */
  function Matching<K, V>(eq: (K, K) -> bool, s: seq<Entry<K, V>>, key: K): seq<Entry<K, V>> {
    if |s| == 0 then []
    else Matching(eq, s[..|s| - 1], key) + if eq(s[|s| - 1].key, key) then [s[|s| - 1]] else []
  }

  /** The other entries, in order. */
  function Others<K, V>(eq: (K, K) -> bool, s: seq<Entry<K, V>>, key: K): seq<Entry<K, V>> {
    if |s| == 0 then []
    else Others(eq, s[..|s| - 1], key) + if eq(s[|s| - 1].key, key) then [] else [s[|s| - 1]]
  }

  lemma {:induction false} MatchingConcat<K, V>(eq: (K, K) -> bool, a: seq<Entry<K, V>>, b: seq<Entry<K, V>>, key: K)
    ensures Matching(eq, a + b, key) == Matching(eq, a, key) + Matching(eq, b, key)
  {
    if |b| == 0 {
      assert a + b == a;
    } else {
      var last := |b| - 1;
      assert (a + b)[..|a| + last] == a + b[..last];
      MatchingConcat(eq, a, b[..last], key);
    }
  }

  lemma {:induction false} OthersConcat<K, V>(eq: (K, K) -> bool, a: seq<Entry<K, V>>, b: seq<Entry<K, V>>, key: K)
    ensures Others(eq, a + b, key) == Others(eq, a, key) + Others(eq, b, key)
  {
    if |b| == 0 {
      assert a + b == a;
    } else {
      var last := |b| - 1;
      assert (a + b)[..|a| + last] == a + b[..last];
      OthersConcat(eq, a, b[..last], key);
    }
  }

  lemma SplitConcat<K, V>(eq: (K, K) -> bool, a: seq<Entry<K, V>>, b: seq<Entry<K, V>>, key: K)
    ensures Matching(eq, a + b, key) == Matching(eq, a, key) + Matching(eq, b, key)
    ensures Others(eq, a + b, key) == Others(eq, a, key) + Others(eq, b, key)
  {
    MatchingConcat(eq, a, b, key);
    OthersConcat(eq, a, b, key);
  }

  lemma {:induction false} AllMatch<K, V>(eq: (K, K) -> bool, s: seq<Entry<K, V>>, key: K)
    requires forall j | 0 <= j < |s| :: eq(s[j].key, key)
    ensures Matching(eq, s, key) == s && Others(eq, s, key) == []
  {
    if |s| > 0 {
      AllMatch(eq, s[..|s| - 1], key);
    }
  }

  lemma {:induction false} NoneMatch<K, V>(eq: (K, K) -> bool, s: seq<Entry<K, V>>, key: K)
    requires forall j | 0 <= j < |s| :: !eq(s[j].key, key)
    ensures Matching(eq, s, key) == [] && Others(eq, s, key) == s
  {
    if |s| > 0 {
      NoneMatch(eq, s[..|s| - 1], key);
    }
  }

  lemma RunParts<K(!new), V>(eq: (K, K) -> bool, s: seq<Entry<K, V>>, key: K)
    requires Equivalence(eq) && Contiguous(eq, s)
    ensures var from, to := First(eq, s, key, 0), InsertPosition(eq, s, key);
            && from <= to
            && Matching(eq, s[..from], key) == [] && Others(eq, s[..from], key) == s[..from]
            && Matching(eq, s[from..to], key) == s[from..to] && Others(eq, s[from..to], key) == []
            && Matching(eq, s[to..], key) == [] && Others(eq, s[to..], key) == s[to..]
  {
    var from, to := First(eq, s, key, 0), InsertPosition(eq, s, key);
    RunHasAll(eq, s, key);
    hide First, InsertPosition, Contiguous, Equivalence, Matching, Others;
    AllMatch(eq, s[from..to], key);
    NoneMatch(eq, s[..from], key);
    NoneMatch(eq, s[to..], key);
  }

  /** A contiguous list is: others, the matches, others. */
  lemma Blocks<K(!new), V>(eq: (K, K) -> bool, s: seq<Entry<K, V>>, key: K)
    requires Equivalence(eq) && Contiguous(eq, s)
    ensures var from, to := First(eq, s, key, 0), InsertPosition(eq, s, key);
            && from <= to
            && Matching(eq, s, key) == s[from..to]
            && Others(eq, s, key) == s[..from] + s[to..]
  {
    hide *;
    RunParts(eq, s, key);
    SplitThree(eq, s, First(eq, s, key, 0), InsertPosition(eq, s, key), key);
  }

  lemma Slices<T>(s: seq<T>, from: nat, to: nat)
    requires from <= to <= |s|
    ensures s[..to][..from] == s[..from] && s[..to][from..] == s[from..to]
  {
  }

  lemma SplitThree<K, V>(eq: (K, K) -> bool, s: seq<Entry<K, V>>, from: nat, to: nat, key: K)
    requires from <= to <= |s|
    ensures Matching(eq, s, key)
         == Matching(eq, s[..from], key) + Matching(eq, s[from..to], key) + Matching(eq, s[to..], key)
    ensures Others(eq, s, key)
         == Others(eq, s[..from], key) + Others(eq, s[from..to], key) + Others(eq, s[to..], key)
  {
    hide *;
    Slices(s, from, to);
    SplitAt(eq, s, to, key);
    SplitAt(eq, s[..to], from, key);
  }

  lemma SplitAt<K, V>(eq: (K, K) -> bool, s: seq<Entry<K, V>>, i: nat, key: K)
    requires i <= |s|
    ensures Matching(eq, s, key) == Matching(eq, s[..i], key) + Matching(eq, s[i..], key)
    ensures Others(eq, s, key) == Others(eq, s[..i], key) + Others(eq, s[i..], key)
  {
    hide *;
    assert s[..i] + s[i..] == s;
    SplitConcat(eq, s[..i], s[i..], key);
  }

  /** erase(key) removes all matches, whose number it returns, and keeps the order of
      the rest. */
  lemma EraseKeyIsExact<K(!new), V>(eq: (K, K) -> bool, m: State<K, V>, key: K)
    requires Equivalence(eq) && Inv(eq, m)
    ensures AfterEraseKey(eq, m, key).entries == Others(eq, m.entries, key)
    ensures InsertPosition(eq, m.entries, key) - First(eq, m.entries, key, 0) == |Matching(eq, m.entries, key)|
  {
    Blocks(eq, m.entries, key);
  }

  lemma SplitAround<K, V>(eq: (K, K) -> bool, a: seq<Entry<K, V>>, e: Entry<K, V>, b: seq<Entry<K, V>>, key: K)
    requires eq(e.key, key)
    ensures Matching(eq, a + [e] + b, key) == Matching(eq, a, key) + [e] + Matching(eq, b, key)
    ensures Others(eq, a + [e] + b, key) == Others(eq, a, key) + Others(eq, b, key)
  {
    hide *;
    SplitConcat(eq, a, [e], key);
    SplitConcat(eq, a + [e], b, key);
    AllMatch(eq, [e], key);
  }

  /** insert puts the new entry behind the entries with its key and changes neither
      those nor the rest. */
  lemma InsertIsExact<K(!new), V>(eq: (K, K) -> bool, m: State<K, V>, key: K, value: V)
    requires Equivalence(eq) && Inv(eq, m)
    ensures var t := AfterInsert(eq, m, key, value);
            && Matching(eq, t.entries, key) == Matching(eq, m.entries, key) + [Entry(key, value, m.clock)]
            && Others(eq, t.entries, key) == Others(eq, m.entries, key)
  {
    var s, to := m.entries, InsertPosition(eq, m.entries, key);
    assert AfterInsert(eq, m, key, value).entries == s[..to] + [Entry(key, value, m.clock)] + s[to..];
    assert eq(key, key);
    InsertParts(eq, s, key);
    hide *;
    SplitAround(eq, s[..to], Entry(key, value, m.clock), s[to..], key);
  }

  lemma InsertParts<K(!new), V>(eq: (K, K) -> bool, s: seq<Entry<K, V>>, key: K)
    requires Equivalence(eq) && Contiguous(eq, s)
    ensures var to := InsertPosition(eq, s, key);
            && Matching(eq, s, key) == Matching(eq, s[..to], key) && Matching(eq, s[to..], key) == []
            && Others(eq, s, key) == Others(eq, s[..to], key) + Others(eq, s[to..], key)
  {
    hide *;
    var to := InsertPosition(eq, s, key);
    RunParts(eq, s, key);
    SplitAt(eq, s, to, key);
    assert Matching(eq, s[..to], key) + [] == Matching(eq, s[..to], key);
  }

  /** find and operator [] give the oldest entry with the key. */
  lemma FindsOldest<K(!new), V>(eq: (K, K) -> bool, m: State<K, V>, key: K, j: nat)
    requires Equivalence(eq) && Inv(eq, m) && j < |m.entries| && eq(m.entries[j].key, key)
    ensures var p := First(eq, m.entries, key, 0);
            p <= j && eq(m.entries[p].key, key) && m.entries[p].serial <= m.entries[j].serial
  {
    FirstMatches(eq, m.entries, key, 0);
    var p := First(eq, m.entries, key, 0);
    if p < j {
      assert eq(m.entries[p].key, m.entries[j].key);
    }
  }

  /** Erasing at a position leaves every other entry, in order. */
  lemma EraseAtIsExact<K, V>(m: State<K, V>, i: nat)
    requires i < |m.entries|
    ensures var t := AfterEraseAt(m, i);
            && t.clock == m.clock && |t.entries| == |m.entries| - 1
            && forall j | 0 <= j < |t.entries| :: t.entries[j] == m.entries[if j < i then j else j + 1]
  {
  }

  lemma ValueReplaced<K(!new), V>(eq: (K, K) -> bool, m: State<K, V>, key: K, value: V)
    requires Equivalence(eq) && Inv(eq, m) && First(eq, m.entries, key, 0) < |m.entries|
    ensures var p, t := First(eq, m.entries, key, 0), AfterAssign(eq, m, key, value);
            && First(eq, t.entries, key, 0) == p && |t.entries| == |m.entries|
            && Others(eq, t.entries, key) == Others(eq, m.entries, key) && Matching(eq, m.entries, key) != []
  {
    var p, s := First(eq, m.entries, key, 0), m.entries;
    var t := s[p := s[p].(value := value)];
    hide Equivalence, Contiguous, InOrder, Matching, Others, First, InsertPosition, AfterAssign;
    AssignPresent(eq, m, key, value);
    AssignKeeps(eq, m, key, value);
    RunNotEmpty(eq, s, key);
    Blocks(eq, s, key);
    Blocks(eq, t, key);
    SameRun(eq, s, t, key);
    OneChanged(s, p, t[p], InsertPosition(eq, s, key));
  }

  lemma AssignPresent<K, V>(eq: (K, K) -> bool, m: State<K, V>, key: K, value: V)
    requires First(eq, m.entries, key, 0) < |m.entries|
    ensures var p, s := First(eq, m.entries, key, 0), m.entries;
            AfterAssign(eq, m, key, value).entries == s[p := s[p].(value := value)]
  {
  }

  lemma OneChanged<T>(s: seq<T>, p: nat, e: T, to: nat)
    requires p < to <= |s|
    ensures s[p := e][..p] + s[p := e][to..] == s[..p] + s[to..] && s[p..to] != []
  {
    assert s[p..to][0] == s[p];
  }

  lemma RunNotEmpty<K(!new), V>(eq: (K, K) -> bool, s: seq<Entry<K, V>>, key: K)
    requires First(eq, s, key, 0) < |s|
    ensures First(eq, s, key, 0) < InsertPosition(eq, s, key)
  {
    FirstMatches(eq, s, key, 0);
  }

  /** A list that has the same keys has its matches in the same places. */
  lemma SameRun<K(!new), V>(eq: (K, K) -> bool, s: seq<Entry<K, V>>, t: seq<Entry<K, V>>, key: K)
    requires |s| == |t| && forall j | 0 <= j < |s| :: s[j].key == t[j].key
    ensures First(eq, t, key, 0) == First(eq, s, key, 0) && InsertPosition(eq, t, key) == InsertPosition(eq, s, key)
  {
    hide Equivalence, Contiguous;
    FirstMatches(eq, s, key, 0);
    FirstMatches(eq, t, key, 0);
    RunMatches(eq, s, key, First(eq, s, key, 0));
    RunMatches(eq, t, key, First(eq, s, key, 0));
  }

  /** After map[key] = value the key has the value; where it was there already, only the
      value of its oldest entry changes, and else there is one more entry. */
  lemma AssignIsExact<K(!new), V>(eq: (K, K) -> bool, m: State<K, V>, key: K, value: V)
    requires Equivalence(eq) && Inv(eq, m)
    ensures var t := AfterAssign(eq, m, key, value);
            var p := First(eq, t.entries, key, 0);
            && p < |t.entries| && t.entries[p].value == value
            && Others(eq, t.entries, key) == Others(eq, m.entries, key)
            && if Matching(eq, m.entries, key) == [] then
                 Matching(eq, t.entries, key) == [Entry(key, value, m.clock)] && t.clock == m.clock + 1
               else
                 && |t.entries| == |m.entries| && t.clock == m.clock && p < |m.entries|
                 && t.entries[p] == m.entries[p].(value := value)
                 && forall j | 0 <= j < |t.entries| && j != p :: t.entries[j] == m.entries[j]
  {
    hide Equivalence, Contiguous, InOrder, Matching, Others, InsertPosition, First;
    if First(eq, m.entries, key, 0) < |m.entries| {
      ValueReplaced(eq, m, key, value);
    } else {
      Blocks(eq, m.entries, key);
      InsertIsExact(eq, m, key, value);
      AssignKeeps(eq, m, key, value);
      OneMatch(eq, AfterAssign(eq, m, key, value), key, Entry(key, value, m.clock));
    }
  }

  lemma OneMatch<K(!new), V>(eq: (K, K) -> bool, t: State<K, V>, key: K, e: Entry<K, V>)
    requires Equivalence(eq) && Inv(eq, t) && Matching(eq, t.entries, key) == [e]
    ensures var p := First(eq, t.entries, key, 0); p < |t.entries| && t.entries[p] == e
  {
    hide Equivalence, Contiguous, InOrder, Matching, Others;
    Blocks(eq, t.entries, key);
    assert t.entries[First(eq, t.entries, key, 0)..InsertPosition(eq, t.entries, key)][0] == e;
  }

  lemma WithoutNone<K, V>(s: seq<Entry<K, V>>, from: nat)
    requires from <= |s|
    ensures Without(s, from, from) == s
  {
  }

  lemma WithoutOneMore<K, V>(s: seq<Entry<K, V>>, from: nat, to: nat)
    requires from <= to < |s|
    ensures var t := Without(s, from, to);
            from < |t| && t[from] == s[to] && t[..from] + t[from + 1..] == Without(s, from, to + 1)
  {
  }

  // ---------- the class ----------

  class ListMap<K(!new), V(0)> {
    const eq: (K, K) -> bool
    var container: seq<Entry<K, V>>
    var clock: nat  // history

    ghost function View(): State<K, V>
      reads this
    {
      State(container, clock)
    }

    ghost predicate Valid()
      reads this
    {
      Equivalence(eq) && Inv(eq, View())
    }

    constructor (eq: (K, K) -> bool)
      requires Equivalence(eq)
      ensures Valid() && this.eq == eq && View() == State([], 0)
    {
      this.eq := eq;
      container, clock := [], 0;
    }

    /** The index of the first entry with the key, or the length for end(). */
    method Find(key: K) returns (p: nat)
      requires Valid()
      ensures p == First(eq, container, key, 0)
    {
      p := 0;
      while p < |container|
        invariant p <= |container| && First(eq, container, key, p) == First(eq, container, key, 0)
      {
        if eq(container[p].key, key) {
          return;
        }
        p := p + 1;
      }
    }

    method Insert(key: K, value: V) returns (p: nat)
      requires Valid()
      modifies this
      ensures Valid() && View() == AfterInsert(eq, old(View()), key, value)
      ensures p == InsertPosition(eq, old(container), key)
    {
      InsertKeeps(eq, View(), key, value);
      p := Find(key);
      while p < |container| && eq(container[p].key, key)
        invariant p <= |container| && PastRun(eq, container, key, p) == InsertPosition(eq, container, key)
      {
        p := p + 1;
      }
      container := container[..p] + [Entry(key, value, clock)] + container[p..];
      clock := clock + 1;
    }

    method EraseAt(i: nat)
      requires Valid() && i < |container|
      modifies this
      ensures Valid() && View() == AfterEraseAt(old(View()), i)
    {
      WithoutKeeps(eq, View(), i, i + 1);
      container := container[..i] + container[i + 1..];
    }

    /** Removes every entry with the key and returns their number. */
    method EraseKey(key: K) returns (count: nat)
      requires Valid()
      modifies this`container
      ensures Valid() && View() == AfterEraseKey(eq, old(View()), key)
      ensures container == Others(eq, old(container), key)
      ensures count == |Matching(eq, old(container), key)|
    {
      hide Equivalence, Without, Inv, Contiguous, InOrder, Matching, Others;
      ghost var s := container;
      ghost var from, to := First(eq, s, key, 0), InsertPosition(eq, s, key);
      EraseKeyIsExact(eq, View(), key);
      EraseKeyKeeps(eq, View(), key);
      WithoutNone(s, from);
      FirstAgain(eq, s, key);
      count := 0;
      var p: int := Find(key);
      var removed := false;
      while p < |container|
        invariant removed == (count > 0) && (removed ==> p == from)
        invariant 0 <= p <= from <= from + count <= to <= |s|
        invariant First(eq, s, key, p) == from
        invariant container == Without(s, from, from + count)
        invariant PastRun(eq, s, key, from + count) == to
        invariant !removed ==> container == s
        decreases |container| - p
      {
        if eq(container[p].key, key) {
          WithoutOneMore(s, from, from + count);
          count := count + 1;
          container := container[..p] + container[p + 1..];
          removed := true;
        } else {
          if removed {
            WithoutOneMore(s, from, from + count);
            return;
          }
          p := p + 1;
        }
      }
    }

    method Clear()
      requires Valid()
      modifies this`container
      ensures Valid() && View() == old(View()).(entries := [])
    {
      container := [];
    }

    /** The constant operator []; None stands for NotFoundException. */
    method At(key: K) returns (r: Option<V>)
      requires Valid()
      ensures var p := First(eq, container, key, 0);
              r == if p < |container| then Some(container[p].value) else None
      ensures r == None <==> Matching(eq, container, key) == []
    {
      Blocks(eq, container, key);
      RunHasAll(eq, container, key);
      var p := Find(key);
      r := if p < |container| then Some(container[p].value) else None;
    }

    /** The other operator []: the index of the value referred to, which is made when
        the key is new. */
    method Index(key: K, initial: V) returns (p: nat)
      requires Valid()
      modifies this
      ensures Valid() && p < |container| && eq(container[p].key, key)
      ensures if First(eq, old(container), key, 0) < old(|container|)
              then View() == old(View()) && p == First(eq, old(container), key, 0)
              else View() == AfterInsert(eq, old(View()), key, initial) && p == InsertPosition(eq, old(container), key)
    {
      FirstMatches(eq, container, key, 0);
      p := Find(key);
      if p == |container| {
        p := Insert(key, initial);
      }
    }

    /** map[key] = value, through the reference. */
    method Assign(key: K, initial: V, value: V)
      requires Valid()
      modifies this
      ensures Valid() && View() == AfterAssign(eq, old(View()), key, value)
    {
      AssignKeeps(eq, View(), key, value);
      var p := Index(key, initial);
      container := container[p := container[p].(value := value)];
    }
  }
}
