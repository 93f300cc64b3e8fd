/** BasicFIFOBuffer: a queue of bounded size in one array. The data sit anywhere in
    the array and are moved to its front when room is needed; observers of two events
    are told when the buffer becomes readable and writable. */
module FifoBuffers {
  import opened Arithmetic
  import opened Options

  datatype Signal = Readable(on: bool) | Writable(on: bool)

  /** What the buffer means: a bounded queue. `signals` lists what observers were told. */
  datatype Queue<T> = Queue(content: seq<T>, size: nat, notifying: bool, eof: bool, error: bool, signals: seq<Signal>)

  predicate IsReadable<T>(q: Queue<T>) {
    |q.content| > 0 && !q.error
  }

  predicate IsFull<T>(q: Queue<T>) {
    |q.content| == q.size
  }

  predicate IsWritable<T>(q: Queue<T>) {
    !IsFull(q) && !q.error && !q.eof
  }

  // ---------- the bounded queue ----------

  /** The signals for a change of the number of elements: the transitions between
      empty and non-empty and between full and non-full. */
  function Transitions(before: nat, after: nat, size: nat): seq<Signal> {
    (if (before == 0) == (after == 0) then [] else [Readable(after > 0)])
    + (if (before == size) == (after == size) then [] else [Writable(after != size)])
  }

  function WithContent<T>(q: Queue<T>, content: seq<T>): Queue<T> {
    q.(content := content,
       signals := q.signals + if q.notifying then Transitions(|q.content|, |content|, q.size) else [])
  }

  function AfterRead<T>(q: Queue<T>, length: nat): Queue<T> {
    if length == 0 || !IsReadable(q) then q else WithContent(q, q.content[Min(length, |q.content|)..])
  }

  function AfterWrite<T>(q: Queue<T>, data: seq<T>): Queue<T>
    requires |q.content| <= q.size
  {
    if |data| == 0 || !IsWritable(q) then q
    else WithContent(q, q.content + data[..Min(|data|, q.size - |q.content|)])
  }

  function AfterDrain<T>(q: Queue<T>, length: nat): Queue<T> {
    WithContent(q, if length == 0 || length >= |q.content| then [] else q.content[length..])
  }

  /** copy and advance throw when the data do not fit or the buffer is not writable. */
  predicate Fits<T>(q: Queue<T>, length: nat)
    requires |q.content| <= q.size
  {
    length == 0 || (length <= q.size - |q.content| && IsWritable(q))
  }

  function AfterAppend<T>(q: Queue<T>, data: seq<T>): Queue<T>
    requires |q.content| <= q.size
  {
    if |data| > 0 && Fits(q, |data|) then WithContent(q, q.content + data) else q
  }

  function AfterSetError<T>(q: Queue<T>, on: bool): Queue<T> {
    if on then
      q.(content := [], error := true,
         signals := q.signals + (if IsReadable(q) && q.notifying then [Readable(false)] else [])
                              + (if IsWritable(q) && q.notifying then [Writable(false)] else []))
    else
      q.(error := false, signals := q.signals + if q.notifying && !q.eof then [Writable(true)] else [])
  }

  function AfterSetEof<T>(q: Queue<T>, on: bool): Queue<T> {
    q.(eof := on, signals := q.signals + if q.notifying then [Writable(!on)] else [])
  }

  // ---------- runs ----------

  /** Add stands for copy and for advance over data put behind the content. */
  datatype Op<T> =
    | DoRead(length: nat)
    | DoWrite(data: seq<T>)
    | DoDrain(length: nat)
    | DoAdd(data: seq<T>)
    | DoSetError(on: bool)
    | DoSetEof(on: bool)

  ghost predicate Inv<T>(q: Queue<T>) {
    |q.content| <= q.size && (q.error ==> |q.content| == 0)
  }

  function Step<T>(q: Queue<T>, op: Op<T>): Queue<T>
    requires |q.content| <= q.size
  {
    match op
    case DoRead(length) => AfterRead(q, length)
    case DoWrite(data) => AfterWrite(q, data)
    case DoDrain(length) => AfterDrain(q, length)
    case DoAdd(data) => AfterAppend(q, data)
    case DoSetError(on) => AfterSetError(q, on)
    case DoSetEof(on) => AfterSetEof(q, on)
  }

  lemma StepKeeps<T>(q: Queue<T>, op: Op<T>)
    requires Inv(q)
    ensures Inv(Step(q, op)) && Step(q, op).size == q.size && Step(q, op).notifying == q.notifying
  {
  }

  ghost function Run<T>(q: Queue<T>, ops: seq<Op<T>>): (r: Queue<T>)
    requires Inv(q)
    ensures Inv(r) && r.size == q.size && r.notifying == q.notifying
  {
    if |ops| == 0 then q
    else
      var before := Run(q, ops[..|ops| - 1]);
      StepKeeps(before, ops[|ops| - 1]);
      Step(before, ops[|ops| - 1])
  }

  /** What is in the buffer after each operation, and the flags. */
  lemma StepMeans<T>(q: Queue<T>, op: Op<T>)
    requires Inv(q)
    ensures var t, c, room := Step(q, op), q.content, q.size - |q.content|;
            match op
            case DoRead(length) =>
              t.content == (if length >= |c| then [] else c[length..]) && t.eof == q.eof && t.error == q.error
            case DoWrite(data) =>
              && t.content == c + (if q.error || q.eof then [] else if |data| <= room then data else data[..room])
              && t.eof == q.eof && t.error == q.error
            case DoDrain(length) =>
              && t.content == (if length == 0 || length >= |c| then [] else c[length..])
              && t.eof == q.eof && t.error == q.error
            case DoAdd(data) =>
              && t.content == c + (if q.error || q.eof || |data| > room then [] else data)
              && t.eof == q.eof && t.error == q.error
            case DoSetError(on) => t.content == (if on then [] else c) && t.eof == q.eof && t.error == on
            case DoSetEof(on) => t.content == c && t.eof == on && t.error == q.error
  {
  }

  /** An append that is exactly as long as the free space fills the buffer. */
  lemma FillsUp<T>(q: Queue<T>, data: seq<T>)
    requires Inv(q) && !q.error && !q.eof && |q.content| + |data| == q.size
    ensures Fits(q, |data|) && IsFull(AfterAppend(q, data)) && AfterAppend(q, data).content == q.content + data
  {
  }

  /** What copy and advance test. */
  lemma FitsMeans<T>(q: Queue<T>, length: nat)
    requires Inv(q)
    ensures Fits(q, length) <==> length == 0 || (|q.content| + length <= q.size && !q.error && !q.eof)
  {
  }

  /** What does not fit changes nothing. */
  lemma NothingFits<T>(q: Queue<T>, data: seq<T>)
    requires Inv(q)
    ensures q.error || q.eof || |data| == 0 ==> AfterAppend(q, data) == q
  {
  }

  lemma NothingAdded<T>(q: Queue<T>)
    requires Inv(q)
    ensures AfterAppend(q, []) == q
  {
  }

  lemma AddedWhole<T>(q: Queue<T>, data: seq<T>)
    requires Inv(q) && |data| > 0 && !q.error && !q.eof && |q.content| + |data| <= q.size
    ensures AfterAppend(q, data) == WithContent(q, q.content + data)
  {
    hide WithContent;
  }

  /** Readable is signalled exactly for the steps between empty and not, Writable for
      those between full and not, each at most once, Readable first. */
  lemma TransitionsMean(before: nat, after: nat, size: nat)
    ensures var t := Transitions(before, after, size);
            && (Readable(true) in t <==> before == 0 < after)
            && (Readable(false) in t <==> after == 0 < before)
            && (Writable(true) in t <==> before == size != after)
            && (Writable(false) in t <==> after == size != before)
            && |t| <= 2 && (|t| == 2 ==> t[0].Readable? && t[1].Writable?)
  {
  }

  /** The elements an operation adds at the back. */
  function Added<T>(q: Queue<T>, op: Op<T>): seq<T>
    requires |q.content| <= q.size
  {
    match op
    case DoWrite(data) => if IsWritable(q) then data[..Min(|data|, q.size - |q.content|)] else []
    case DoAdd(data) => if Fits(q, |data|) then data else []
    case _ => []
  }

  /** The elements an operation takes from the front. */
  function Removed<T>(q: Queue<T>, op: Op<T>): seq<T> {
    match op
    case DoRead(length) => if IsReadable(q) then q.content[..Min(length, |q.content|)] else []
    case DoDrain(length) => if length == 0 then q.content else q.content[..Min(length, |q.content|)]
    case DoSetError(on) => if on then q.content else []
    case _ => []
  }

  lemma StepConserves<T>(q: Queue<T>, op: Op<T>)
    requires Inv(q)
    ensures q.content + Added(q, op) == Removed(q, op) + Step(q, op).content
  {
  }

  ghost function AllAdded<T>(q: Queue<T>, ops: seq<Op<T>>): seq<T>
    requires Inv(q)
  {
    if |ops| == 0 then []
    else AllAdded(q, ops[..|ops| - 1]) + Added(Run(q, ops[..|ops| - 1]), ops[|ops| - 1])
  }

  ghost function AllRemoved<T>(q: Queue<T>, ops: seq<Op<T>>): seq<T>
    requires Inv(q)
  {
    if |ops| == 0 then []
    else AllRemoved(q, ops[..|ops| - 1]) + Removed(Run(q, ops[..|ops| - 1]), ops[|ops| - 1])
  }

  lemma Rejoin<T>(first: seq<T>, added: seq<T>, removed: seq<T>, middle: seq<T>, more: seq<T>, less: seq<T>,
        last: seq<T>)
    requires first + added == removed + middle
    requires middle + more == less + last
    ensures first + (added + more) == (removed + less) + last
  {
    assert first + (added + more) == (first + added) + more;
    assert removed + (middle + more) == (removed + middle) + more;
    assert removed + (less + last) == (removed + less) + last;
  }

  /** First in, first out, over every run: what has left the buffer, followed by what
      is in it, is what was there at first followed by what was added. */
  lemma {:induction false} FirstInFirstOut<T>(q: Queue<T>, ops: seq<Op<T>>)
    requires Inv(q)
    ensures q.content + AllAdded(q, ops) == AllRemoved(q, ops) + Run(q, ops).content
  {
    hide Added, Removed, Step;
    if |ops| > 0 {
      var front, last := ops[..|ops| - 1], ops[|ops| - 1];
      var before := Run(q, front);
      FirstInFirstOut(q, front);
      StepConserves(before, last);
      Rejoin(q.content, AllAdded(q, front), AllRemoved(q, front), before.content,
             Added(before, last), Removed(before, last), Run(q, ops).content);
    }
  }

  // ---------- what observers know ----------

  /** The last word on readability; before the first signal, unreadable. */
  function SaidReadable(signals: seq<Signal>): bool {
    if |signals| == 0 then false
    else if signals[|signals| - 1].Readable? then signals[|signals| - 1].on
    else SaidReadable(signals[..|signals| - 1])
  }

  /** The last word on writability; before the first signal, writable. */
  function SaidWritable(signals: seq<Signal>): bool {
    if |signals| == 0 then true
    else if signals[|signals| - 1].Writable? then signals[|signals| - 1].on
    else SaidWritable(signals[..|signals| - 1])
  }

  lemma Said(signals: seq<Signal>, s: Signal)
    ensures SaidReadable(signals + [s]) == if s.Readable? then s.on else SaidReadable(signals)
    ensures SaidWritable(signals + [s]) == if s.Writable? then s.on else SaidWritable(signals)
  {
    assert (signals + [s])[..|signals|] == signals;
  }

  lemma SaidMore(signals: seq<Signal>, r: seq<Signal>, w: seq<Signal>)
    requires |r| <= 1 && |w| <= 1
    requires forall s | s in r :: s.Readable?
    requires forall s | s in w :: s.Writable?
    ensures SaidReadable(signals + r + w) == if |r| == 0 then SaidReadable(signals) else r[0].on
    ensures SaidWritable(signals + r + w) == if |w| == 0 then SaidWritable(signals) else w[0].on
  {
    if |r| == 0 {
      assert signals + r == signals;
    } else {
      assert r == [r[0]];
      Said(signals, r[0]);
    }
    if |w| == 0 {
      assert signals + r + w == signals + r;
    } else {
      assert w == [w[0]];
      Said(signals + r, w[0]);
    }
  }

  lemma ChangeSaid<T>(q: Queue<T>, content: seq<T>)
    requires q.notifying
    ensures var t := WithContent(q, content);
            && SaidReadable(t.signals)
               == (if (|q.content| == 0) == (|content| == 0) then SaidReadable(q.signals) else |content| > 0)
            && SaidWritable(t.signals)
               == (if IsFull(q) == IsFull(t) then SaidWritable(q.signals) else !IsFull(t))
  {
    var r := if (|q.content| == 0) == (|content| == 0) then [] else [Readable(|content| > 0)];
    var w := if (|q.content| == q.size) == (|content| == q.size) then [] else [Writable(|content| != q.size)];
    SaidMore(q.signals, r, w);
    assert q.signals + r + w == q.signals + (r + w);
  }

  lemma FlagsSaid<T>(q: Queue<T>, op: Op<T>)
    requires Inv(q) && q.notifying && (op.DoSetError? || op.DoSetEof?)
    ensures var t := Step(q, op);
            && SaidReadable(t.signals) == (if op == DoSetError(true) && IsReadable(q) then false
                  else SaidReadable(q.signals))
            && SaidWritable(t.signals)
               == match op
                  case DoSetError(on) => if (if on then IsWritable(q) else !q.eof) then !on else SaidWritable(q.signals)
                  case DoSetEof(on) => !on
  {
    var r := if op == DoSetError(true) && IsReadable(q) then [Readable(false)] else [];
    var w := match op
             case DoSetError(on) => if (if on then IsWritable(q) else !q.eof) then [Writable(!on)] else []
             case DoSetEof(on) => [Writable(!on)];
    SaidMore(q.signals, r, w);
    assert q.signals + [] == q.signals;
    assert Step(q, op).signals == q.signals + r + w;
  }

  lemma FlagStepSaid<T>(q: Queue<T>, op: Op<T>)
    requires Inv(q) && q.notifying && SaidReadable(q.signals) == IsReadable(q)
    requires op.DoSetError? || op.DoSetEof?
    ensures SaidReadable(Step(q, op).signals) == IsReadable(Step(q, op))
  {
    hide SaidReadable, SaidWritable, Transitions, WithContent;
    FlagsSaid(q, op);
  }

  /** The other operations change the content, if anything, and signal it. */
  lemma ContentStep<T>(q: Queue<T>, op: Op<T>)
    requires Inv(q) && !op.DoSetError? && !op.DoSetEof?
    ensures var t := Step(q, op);
            (t == q || t == WithContent(q, t.content)) && (q.error ==> |t.content| == 0)
  {
  }

  lemma ContentStepSaid<T>(q: Queue<T>, op: Op<T>)
    requires Inv(q) && q.notifying && SaidReadable(q.signals) == IsReadable(q)
    requires !op.DoSetError? && !op.DoSetEof?
    ensures SaidReadable(Step(q, op).signals) == IsReadable(Step(q, op))
  {
    ContentStep(q, op);
    hide SaidReadable, SaidWritable, Transitions, Step;
    var t := Step(q, op);
    if t != q {
      ChangeSaid(q, t.content);
    }
  }

  lemma StepSaid<T>(q: Queue<T>, op: Op<T>)
    requires Inv(q) && q.notifying && SaidReadable(q.signals) == IsReadable(q)
    ensures SaidReadable(Step(q, op).signals) == IsReadable(Step(q, op))
  {
    hide *;
    if op.DoSetError? || op.DoSetEof? {
      FlagStepSaid(q, op);
    } else {
      ContentStepSaid(q, op);
    }
  }

  /** Over every run of a buffer that notifies, an observer of the events knows
      whether the buffer is readable. */
  lemma {:induction false} ReadableIsKnown<T>(q: Queue<T>, ops: seq<Op<T>>)
    requires Inv(q) && q.notifying && SaidReadable(q.signals) == IsReadable(q)
    ensures SaidReadable(Run(q, ops).signals) == IsReadable(Run(q, ops))
  {
    if |ops| > 0 {
      ReadableIsKnown(q, ops[..|ops| - 1]);
      StepSaid(Run(q, ops[..|ops| - 1]), ops[|ops| - 1]);
    }
  }

  /** The operations after which observers are wrong about writability: reading from a
      full buffer whose EOF flag is set, and clearing a flag while the buffer is full
      or, for EOF, in error. */
  predicate Misleads<T>(q: Queue<T>, op: Op<T>) {
    match op
    case DoRead(length) => q.eof && IsFull(q) && length > 0 && q.size > 0
    case DoDrain(_) => q.eof && IsFull(q) && q.size > 0
    case DoSetError(on) => !on && IsFull(q) && !q.eof
    case DoSetEof(on) => !on && (IsFull(q) || q.error)
    case _ => false
  }

  /** Writability is known, too, after exactly the operations that do not mislead. */
  lemma WritableIsKnown<T>(q: Queue<T>, op: Op<T>)
    requires Inv(q) && q.notifying && SaidWritable(q.signals) == IsWritable(q)
    ensures SaidWritable(Step(q, op).signals) == IsWritable(Step(q, op)) <==> !Misleads(q, op)
  {
    hide SaidWritable, SaidReadable, Transitions;
    var t := Step(q, op);
    if op.DoSetError? || op.DoSetEof? {
      FlagsSaid(q, op);
    } else {
      assert t == q || t == WithContent(q, t.content);
      ChangeSaid(q, t.content);
    }
  }

  /** Over every run none of whose operations misleads, an observer knows whether the
      buffer is writable. */
  lemma {:induction false} WritableIsKnownOverRuns<T>(q: Queue<T>, ops: seq<Op<T>>)
    requires Inv(q) && q.notifying && SaidWritable(q.signals) == IsWritable(q)
    requires forall k | 0 <= k < |ops| :: !Misleads(Run(q, ops[..k]), ops[k])
    ensures SaidWritable(Run(q, ops).signals) == IsWritable(Run(q, ops))
  {
    hide SaidWritable, IsWritable, Misleads, Step, Inv;
    if |ops| > 0 {
      var front := ops[..|ops| - 1];
      forall k | 0 <= k < |front| ensures !Misleads(Run(q, front[..k]), front[k]) {
        assert front[..k] == ops[..k];
      }
      WritableIsKnownOverRuns(q, front);
      WritableIsKnown(Run(q, front), ops[|ops| - 1]);
    }
  }

  /** For instance: EOF is set on a full buffer, and then one element is read. */
  lemma MisledAfterEof(x: int)
    ensures var q := AfterRead(AfterSetEof(Queue([x], 1, true, false, false, [Readable(true), Writable(false)]),
          true), 1);
            SaidWritable(q.signals) && !IsWritable(q)
  {
  }

  /** With reading, writing, draining, copying and advancing alone, observers of a new
      buffer know at any time whether it is empty and, unless its size is zero, whether
      it is full. Of a buffer of size zero, which is always full, they are never told. */
  lemma {:induction false} TransitionsAreKnown<T>(size: nat, ops: seq<Op<T>>)
    requires forall k | 0 <= k < |ops| :: !ops[k].DoSetError? && !ops[k].DoSetEof?
    ensures var q := Run(Queue([], size, true, false, false, []), ops);
            && !q.eof && !q.error && SaidReadable(q.signals) == (|q.content| > 0)
            && SaidWritable(q.signals) == (size == 0 || |q.content| < size)
  {
    if |ops| > 0 {
      var front, last := ops[..|ops| - 1], ops[|ops| - 1];
      TransitionsAreKnown(size, front);
      var before := Run(Queue([], size, true, false, false, []), front);
      hide SaidReadable, SaidWritable, Transitions;
      ContentStep(before, last);
      ContentStepSaid(before, last);
      var t := Step(before, last);
      if t != before {
        ChangeSaid(before, t.content);
      }
    }
  }

  // ---------- the class ----------

  class BasicFIFOBuffer<T(0)> {
    const buffer: array<T>
    var first: nat
    var used: nat
    var notifying: bool
    var eof: bool
    var error: bool
    var signals: seq<Signal>

    ghost predicate Valid()
      reads this
      reads buffer
    {
      first + used <= buffer.Length && (error ==> used == 0)
    }

    ghost function View(): (q: Queue<T>)
      requires Valid()
      reads this, buffer
      ensures Inv(q) && q.size == buffer.Length && |q.content| == used
    {
      Queue(buffer[first..first + used], buffer.Length, notifying, eof, error, signals)
    }

    constructor (size: nat, notify: bool)
      ensures Valid() && fresh(buffer) && View() == Queue([], size, notify, false, false, [])
    {
      buffer := new T[size];
      first, used, notifying, eof, error, signals := 0, 0, notify, false, false, [];
    }

    /** The constructor that copies existing data. */
    constructor Filled(data: seq<T>, notify: bool)
      ensures Valid() && fresh(buffer) && View() == Queue(data, |data|, notify, false, false, [])
    {
      buffer := new T[|data|](i requires 0 <= i < |data| => data[i]);
      first, used, notifying, eof, error, signals := 0, |data|, notify, false, false, [];
    }

    method Notify(usedBefore: nat)
      requires usedBefore <= buffer.Length && used <= buffer.Length
      modifies this`signals
      ensures signals == old(signals) + Transitions(usedBefore, used, buffer.Length)
    {
      if usedBefore == 0 && used > 0 {
        signals := signals + [Readable(true)];
      } else if usedBefore > 0 && used == 0 {
        signals := signals + [Readable(false)];
      }
      if usedBefore == buffer.Length && used < buffer.Length {
        signals := signals + [Writable(true)];
      } else if usedBefore < buffer.Length && used == buffer.Length {
        signals := signals + [Writable(false)];
      }
    }

    /** begin(): moves the data to the front of the array; the content is unchanged. */
    method Begin()
      requires Valid()
      modifies this`first, buffer
      ensures Valid() && first == 0 && View() == old(View())
      ensures forall k | used <= k < buffer.Length :: buffer[k] == old(buffer[k])
    {
      if first != 0 {
        forall k | 0 <= k < used {
          buffer[k] := buffer[first + k];
        }
        first := 0;
      }
    }

    /** next(): where the next element goes, as an index of the array. */
    method Next() returns (position: nat)
      requires Valid()
      modifies this`first, buffer
      ensures Valid() && first == 0 && position == used && View() == old(View())
      ensures forall k | used <= k < buffer.Length :: buffer[k] == old(buffer[k])
    {
      Begin();
      position := used;
    }

    method Peek(into: array<T>, length: nat) returns (n: nat)
      requires Valid() && length <= into.Length && into != buffer
      modifies into
      ensures n == if IsReadable(View()) then Min(length, |View().content|) else 0
      ensures into[..n] == View().content[..n] && into[n..] == old(into[n..])
    {
      if length == 0 || used == 0 || error {
        return 0;
      }
      n := if length > used then used else length;
      forall k | 0 <= k < n {
        into[k] := buffer[first + k];
      }
    }

    /** How both reads take out the `n` elements they have copied: the position moves by
        the length asked for unless nothing is left. */
    method TakeOut(n: nat, length: nat)
      requires Valid() && n <= used && (n == length || n == used)
      modifies this`first, this`used, this`signals
      ensures Valid() && used == old(used) - n
      ensures View() == WithContent(old(View()), old(View()).content[n..])
      ensures View().content == old(View()).content[n..]
    {
      hide Transitions;
      ghost var content := View().content;
      var usedBefore := used;
      used := used - n;
      first := if used == 0 then 0 else first + length;
      assert View().content == content[n..];
      if notifying {
        Notify(usedBefore);
      }
    }

    method Read(into: array<T>, length: nat) returns (n: nat)
      requires Valid() && length <= into.Length && into != buffer
      modifies this`first, this`used, this`signals, into
      ensures Valid() && View() == AfterRead(old(View()), length)
      ensures n <= length && into[..n] == Removed(old(View()), DoRead(length)) && into[n..] == old(into[n..])
      ensures n == if length < old(used) then length else old(used)
      ensures old(View()).content == into[..n] + View().content
    {
      hide WithContent;
      if length == 0 || used == 0 || error {
        return 0;
      }
      n := Peek(into, length);
      TakeOut(n, length);
    }

    /** The overload that fills a Buffer of its own size; length 0 means everything. */
    method ReadBuffer(length: nat) returns (data: Option<seq<T>>)
      requires Valid()
      modifies this`first, this`used, this`signals
      ensures Valid() && View() == AfterRead(old(View()), if length == 0 then old(used) else length)
      ensures data == if !old(IsReadable(View())) then None
                      else Some(Removed(old(View()), DoRead(if length == 0 then old(used) else length)))
      ensures data.None? <==> old(used) == 0
      ensures data.Some? ==>
        && |data.value| == (if length == 0 || length > old(used) then old(used) else length)
        && old(View()).content == data.value + View().content
    {
      hide WithContent;
      if used == 0 || error {
        return None;
      }
      var n := if length == 0 || length > used then used else length;
      assert buffer[first..first + n] == View().content[..n];
      data := Some(buffer[first..first + n]);
      TakeOut(n, length);
    }

    /** memcpy into the array. */
    method CopyIn(position: nat, data: seq<T>)
      requires position + |data| <= buffer.Length
      modifies buffer
      ensures buffer[position..position + |data|] == data
      ensures buffer[..position] == old(buffer[..position])
    {
      forall k | 0 <= k < |data| {
        buffer[position + k] := data[k];
      }
    }

    /** memcpy(begin() + _used, data) with the count moved on. */
    method Place(data: seq<T>)
      requires Valid() && !error && |data| <= buffer.Length - used
      modifies this`first, this`used, buffer
      ensures Valid() && View() == old(View()).(content := old(View()).content + data)
    {
      Begin();
      ghost var content := View().content;
      assert buffer[..used] == content;
      CopyIn(used, data);
      assert buffer[..used + |data|] == buffer[..used] + buffer[used..used + |data|];
      used := used + |data|;
      assert View().content == buffer[..used];
    }

    /** What advance takes over: the elements behind the data, or, where those would not
        do, the ones behind the place that compaction moves the data to. */
    ghost function Behind(length: nat): (s: seq<T>)
      requires Valid() && used + length <= buffer.Length
      reads this, buffer
      ensures |s| == length
    {
      var behind := if buffer.Length - (first + used) < length then used else first + used;
      buffer[behind..behind + length]
    }

    /** The compaction that write and advance do when the room behind the data is too
        short. */
    method MakeRoom(length: nat)
      requires Valid()
      modifies this`first, buffer
      ensures Valid() && View() == old(View())
      ensures first == if buffer.Length - old(first + used) < length then 0 else old(first)
      ensures used + length <= buffer.Length ==>
                first + used + length <= buffer.Length
                && buffer[first + used..first + used + length] == old(Behind(length))
      ensures forall k | first + used <= k < buffer.Length :: buffer[k] == old(buffer[k])
    {
      if buffer.Length - (first + used) < length {
        Begin();
      }
    }

    method Write(data: seq<T>) returns (n: nat)
      requires Valid()
      modifies this`first, this`used, this`signals, buffer
      ensures Valid() && View() == AfterWrite(old(View()), data)
      ensures n == |Added(old(View()), DoWrite(data))|
      ensures n == if error || eof then 0
                   else if |data| <= buffer.Length - old(used) then |data| else buffer.Length - old(used)
      ensures View().content == old(View()).content + data[..n]
    {
      hide Transitions;
      if |data| == 0 || used == buffer.Length || error || eof {
        return 0;
      }
      MakeRoom(|data|);
      var usedBefore := used;
      var available := buffer.Length - used - first;
      n := if |data| > available then available else |data|;
      Place(data[..n]);
      if notifying {
        Notify(usedBefore);
      }
    }

    method Drain(length: nat)
      requires Valid()
      modifies this`first, this`used, this`signals
      ensures Valid() && View() == AfterDrain(old(View()), length)
      ensures View().content == if length == 0 || length > old(used) then [] else old(View()).content[length..]
    {
      var usedBefore := used;
      if length == 0 || length >= used {
        first, used := 0, 0;
      } else {
        first, used := first + length, used - length;
      }
      if notifying {
        Notify(usedBefore);
      }
    }

    /** False stands for InvalidAccessException. */
    method Copy(data: seq<T>) returns (ok: bool)
      requires Valid()
      modifies this`first, this`used, this`signals, buffer
      ensures Valid() && View() == AfterAppend(old(View()), data)
      ensures ok <==> |data| == 0 || (|old(View()).content| + |data| <= buffer.Length && !error && !eof)
      ensures View().content == old(View()).content + if ok then data else []
    {
      if |data| == 0 {
        return true;
      }
      if |data| > buffer.Length - used || used == buffer.Length || error || eof {
        return false;
      }
      var usedBefore := used;
      Place(data);
      if notifying {
        Notify(usedBefore);
      }
      return true;
    }

    method TakeOver(length: nat)
      requires Valid() && !error && first + used + length <= buffer.Length
      modifies this`used, this`signals
      ensures Valid() && used == old(used) + length
      ensures View() == WithContent(old(View()), old(View()).content + buffer[first + used - length..first + used])
      ensures View().content == old(View()).content + buffer[first + used - length..first + used]
    {
      hide Transitions;
      var usedBefore := used;
      ghost var content := View().content;
      used := used + length;
      assert View().content == content + buffer[first + usedBefore..first + used];
      if notifying {
        Notify(usedBefore);
      }
    }

    /** Takes over the elements lying behind the content, where next() pointed if the
        data need not be moved first. */
    method Advance(length: nat) returns (ok: bool)
      requires Valid()
      modifies this`first, this`used, this`signals, buffer
      ensures Valid()
      ensures ok <==> length == 0 || (old(used) + length <= buffer.Length && !error && !eof)
      ensures !ok ==> View() == old(View())
      ensures ok ==> View() == AfterAppend(old(View()), old(Behind(length)))
      ensures ok ==> View().content == old(View()).content + old(Behind(length))
    {
      hide Transitions, WithContent, AfterAppend, Fits;
      if length == 0 {
        NothingAdded(View());
        assert Behind(0) == [];
        return true;
      }
      if length > buffer.Length - used || used == buffer.Length || error || eof {
        return false;
      }
      AddedWhole(View(), Behind(length));
      MakeRoom(length);
      TakeOver(length);
      return true;
    }

    /** The documented way to fill the buffer in place: copy to next(), then advance. */
    method FillInPlace(data: seq<T>) returns (ok: bool)
      requires Valid() && |data| <= buffer.Length - used
      modifies this`first, this`used, this`signals, buffer
      ensures Valid() && View() == AfterAppend(old(View()), data)
      ensures ok <==> |data| == 0 || (!error && !eof)
      ensures View().content == old(View()).content + if ok then data else []
    {
      hide Transitions, WithContent, AfterAppend, Fits;
      NothingFits(View(), data);
      var position := Next();
      FillBehind(position, data);
      ok := Advance(|data|);
    }

    method FillBehind(position: nat, data: seq<T>)
      requires Valid() && first == 0 && position == used && used + |data| <= buffer.Length
      modifies buffer
      ensures Valid() && View() == old(View()) && Behind(|data|) == data
    {
      CopyIn(position, data);
      assert View().content == buffer[..position];
    }

    method SetError(on: bool)
      requires Valid()
      modifies this`used, this`error, this`signals
      ensures Valid() && View() == AfterSetError(old(View()), on)
      ensures error == on && View().content == if on then [] else old(View()).content
    {
      hide Transitions, WithContent;
      assert signals + [] == signals;
      if on {
        if used != 0 && !error && notifying {
          signals := signals + [Readable(false)];
        }
        assert signals + [] == signals;
        if used != buffer.Length && !error && !eof && notifying {
          signals := signals + [Writable(false)];
        }
        error := on;
        used := 0;
      } else {
        error := false;
        if notifying && !eof {
          signals := signals + [Writable(true)];
        }
      }
    }

    method SetEOF(on: bool)
      requires Valid()
      modifies this`eof, this`signals
      ensures Valid() && View() == AfterSetEof(old(View()), on)
      ensures eof == on && View().content == old(View()).content
    {
      if notifying {
        signals := signals + [Writable(!on)];
      }
      eof := on;
    }

    /** operator []; None stands for InvalidAccessException. */
    method At(index: nat) returns (r: Option<T>)
      requires Valid()
      ensures r == if index < |View().content| then Some(View().content[index]) else None
    {
      if index >= used {
        return None;
      }
      return Some(buffer[first + index]);
    }
  }
}
