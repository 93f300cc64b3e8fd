/** The protobuf wire format below the level of a message: sequences of tagged
    fields, as the runtime keeps, writes, measures and parses unknown fields. */
module WireFields {
  import opened Bytes
  import opened Options
  import opened Varints

  datatype Field =
    | VarintField(number: nat, varint: uint64)
    | Fixed64Field(number: nat, bits: seq<byte>)
    | LengthField(number: nat, data: seq<byte>)
    | GroupField(number: nat, fields: seq<Field>)
    | Fixed32Field(number: nat, bits: seq<byte>)

  const MAX_NUMBER: nat := 0x1fff_ffff
  const RECURSION_LIMIT: nat := 100

  // ---------- writing ----------

  function TagOf(number: nat, wireType: nat): nat { number * 8 + wireType }

  function WireType(f: Field): nat {
    match f
    case VarintField(_, _) => 0
    case Fixed64Field(_, _) => 1
    case LengthField(_, _) => 2
    case GroupField(_, _) => 3
    case Fixed32Field(_, _) => 5
  }

  function Payload(f: Field): seq<byte>
    decreases f, 0
  {
    match f
    case VarintField(_, v) => EncodeVarint(v)
    case Fixed64Field(_, bits) => bits
    case LengthField(_, data) => EncodeVarint(|data|) + data
    case GroupField(number, fields) => SerializeFields(fields) + EncodeVarint(TagOf(number, 4))
    case Fixed32Field(_, bits) => bits
  }

  function SerializeField(f: Field): seq<byte>
    decreases f, 1
  {
    EncodeVarint(TagOf(f.number, WireType(f))) + Payload(f)
  }

  function SerializeFields(fs: seq<Field>): seq<byte>
    decreases fs
  {
    if |fs| == 0 then [] else SerializeField(fs[0]) + SerializeFields(fs[1..])
  }

  /** A field the format can carry, with groups nested at most `depth` deep. */
  predicate Encodable(f: Field, depth: nat)
    decreases f
  {
    && 1 <= f.number <= MAX_NUMBER
    && match f
       case VarintField(_, _) => true
       case Fixed64Field(_, bits) => |bits| == 8
       case LengthField(_, data) => |data| <= MAX_SIZE
       case GroupField(_, fields) => depth > 0 && AllEncodable(fields, depth - 1)
       case Fixed32Field(_, bits) => |bits| == 4
  }

  predicate AllEncodable(fs: seq<Field>, depth: nat)
    decreases fs
  {
    |fs| > 0 ==> Encodable(fs[0], depth) && AllEncodable(fs[1..], depth)
  }

  // ---------- reading ----------

  /** How a sequence of fields ends: with the input, or at a tag that is zero or
      closes a group. */
  datatype End = EndOfInput | AtTag(tag: nat)

  datatype ParsedField = ParsedField(field: Field, rest: seq<byte>)
  datatype ParsedFields = ParsedFields(fields: seq<Field>, end: End, rest: seq<byte>)

  /** One field whose tag has been read; None is a parse failure. */
  function ParseField(tag: nat, s: seq<byte>, depth: nat): (r: Option<ParsedField>)
    ensures r.Some? ==> |r.value.rest| <= |s|
    decreases |s|, 1
  {
    var number := tag / 8;
    if number == 0 then None
    else if tag % 8 == 0 then
      (match Varint64(s)
       case None => None
       case Some(v) => Some(ParsedField(VarintField(number, v.value), s[v.size..])))
    else if tag % 8 == 1 then
      if |s| < 8 then None else Some(ParsedField(Fixed64Field(number, s[..8]), s[8..]))
    else if tag % 8 == 2 then
      (match Size(s)
       case None => None
       case Some(n) =>
         if |s| < n.size + n.value then None
         else Some(ParsedField(LengthField(number, s[n.size..n.size + n.value]), s[n.size + n.value..])))
    else if tag % 8 == 3 then
      if depth == 0 then None
      else
        (match ParseFields(s, depth - 1)
         case None => None
         case Some(g) =>
           if g.end == AtTag(TagOf(number, 4)) then Some(ParsedField(GroupField(number, g.fields), g.rest)) else None)
    else if tag % 8 == 5 then
      if |s| < 4 then None else Some(ParsedField(Fixed32Field(number, s[..4]), s[4..]))
    else None
  }

  function ParseFields(s: seq<byte>, depth: nat): (r: Option<ParsedFields>)
    ensures r.Some? ==> |r.value.rest| <= |s|
    decreases |s|, 0
  {
    if |s| == 0 then Some(ParsedFields([], EndOfInput, []))
    else
      match Tag(s)
      case None => None
      case Some(t) =>
        var tail := s[t.size..];
        if t.value == 0 || t.value % 8 == 4 then Some(ParsedFields([], AtTag(t.value), tail))
        else
          match ParseField(t.value, tail, depth)
          case None => None
          case Some(f) =>
            match ParseFields(f.rest, depth)
            case None => None
            case Some(fs) => Some(ParsedFields([f.field] + fs.fields, fs.end, fs.rest))
  }

  /** The fields of a whole message body; it must end with the input. */
  function Tokenize(s: seq<byte>): Option<seq<Field>> {
    match ParseFields(s, RECURSION_LIMIT)
    case None => None
    case Some(r) => if r.end == EndOfInput then Some(r.fields) else None
  }

  // ---------- one step of the loop ----------

  predicate Closes(tag: nat) { tag == 0 || tag % 8 == 4 }

  /** `f` and then the fields of what is left. */
  function AndThen(f: Option<ParsedField>, depth: nat): Option<ParsedFields> {
    match f
    case None => None
    case Some(f) =>
      match ParseFields(f.rest, depth)
      case None => None
      case Some(fs) => Some(ParsedFields([f.field] + fs.fields, fs.end, fs.rest))
  }

  lemma StepField(s: seq<byte>, depth: nat)
    requires Tag(s).Some?
    ensures var t := Tag(s).value;
            var tail := s[t.size..];
            ParseFields(s, depth)
              == if Closes(t.value) then Some(ParsedFields([], AtTag(t.value), tail))
                 else AndThen(ParseField(t.value, tail, depth), depth)
  {
  }

  lemma Cut<T>(a: seq<T>, b: seq<T>)
    ensures (a + b)[..|a|] == a && (a + b)[|a|..] == b
  {
  }

  // ---------- what is written is what is read ----------

  lemma TagRoundTrip(number: nat, wireType: nat, t: seq<byte>)
    requires 1 <= number <= MAX_NUMBER && wireType < 8
    ensures var tag := EncodeVarint(TagOf(number, wireType));
            Tag(tag + t) == Some(Read(TagOf(number, wireType), |tag|)) && (tag + t)[|tag|..] == t
  {
    EncodedSizes(TagOf(number, wireType));
    DecodeEncode(TagOf(number, wireType), t, 5);
  }

  lemma VarintRoundTrip(number: nat, v: uint64, t: seq<byte>, depth: nat)
    requires number > 0
    ensures ParseField(TagOf(number, 0), EncodeVarint(v) + t, depth) == Some(ParsedField(VarintField(number, v), t))
  {
    hide EncodeVarint;
    EncodedSizes(v);
    DecodeEncode(v, t, 10);
    Cut(EncodeVarint(v), t);
  }

  lemma LengthRoundTrip(number: nat, data: seq<byte>, t: seq<byte>, depth: nat)
    requires number > 0 && |data| <= MAX_SIZE
    ensures ParseField(TagOf(number, 2), EncodeVarint(|data|) + data + t, depth)
         == Some(ParsedField(LengthField(number, data), t))
  {
    hide EncodeVarint;
    var size := EncodeVarint(|data|);
    var s := size + data + t;
    EncodedSizes(|data|);
    DecodeEncode(|data|, data + t, 5);
    assert s == size + (data + t);
    assert s[|size|..|size| + |data|] == data;
    assert s[|size| + |data|..] == t;
  }

  lemma FixedRoundTrip(f: Field, t: seq<byte>, depth: nat)
    requires Encodable(f, depth) && (f.Fixed32Field? || f.Fixed64Field?)
    ensures ParseField(TagOf(f.number, WireType(f)), Payload(f) + t, depth) == Some(ParsedField(f, t))
  {
    Cut(f.bits, t);
  }

  lemma GroupRoundTrip(number: nat, fs: seq<Field>, s: seq<byte>, t: seq<byte>, depth: nat)
    requires number > 0 && depth > 0
    requires ParseFields(s, depth - 1) == Some(ParsedFields(fs, AtTag(TagOf(number, 4)), t))
    ensures ParseField(TagOf(number, 3), s, depth) == Some(ParsedField(GroupField(number, fs), t))
  {
    hide ParseFields, EncodeVarint;
  }

  lemma PayloadRoundTrip(f: Field, t: seq<byte>, depth: nat)
    requires Encodable(f, depth)
    ensures ParseField(TagOf(f.number, WireType(f)), Payload(f) + t, depth) == Some(ParsedField(f, t))
    decreases f, 0
  {
    hide ParseField, ParseFields, EncodeVarint;
    match f {
      case VarintField(number, v) =>
        VarintRoundTrip(number, v, t, depth);
      case LengthField(number, data) =>
        LengthRoundTrip(number, data, t, depth);
      case GroupField(number, fields) =>
        var close := EncodeVarint(TagOf(number, 4));
        var s := SerializeFields(fields) + (close + t);
        FieldsInGroup(fields, number, t, depth - 1);
        GroupRoundTrip(number, fields, s, t, depth);
        assert Payload(f) + t == s;
      case _ =>
        FixedRoundTrip(f, t, depth);
    }
  }

  lemma FieldRoundTrip(f: Field, t: seq<byte>, depth: nat)
    requires Encodable(f, depth)
    ensures ParseFields(SerializeField(f) + t, depth) == AndThen(Some(ParsedField(f, t)), depth)
    decreases f, 1
  {
    hide ParseField, ParseFields, EncodeVarint, Payload;
    var tag := EncodeVarint(TagOf(f.number, WireType(f)));
    var s := SerializeField(f) + t;
    assert s == tag + (Payload(f) + t);
    TagRoundTrip(f.number, WireType(f), Payload(f) + t);
    StepField(s, depth);
    PayloadRoundTrip(f, t, depth);
  }

  lemma FieldsInGroup(fs: seq<Field>, number: nat, t: seq<byte>, depth: nat)
    requires AllEncodable(fs, depth) && 1 <= number <= MAX_NUMBER
    ensures ParseFields(SerializeFields(fs) + (EncodeVarint(TagOf(number, 4)) + t), depth)
         == Some(ParsedFields(fs, AtTag(TagOf(number, 4)), t))
    decreases fs
  {
    hide ParseField, ParseFields, EncodeVarint, SerializeField;
    var close := EncodeVarint(TagOf(number, 4));
    if |fs| == 0 {
      assert SerializeFields(fs) + (close + t) == close + t;
      TagRoundTrip(number, 4, t);
      StepField(close + t, depth);
    } else {
      FieldsInGroup(fs[1..], number, t, depth);
      var after := SerializeFields(fs[1..]) + (close + t);
      FieldRoundTrip(fs[0], after, depth);
      assert SerializeFields(fs) + (close + t) == SerializeField(fs[0]) + after;
      assert [fs[0]] + fs[1..] == fs;
    }
  }

  /** Any fields the format can carry, written and read back, are unchanged. */
  lemma {:induction false} FieldsRoundTrip(fs: seq<Field>)
    requires AllEncodable(fs, RECURSION_LIMIT)
    ensures Tokenize(SerializeFields(fs)) == Some(fs)
    ensures ParseFields(SerializeFields(fs), RECURSION_LIMIT) == Some(ParsedFields(fs, EndOfInput, []))
  {
    if |fs| > 0 {
      FieldsRoundTrip(fs[1..]);
      FieldRoundTrip(fs[0], SerializeFields(fs[1..]), RECURSION_LIMIT);
      assert [fs[0]] + fs[1..] == fs;
    }
  }

  // ---------- in bytes ----------

  /** The bytes of fields with a number below 16 and short payloads. */
  lemma FieldBytes(f: Field)
    requires 1 <= f.number <= 15
    ensures match f
            case VarintField(n, v) => v < 128 ==> SerializeField(f) == [8 * n, v]
            case Fixed64Field(n, bits) => SerializeField(f) == [8 * n + 1] + bits
            case LengthField(n, data) => |data| < 128 ==> SerializeField(f) == [8 * n + 2, |data|] + data
            case GroupField(n, fields) => SerializeField(f) == [8 * n + 3] + SerializeFields(fields) + [8 * n + 4]
            case Fixed32Field(n, bits) => SerializeField(f) == [8 * n + 5] + bits
  {
  }

  /** Groups numbered 1, `k` of them one inside the other. */
  function NestedBytes(k: nat): seq<byte> {
    if k == 0 then [] else [0x0B] + NestedBytes(k - 1) + [0x0C]
  }

  function NestedGroups(k: nat): seq<Field> {
    if k == 0 then [] else [GroupField(1, NestedGroups(k - 1))]
  }

  lemma GroupTags(t: seq<byte>)
    ensures Tag([0x0B] + t) == Some(Read(0x0B, 1)) && ([0x0B] + t)[1..] == t
    ensures Tag([0x0C] + t) == Some(Read(0x0C, 1)) && ([0x0C] + t)[1..] == t
  {
  }

  /** They parse within a group as long as the depth allows. */
  lemma {:induction false} NestedInGroup(k: nat, t: seq<byte>, depth: nat)
    ensures ParseFields(NestedBytes(k) + ([0x0C] + t), depth)
         == if k <= depth then Some(ParsedFields(NestedGroups(k), AtTag(0x0C), t)) else None
  {
    hide ParseField, ParseFields, Tag;
    var s := NestedBytes(k) + ([0x0C] + t);
    GroupTags(t);
    StepField([0x0C] + t, depth);
    if k == 0 {
      assert s == [0x0C] + t;
    } else {
      var tail := NestedBytes(k - 1) + ([0x0C] + ([0x0C] + t));
      assert s == [0x0B] + tail;
      GroupTags(tail);
      StepField(s, depth);
      OneGroup(tail, depth);
      if depth > 0 {
        NestedInGroup(k - 1, [0x0C] + t, depth - 1);
        assert [GroupField(1, NestedGroups(k - 1))] + [] == NestedGroups(k);
      }
    }
  }

  lemma OneGroup(s: seq<byte>, depth: nat)
    ensures ParseField(0x0B, s, depth)
         == if depth == 0 then None
            else
              match ParseFields(s, depth - 1)
              case None => None
              case Some(g) =>
                if g.end == AtTag(0x0C) then Some(ParsedField(GroupField(1, g.fields), g.rest)) else None
  {
  }

  /** A parser accepts a hundred groups one inside the other, and no more. */
  lemma NestingLimit(k: nat)
    ensures Tokenize(NestedBytes(k)) == if k <= 100 then Some(NestedGroups(k)) else None
  {
    hide ParseField, ParseFields, Tag;
    NothingLeft(RECURSION_LIMIT);
    if k > 0 {
      var tail := NestedBytes(k - 1) + ([0x0C] + []);
      assert NestedBytes(k) == [0x0B] + tail;
      GroupTags(tail);
      StepField(NestedBytes(k), RECURSION_LIMIT);
      OneGroup(tail, RECURSION_LIMIT);
      NestedInGroup(k - 1, [], RECURSION_LIMIT - 1);
      assert [GroupField(1, NestedGroups(k - 1))] + [] == NestedGroups(k);
    }
  }

  lemma NothingLeft(depth: nat)
    ensures ParseFields([], depth) == Some(ParsedFields([], EndOfInput, []))
  {
  }

  // ---------- concatenation ----------

  lemma Slices<T>(s: seq<T>, t: seq<T>, i: nat, j: nat)
    requires i <= j <= |s|
    ensures (s + t)[i..j] == s[i..j] && (s + t)[j..] == s[j..] + t
  {
  }

  lemma PrefixLength(number: nat, s: seq<byte>, t: seq<byte>, depth: nat)
    requires ParseField(TagOf(number, 2), s, depth).Some?
    ensures var r := ParseField(TagOf(number, 2), s, depth).value;
            ParseField(TagOf(number, 2), s + t, depth) == Some(ParsedField(r.field, r.rest + t))
  {
    DecodePrefix(s, t, 5);
    var n := Size(s).value;
    Slices(s, t, n.size, n.size + n.value);
  }

  lemma PrefixVarint(number: nat, s: seq<byte>, t: seq<byte>, depth: nat)
    requires ParseField(TagOf(number, 0), s, depth).Some?
    ensures var r := ParseField(TagOf(number, 0), s, depth).value;
            ParseField(TagOf(number, 0), s + t, depth) == Some(ParsedField(r.field, r.rest + t))
  {
    DecodePrefix(s, t, 10);
    var n := Varint64(s).value.size;
    assert (s + t)[n..] == s[n..] + t;
  }

  lemma PrefixFixed(tag: nat, s: seq<byte>, t: seq<byte>, depth: nat)
    requires tag % 8 !in {0, 2, 3} && ParseField(tag, s, depth).Some?
    ensures var r := ParseField(tag, s, depth).value;
            ParseField(tag, s + t, depth) == Some(ParsedField(r.field, r.rest + t))
  {
    var n := if tag % 8 == 1 then 8 else 4;
    Slices(s, t, 0, n);
  }

  lemma PrefixField(tag: nat, s: seq<byte>, t: seq<byte>, depth: nat)
    requires ParseField(tag, s, depth).Some?
    ensures var r := ParseField(tag, s, depth).value;
            ParseField(tag, s + t, depth) == Some(ParsedField(r.field, r.rest + t))
    decreases |s|, 1
  {
    var number := tag / 8;
    assert tag == TagOf(number, tag % 8);
    if tag % 8 == 0 {
      PrefixVarint(number, s, t, depth);
    } else if tag % 8 == 2 {
      PrefixLength(number, s, t, depth);
    } else if tag % 8 == 3 {
      PrefixFields(s, t, depth - 1);
    } else {
      PrefixFixed(tag, s, t, depth);
    }
  }

  /** What the fields of `s` become when `t` follows: fields that end at a tag
      ignore it, fields that end with the input go on with it. */
  function Extended(r: ParsedFields, t: seq<byte>, depth: nat): Option<ParsedFields> {
    if r.end != EndOfInput then Some(ParsedFields(r.fields, r.end, r.rest + t))
    else
      match ParseFields(t, depth)
      case None => None
      case Some(more) => Some(ParsedFields(r.fields + more.fields, more.end, more.rest))
  }

  lemma TagPrefix(s: seq<byte>, t: seq<byte>)
    requires Tag(s).Some?
    ensures Tag(s + t) == Tag(s) && (s + t)[Tag(s).value.size..] == s[Tag(s).value.size..] + t
  {
    DecodePrefix(s, t, 5);
  }

  lemma HasTag(s: seq<byte>, depth: nat)
    requires ParseFields(s, depth).Some? && |s| > 0
    ensures Tag(s).Some? && 0 < Tag(s).value.size <= |s|
  {
  }

  lemma PrefixFields(s: seq<byte>, t: seq<byte>, depth: nat)
    requires ParseFields(s, depth).Some?
    ensures ParseFields(s + t, depth) == Extended(ParseFields(s, depth).value, t, depth)
    decreases |s|, 0
  {
    hide ParseField, ParseFields, DecodeVarint, Tag, Closes;
    if |s| == 0 {
      NoFields(depth);
      assert s == [] && s + t == t;
      ExtendedEmpty(t, depth);
    } else {
      HasTag(s, depth);
      TagPrefix(s, t);
      StepField(s, depth);
      StepField(s + t, depth);
      var tag := Tag(s).value;
      var tail := s[tag.size..];
      if !Closes(tag.value) {
        hide Extended;
        PrefixField(tag.value, tail, t, depth);
        var f := ParseField(tag.value, tail, depth).value;
        PrefixFields(f.rest, t, depth);
        ExtendedCons(f.field, ParseFields(f.rest, depth).value, t, depth);
      }
    }
  }

  lemma NoFields(depth: nat)
    ensures ParseFields([], depth) == Some(ParsedFields([], EndOfInput, []))
  {
  }

  lemma ExtendedEmpty(t: seq<byte>, depth: nat)
    ensures Extended(ParsedFields([], EndOfInput, []), t, depth) == ParseFields(t, depth)
  {
    hide ParseFields;
    if ParseFields(t, depth).Some? {
      var more := ParseFields(t, depth).value;
      assert [] + more.fields == more.fields;
    }
  }

  lemma ExtendedCons(f: Field, r: ParsedFields, t: seq<byte>, depth: nat)
    ensures Extended(ParsedFields([f] + r.fields, r.end, r.rest), t, depth)
         == match Extended(r, t, depth)
            case None => None
            case Some(e) => Some(ParsedFields([f] + e.fields, e.end, e.rest))
  {
    hide ParseFields;
    if r.end == EndOfInput && ParseFields(t, depth).Some? {
      var more := ParseFields(t, depth).value;
      assert [f] + r.fields + more.fields == [f] + (r.fields + more.fields);
    }
  }

  /** The fields of two bodies in a row are the fields of both. */
  lemma TokenizeConcat(s: seq<byte>, t: seq<byte>)
    requires Tokenize(s).Some? && Tokenize(t).Some?
    ensures Tokenize(s + t) == Some(Tokenize(s).value + Tokenize(t).value)
  {
    PrefixFields(s, t, RECURSION_LIMIT);
  }

  // ---------- writing into a buffer ----------

  /** `a` with `s` written over it from `p` on. */
  function Overwrite(a: seq<byte>, p: nat, s: seq<byte>): (r: seq<byte>)
    requires p + |s| <= |a|
    ensures |r| == |a|
  {
    a[..p] + s + a[p + |s|..]
  }

  lemma OverwriteTwice(a: seq<byte>, p: nat, s: seq<byte>, t: seq<byte>)
    requires p + |s| + |t| <= |a|
    ensures Overwrite(Overwrite(a, p, s), p + |s|, t) == Overwrite(a, p, s + t)
  {
    var b := Overwrite(a, p, s);
    assert b[..p + |s|] == a[..p] + s;
    assert b[p + |s| + |t|..] == a[p + |s| + |t|..];
  }

  /** UnsafeVarint and UnsafeWriteSize. */
  method WriteVarint(value: nat, target: array<byte>, p: nat) returns (next: nat)
    requires p + |EncodeVarint(value)| <= target.Length
    modifies target
    ensures next == p + |EncodeVarint(value)|
    ensures target[..] == Overwrite(old(target[..]), p, EncodeVarint(value))
  {
    hide Overwrite;
    ghost var before: seq<byte>, done: seq<byte> := target[..], [];
    var v := value;
    next := p;
    OverwriteNothing(before, p);
    while v >= 128
      invariant done + EncodeVarint(v) == EncodeVarint(value)
      invariant next == p + |done| && target[..] == Overwrite(before, p, done)
    {
      var b: byte := v % 128 + 128;
      OverwriteTwice(before, p, done, [b]);
      next := WriteRaw([b], target, next);
      done := done + [b];
      v := v / 128;
    }
    OverwriteTwice(before, p, done, [v]);
    next := WriteRaw([v], target, next);
  }

  lemma OverwriteNothing(a: seq<byte>, p: nat)
    requires p <= |a|
    ensures Overwrite(a, p, []) == a
  {
  }

  method WriteRaw(s: seq<byte>, target: array<byte>, p: nat) returns (next: nat)
    requires p + |s| <= target.Length
    modifies target
    ensures next == p + |s| && target[..] == Overwrite(old(target[..]), p, s)
  {
    forall i | 0 <= i < |s| {
      target[p + i] := s[i];
    }
    next := p + |s|;
  }

  lemma {:induction false} SerializeAppend(fs: seq<Field>, gs: seq<Field>)
    ensures SerializeFields(fs + gs) == SerializeFields(fs) + SerializeFields(gs)
  {
    if |fs| == 0 {
      assert fs + gs == gs;
    } else {
      assert (fs + gs)[1..] == fs[1..] + gs;
      SerializeAppend(fs[1..], gs);
    }
  }

  lemma SerializeNone()
    ensures SerializeFields([]) == []
  {
  }

  /** What the first `i` fields take, and one more. */
  lemma SerializeNext(fs: seq<Field>, i: nat)
    requires i < |fs|
    ensures SerializeFields(fs[..i + 1]) == SerializeFields(fs[..i]) + SerializeField(fs[i])
    ensures |SerializeFields(fs[..i])| + |SerializeField(fs[i])| <= |SerializeFields(fs)|
  {
    assert fs[..i + 1] == fs[..i] + [fs[i]];
    SerializeAppend(fs[..i], [fs[i]]);
    assert SerializeFields([fs[i]]) == SerializeField(fs[i]);
    assert fs == fs[..i + 1] + fs[i + 1..];
    SerializeAppend(fs[..i + 1], fs[i + 1..]);
  }

  /** WireFormat::InternalSerializeUnknownFieldsToArray. */
  method WriteFields(fs: seq<Field>, target: array<byte>, p: nat) returns (next: nat)
    requires p + |SerializeFields(fs)| <= target.Length
    modifies target
    ensures next == p + |SerializeFields(fs)|
    ensures target[..] == Overwrite(old(target[..]), p, SerializeFields(fs))
    decreases fs
  {
    hide SerializeField, SerializeFields, Overwrite;
    ghost var before := target[..];
    next := p;
    SerializeNone();
    assert fs[..0] == [];
    OverwriteNothing(before, p);
    for i := 0 to |fs|
      invariant next == p + |SerializeFields(fs[..i])| <= target.Length
      invariant target[..] == Overwrite(before, p, SerializeFields(fs[..i]))
    {
      SerializeNext(fs, i);
      OverwriteTwice(before, p, SerializeFields(fs[..i]), SerializeField(fs[i]));
      next := WriteField(fs[i], target, next);
    }
    assert fs[..|fs|] == fs;
  }

  /** A field's tag, and what its type calls for. */
  method WriteField(f: Field, target: array<byte>, p: nat) returns (next: nat)
    requires p + |SerializeField(f)| <= target.Length
    modifies target
    ensures next == p + |SerializeField(f)|
    ensures target[..] == Overwrite(old(target[..]), p, SerializeField(f))
    decreases f
  {
    hide EncodeVarint, SerializeFields, Overwrite;
    ghost var before := target[..];
    ghost var tag := EncodeVarint(TagOf(f.number, WireType(f)));
    next := WriteVarint(TagOf(f.number, WireType(f)), target, p);
    OverwriteTwice(before, p, tag, Payload(f));
    ghost var start, written := next, target[..];
    match f {
      case VarintField(_, v) =>
        next := WriteVarint(v, target, next);
      case Fixed64Field(_, bits) =>
        next := WriteRaw(bits, target, next);
      case Fixed32Field(_, bits) =>
        next := WriteRaw(bits, target, next);
      case LengthField(_, data) =>
        OverwriteTwice(written, start, EncodeVarint(|data|), data);
        next := WriteVarint(|data|, target, next);
        next := WriteRaw(data, target, next);
      case GroupField(number, fields) =>
        OverwriteTwice(written, start, SerializeFields(fields), EncodeVarint(TagOf(number, 4)));
        next := WriteFields(fields, target, next);
        next := WriteVarint(TagOf(number, 4), target, next);
    }
  }

  // ---------- measuring ----------

  /** WireFormat::ComputeUnknownFieldsSize. */
  method ComputeSize(fs: seq<Field>, ghost depth: nat) returns (size: nat)
    requires AllEncodable(fs, depth)
    ensures size == |SerializeFields(fs)|
    decreases fs
  {
    size := 0;
    for i := 0 to |fs|
      invariant size == |SerializeFields(fs[..i])|
    {
      var f := fs[i];
      SerializeNext(fs, i);
      EncodableAt(fs, i, depth);
      VarintSizeIsLength(TagOf(f.number, WireType(f)));
      size := size + VarintSize(TagOf(f.number, WireType(f)));
      match f {
        case VarintField(_, v) =>
          VarintSizeIsLength(v);
          size := size + VarintSize(v);
        case Fixed64Field(_, _) =>
          size := size + 8;
        case Fixed32Field(_, _) =>
          size := size + 4;
        case LengthField(_, data) =>
          VarintSizeIsLength(|data|);
          size := size + VarintSize(|data|);
          size := size + |data|;
        case GroupField(number, fields) =>
          var inner := ComputeSize(fields, depth - 1);
          size := size + inner;
          VarintSizeIsLength(TagOf(number, 4));
          size := size + VarintSize(TagOf(number, 4));
      }
    }
    assert fs[..|fs|] == fs;
  }

  lemma {:induction false} EncodableAt(fs: seq<Field>, i: nat, depth: nat)
    requires AllEncodable(fs, depth) && i < |fs|
    ensures Encodable(fs[i], depth)
  {
    if i > 0 {
      EncodableAt(fs[1..], i - 1, depth);
    }
  }

  // ---------- the parsing loops ----------

  lemma Within<T>(s: seq<T>, p: nat, n: nat)
    requires p + n <= |s|
    ensures s[p..][..n] == s[p..p + n] && s[p..][n..] == s[p + n..]
  {
  }

  /** FieldParser: one field whose tag has been read. */
  method FieldParser(data: seq<byte>, tag: nat, p: nat, depth: nat) returns (r: Option<Field>, next: nat)
    requires p <= |data|
    ensures next <= |data|
    ensures match ParseField(tag, data[p..], depth)
            case None => r.None?
            case Some(f) => r == Some(f.field) && data[next..] == f.rest
    decreases |data| - p, 1
  {
    hide ParseFields, DecodeVarint;
    var number := tag / 8;
    next := p;
    if number == 0 {
      return None, p;
    }
    if tag % 8 == 0 {
      var ok, v, n := ParseVarint(data, p, 10, 10, TWO_64);
      if !ok {
        return None, p;
      }
      return Some(VarintField(number, v)), n;
    } else if tag % 8 == 1 {
      if |data| - p < 8 {
        return None, p;
      }
      Within(data, p, 8);
      return Some(Fixed64Field(number, data[p..p + 8])), p + 8;
    } else if tag % 8 == 2 {
      var ok, s, n := ReadString(data, p);
      if !ok {
        return None, p;
      }
      return Some(LengthField(number, s)), n;
    } else if tag % 8 == 3 {
      if depth == 0 {
        return None, p;
      }
      var ok, fields, end, n := GroupParser(data, p, depth - 1);
      if !ok || end != AtTag(TagOf(number, 4)) {
        return None, p;
      }
      return Some(GroupField(number, fields)), n;
    } else if tag % 8 == 5 {
      if |data| - p < 4 {
        return None, p;
      }
      Within(data, p, 4);
      return Some(Fixed32Field(number, data[p..p + 4])), p + 4;
    }
    return None, p;
  }

  /** ReadSize and ReadString: a length and that many bytes. The fallback's test of
      the fifth byte and its test against INT_MAX together are one bound. */
  method ReadString(data: seq<byte>, p: nat) returns (ok: bool, s: seq<byte>, next: nat)
    requires p <= |data|
    ensures next <= |data|
    ensures match Size(data[p..])
            case None => !ok
            case Some(n) =>
              && ok == (|data| - p >= n.size + n.value)
              && (ok ==> s == data[p..][n.size..n.size + n.value] && data[next..] == data[p..][n.size + n.value..])
  {
    hide DecodeVarint;
    s, next := [], p;
    var size, n;
    ok, size, n := ParseVarint(data, p, 5, 5, 0x8_0000_0000);
    if !ok {
      return;
    }
    FiveBytes(data[p..]);
    if size > MAX_SIZE || |data| - n < size {
      ok := false;
      return;
    }
    s := data[n..n + size];
    next := n + size;
    assert data[p..][n - p..n - p + size] == s;
    assert data[p..][n - p + size..] == data[next..];
  }

  /** Five bytes cannot reach 2^35. */
  lemma FiveBytes(s: seq<byte>)
    ensures DecodeVarint(s, 5).Some? ==> DecodeVarint(s, 5).value.value < 0x8_0000_0000
  {
    Powers();
    DecodedBound(s, 5);
  }

  lemma {:induction false} DecodedBound(s: seq<byte>, max: nat)
    ensures DecodeVarint(s, max).Some? ==> DecodeVarint(s, max).value.value < Pow128(max)
  {
    if |s| > 0 && max > 0 && s[0] >= 128 {
      DecodedBound(s[1..], max - 1);
    } else if max > 0 {
      assert Pow128(max) == 128 * Pow128(max - 1);
    }
  }

  /** WireFormatParser: fields up to the end of the input or a closing tag. */
  method GroupParser(data: seq<byte>, p: nat, depth: nat) returns (ok: bool, fields: seq<Field>, end: End, next: nat)
    requires p <= |data|
    ensures next <= |data|
    ensures match ParseFields(data[p..], depth)
            case None => !ok
            case Some(r) => ok && fields == r.fields && end == r.end && data[next..] == r.rest
    decreases |data| - p, 0
  {
    hide ParseField, ParseFields, DecodeVarint, Tag;
    ok, fields, end, next := true, [], EndOfInput, p;
    ghost var all := ParseFields(data[p..], depth);
    PrependedNothing(all);
    while next < |data|
      invariant p <= next <= |data| && ok && end == EndOfInput
      invariant all == Prepended(fields, ParseFields(data[next..], depth))
      decreases |data| - next
    {
      ghost var s := data[next..];
      var tag, n;
      ok, tag, n := ReadTag(data, next);
      if !ok {
        NoTag(s, depth);
        return;
      }
      assert s[n - next..] == data[n..];
      StepField(s, depth);
      if Closes(tag) {
        end, next := AtTag(tag), n;
        return;
      }
      var f, m := FieldParser(data, tag, n, depth);
      if f.None? {
        ok := false;
        return;
      }
      PrependedNext(fields, f.value, ParseFields(data[m..], depth));
      fields, next := fields + [f.value], m;
    }
    NoFields(depth);
    assert data[next..] == [] && fields + [] == fields;
  }

  lemma NoTag(s: seq<byte>, depth: nat)
    requires |s| > 0 && Tag(s).None?
    ensures ParseFields(s, depth).None?
  {
  }

  function Prepended(fs: seq<Field>, r: Option<ParsedFields>): Option<ParsedFields> {
    match r
    case None => None
    case Some(r) => Some(ParsedFields(fs + r.fields, r.end, r.rest))
  }

  lemma PrependedNothing(r: Option<ParsedFields>)
    ensures Prepended([], r) == r
  {
    if r.Some? {
      assert [] + r.value.fields == r.value.fields;
    }
  }

  lemma PrependedNext(fs: seq<Field>, f: Field, r: Option<ParsedFields>)
    ensures Prepended(fs + [f], r) == Prepended(fs, Prepended([f], r))
  {
    if r.Some? {
      assert fs + [f] + r.value.fields == fs + ([f] + r.value.fields);
    }
  }
}
