/** The protobuf messages of the chat protocol: their serialisation, size, parse
    loop and merge. CSChatRequest and SCChatResponse have the same fields and the
    same code; SCGetIDResponse has a number where they have a text. */
module Messages {
  import opened Arithmetic
  import opened Bytes
  import opened Options
  import opened Utf8
  import opened Varints
  import opened WireFields

  // ---------- message values ----------

  /** Field 3: a string or an int32. */
  datatype Third = Text(text: seq<byte>) | Number(number: int32)

  datatype Message = Message(sessionId: int32, third: Third, unknown: seq<Field>)

  function Cleared(third: Third): Third {
    match third
    case Text(_) => Text([])
    case Number(_) => Number(0)
  }

  /** The message a parse into a fresh object of the same kind starts from. */
  function Default(third: Third): Message { Message(0, Cleared(third), []) }

  function SessionFields(m: Message): seq<Field> {
    if m.sessionId != 0 then [VarintField(2, SignExtend(m.sessionId))] else []
  }

  function ThirdFields(m: Message): seq<Field> {
    if m.third == Cleared(m.third) then []
    else
      match m.third
      case Text(text) => [LengthField(3, text)]
      case Number(number) => [VarintField(3, SignExtend(number))]
  }

  /** What is written: the known fields that are not default, in order of number,
      then the unknown ones. */
  function FieldsOf(m: Message): seq<Field> { SessionFields(m) + ThirdFields(m) + m.unknown }

  function Serialize(m: Message): seq<byte> { SerializeFields(FieldsOf(m)) }

  /** What a parse loop does with one field. */
  function Apply(m: Message, f: Field): Option<Message> {
    match f
    case VarintField(2, v) => Some(m.(sessionId := ToInt32(v % TWO_32)))
    case VarintField(3, v) =>
      if m.third.Number? then Some(m.(third := Number(ToInt32(v % TWO_32)))) else Some(m.(unknown := m.unknown + [f]))
    case LengthField(3, data) =>
      if m.third.Number? then Some(m.(unknown := m.unknown + [f]))
      else if ValidUtf8(data) then Some(m.(third := Text(data))) else None
    case _ => Some(m.(unknown := m.unknown + [f]))
  }

  function ApplyAll(m: Message, fs: seq<Field>): Option<Message> {
    if |fs| == 0 then Some(m)
    else
      match ApplyAll(m, fs[..|fs| - 1])
      case None => None
      case Some(r) => Apply(r, fs[|fs| - 1])
  }

  /** Parsing bytes into a message that already holds `m`. */
  function ParseInto(m: Message, s: seq<byte>): Option<Message> {
    match Tokenize(s)
    case None => None
    case Some(fs) => ApplyAll(m, fs)
  }

  function Merge(to: Message, from: Message): Message {
    Message(
      if from.sessionId != 0 then from.sessionId else to.sessionId,
      if from.third != Cleared(from.third) then from.third else to.third,
      to.unknown + from.unknown)
  }

  predicate SameKind(a: Message, b: Message) { a.third.Text? <==> b.third.Text? }

  /** `f` is not one of the fields the message knows. */
  predicate IsUnknown(f: Field, text: bool) {
    !(f.VarintField? && f.number == 2) && !(f.number == 3 && if text then f.LengthField? else f.VarintField?)
  }

  predicate AllUnknown(fs: seq<Field>, text: bool) {
    |fs| > 0 ==> AllUnknown(fs[..|fs| - 1], text) && IsUnknown(fs[|fs| - 1], text)
  }

  /** What every message object holds: unknown fields that came from a parse. */
  ghost predicate Valid(m: Message) {
    && AllUnknown(m.unknown, m.third.Text?)
    && AllEncodable(m.unknown, RECURSION_LIMIT)
    && (m.third.Text? ==> |m.third.text| <= MAX_SIZE)
  }

  ghost predicate Readable(m: Message) { m.third.Text? ==> ValidUtf8(m.third.text) }

  // ---------- applying fields ----------

  lemma {:induction false} ApplyConcat(m: Message, a: seq<Field>, b: seq<Field>)
    ensures ApplyAll(m, a + b) == match ApplyAll(m, a) case None => None case Some(r) => ApplyAll(r, b)
  {
    if |b| == 0 {
      assert a + b == a;
    } else {
      var last := |b| - 1;
      assert (a + b)[..|a| + last] == a + b[..last];
      ApplyConcat(m, a, b[..last]);
    }
  }

  lemma {:induction false} ApplyUnknown(m: Message, fs: seq<Field>)
    requires AllUnknown(fs, m.third.Text?)
    ensures ApplyAll(m, fs) == Some(m.(unknown := m.unknown + fs))
  {
    if |fs| == 0 {
      assert m.unknown + fs == m.unknown;
    } else {
      ApplyUnknown(m, fs[..|fs| - 1]);
      assert m.unknown + fs[..|fs| - 1] + [fs[|fs| - 1]] == m.unknown + fs;
      assert fs == fs[..|fs| - 1] + [fs[|fs| - 1]];
    }
  }

  /** Applying the fields of `from` is merging it, unless its text is not UTF-8. */
  lemma ApplyIsMerge(to: Message, from: Message)
    requires SameKind(to, from) && Valid(from)
    ensures ApplyAll(to, FieldsOf(from)) == if Readable(from) then Some(Merge(to, from)) else None
  {
    ApplyConcat(to, SessionFields(from) + ThirdFields(from), from.unknown);
    ApplyConcat(to, SessionFields(from), ThirdFields(from));
    ApplySession(to, from);
    var m := to.(sessionId := if from.sessionId != 0 then from.sessionId else to.sessionId);
    ApplyThird(m, from);
    if Readable(from) {
      ApplyUnknown(m.(third := if from.third != Cleared(from.third) then from.third else m.third), from.unknown);
    }
  }

  lemma ApplyOne(m: Message, f: Field)
    ensures ApplyAll(m, [f]) == Apply(m, f)
  {
    assert [f][..0] == [];
  }

  lemma ApplySession(m: Message, from: Message)
    ensures ApplyAll(m, SessionFields(from))
         == Some(m.(sessionId := if from.sessionId != 0 then from.sessionId else m.sessionId))
  {
    if from.sessionId != 0 {
      ApplyOne(m, SessionFields(from)[0]);
      SignExtendRoundTrip(from.sessionId);
    }
  }

  lemma ApplyThird(m: Message, from: Message)
    requires SameKind(m, from)
    ensures ApplyAll(m, ThirdFields(from))
         == if Readable(from) then Some(m.(third := if from.third != Cleared(from.third) then from.third else m.third))
            else None
  {
    if from.third != Cleared(from.third) {
      ApplyOne(m, ThirdFields(from)[0]);
      if from.third.Number? {
        SignExtendRoundTrip(from.third.number);
      }
    }
  }

  lemma {:induction false} EncodableConcat(a: seq<Field>, b: seq<Field>, depth: nat)
    ensures AllEncodable(a + b, depth) <==> AllEncodable(a, depth) && AllEncodable(b, depth)
  {
    if |a| == 0 {
      assert a + b == b;
    } else {
      assert (a + b)[1..] == a[1..] + b;
      EncodableConcat(a[1..], b, depth);
    }
  }

  lemma FieldsEncodable(m: Message)
    requires Valid(m)
    ensures AllEncodable(FieldsOf(m), RECURSION_LIMIT)
  {
    EncodableConcat(SessionFields(m) + ThirdFields(m), m.unknown, RECURSION_LIMIT);
    EncodableConcat(SessionFields(m), ThirdFields(m), RECURSION_LIMIT);
  }

  // ---------- the codec's laws ----------

  /** Parsing what a message serialises to, after anything that parses, is merging
      the message into what was parsed; it fails exactly when the text is not
      UTF-8. */
  lemma ConcatenationIsMerge(m: Message, s: seq<byte>, before: Message, from: Message)
    requires ParseInto(m, s) == Some(before)
    requires SameKind(before, from) && Valid(from)
    ensures ParseInto(m, s + Serialize(from)) == if Readable(from) then Some(Merge(before, from)) else None
  {
    hide Tokenize, Serialize, Merge, FieldsOf, ApplyAll;
    FieldsEncodable(from);
    SerializeTokens(from);
    TokenizeConcat(s, Serialize(from));
    ApplyConcat(m, Tokenize(s).value, FieldsOf(from));
    ApplyIsMerge(before, from);
  }

  lemma SerializeTokens(m: Message)
    requires Valid(m)
    ensures Tokenize(Serialize(m)) == Some(FieldsOf(m))
  {
    FieldsEncodable(m);
    FieldsRoundTrip(FieldsOf(m));
  }

  /** Every message, with any int32 values, any UTF-8 text and any unknown fields,
      is what its serialisation parses to; any other text is refused. */
  lemma RoundTrip(m: Message)
    requires Valid(m)
    ensures ParseInto(Default(m.third), Serialize(m)) == if Readable(m) then Some(m) else None
  {
    hide Tokenize, Serialize, ApplyAll, FieldsOf, Merge, Valid, Readable;
    SerializeTokens(m);
    ApplyIsMerge(Default(m.third), m);
    MergeDefault(m);
  }

  lemma MergeDefault(m: Message)
    ensures Merge(Default(m.third), m) == m
  {
    assert [] + m.unknown == m.unknown;
  }

  /** For instance: the byte 0x80 alone is written and not read back. */
  lemma RefusedText()
    ensures var m := Message(0, Text([0x80]), []);
            Valid(m) && ParseInto(Default(m.third), Serialize(m)).None?
  {
    RoundTrip(Message(0, Text([0x80]), []));
  }

  /** A text arrives exactly when it encodes a sequence of Unicode scalar values; a
      message without text always does. */
  lemma TextArrives(m: Message)
    requires Valid(m)
    ensures ParseInto(Default(m.third), Serialize(m)) == Some(m)
       <==> m.third.Number? || exists cs: seq<scalar> :: m.third.text == EncodeAll(cs)
  {
    hide ParseInto, Serialize, Valid;
    RoundTrip(m);
    if m.third.Text? {
      ValidIsEncoded(m.third.text);
    }
  }

  /** In bytes: field 2 is the session id, field 3 the text or number; what is default
      is not written, and unknown fields follow. */
  lemma TextBytes(id: int32, text: seq<byte>, unknown: seq<Field>)
    requires 0 < id < 128 && 0 < |text| < 128
    ensures Serialize(Message(id, Text(text), unknown))
         == [0x10, id, 0x1A, |text|] + text + SerializeFields(unknown)
  {
    hide Serialize, SerializeField, SerializeFields;
    WrittenFields(id, Text(text), LengthField(3, text), unknown);
    FieldBytes(VarintField(2, id));
    FieldBytes(LengthField(3, text));
    assert [0x10, id] + ([0x1A, |text|] + text) == [0x10, id, 0x1A, |text|] + text;
  }

  lemma NumberBytes(id: int32, number: int32, unknown: seq<Field>)
    requires 0 < id < 128 && 0 < number < 128
    ensures Serialize(Message(id, Number(number), unknown)) == [0x10, id, 0x18, number] + SerializeFields(unknown)
  {
    hide Serialize, SerializeField, SerializeFields;
    WrittenFields(id, Number(number), VarintField(3, number), unknown);
    FieldBytes(VarintField(2, id));
    FieldBytes(VarintField(3, number));
    assert [0x10, id] + [0x18, number] == [0x10, id, 0x18, number];
  }

  lemma DefaultBytes(third: Third, unknown: seq<Field>)
    requires third == Text([]) || third == Number(0)
    ensures Serialize(Message(0, third, unknown)) == SerializeFields(unknown)
    ensures Default(third) == Message(0, third, [])
  {
    assert [] + [] + unknown == unknown;
  }

  lemma WrittenFields(id: int32, third: Third, f: Field, unknown: seq<Field>)
    requires id > 0 && third != Cleared(third)
    requires f == match third case Text(text) => LengthField(3, text) case Number(n) => VarintField(3, SignExtend(n))
    ensures Serialize(Message(id, third, unknown))
         == SerializeField(VarintField(2, id)) + SerializeField(f) + SerializeFields(unknown)
  {
    TwoFields(VarintField(2, id), f, unknown);
  }

  lemma TwoFields(a: Field, b: Field, rest: seq<Field>)
    ensures SerializeFields([a] + [b] + rest) == SerializeField(a) + SerializeField(b) + SerializeFields(rest)
  {
    hide SerializeField;
    assert ([a] + [b] + rest)[1..] == [b] + rest && ([b] + rest)[1..] == rest;
    assert [b] + rest == ([a] + [b] + rest)[1..];
  }

  /** Serialising two messages in a row is serialising their merge, as far as a
      parser can tell. */
  lemma TwoInARow(a: Message, b: Message)
    requires Valid(a) && Valid(b) && SameKind(a, b) && Readable(a) && Readable(b)
    ensures ParseInto(Default(a.third), Serialize(a) + Serialize(b)) == Some(Merge(a, b))
    ensures ParseInto(Default(a.third), Serialize(Merge(a, b))) == Some(Merge(a, b))
  {
    RoundTrip(a);
    ConcatenationIsMerge(Default(a.third), Serialize(a), a, b);
    MergeValid(a, b);
    RoundTrip(Merge(a, b));
  }

  lemma MergeValid(a: Message, b: Message)
    requires Valid(a) && Valid(b) && SameKind(a, b)
    ensures Valid(Merge(a, b)) && (Readable(a) && Readable(b) ==> Readable(Merge(a, b)))
    ensures Default(Merge(a, b).third) == Default(a.third)
  {
    UnknownConcat(a.unknown, b.unknown, a.third.Text?);
    EncodableConcat(a.unknown, b.unknown, RECURSION_LIMIT);
  }

  lemma {:induction false} UnknownConcat(a: seq<Field>, b: seq<Field>, text: bool)
    requires AllUnknown(a, text) && AllUnknown(b, text)
    ensures AllUnknown(a + b, text)
  {
    if |b| == 0 {
      assert a + b == a;
    } else {
      var last := |b| - 1;
      assert (a + b)[..|a| + last] == a + b[..last];
      UnknownConcat(a, b[..last], text);
    }
  }

  // ---------- any accepted input ----------

  lemma ParsedFieldEncodable(tag: nat, s: seq<byte>, depth: nat)
    requires ParseField(tag, s, depth).Some? && tag < TWO_32
    ensures Encodable(ParseField(tag, s, depth).value.field, depth)
    decreases |s|, 1
  {
    if tag % 8 == 3 {
      ParsedEncodable(s, depth - 1);
    }
  }

  lemma ParsedEncodable(s: seq<byte>, depth: nat)
    requires ParseFields(s, depth).Some?
    ensures AllEncodable(ParseFields(s, depth).value.fields, depth)
    decreases |s|, 0
  {
    if |s| > 0 {
      StepField(s, depth);
      var tag := Tag(s).value;
      if !Closes(tag.value) {
        var tail := s[tag.size..];
        ParsedFieldEncodable(tag.value, tail, depth);
        ParsedEncodable(ParseField(tag.value, tail, depth).value.rest, depth);
      }
    }
  }

  lemma OneEncodable(f: Field, depth: nat)
    requires Encodable(f, depth)
    ensures AllEncodable([f], depth)
  {
    hide Encodable;
    assert [f][1..] == [];
  }

  lemma OneMoreUnknown(fs: seq<Field>, f: Field, text: bool)
    requires AllUnknown(fs, text) && IsUnknown(f, text)
    ensures AllUnknown(fs + [f], text)
  {
    hide IsUnknown;
    assert (fs + [f])[..|fs|] == fs;
  }

  lemma KeptUnknown(m: Message, f: Field)
    requires Valid(m) && Encodable(f, RECURSION_LIMIT) && IsUnknown(f, m.third.Text?)
    ensures Valid(m.(unknown := m.unknown + [f]))
  {
    hide Encodable, AllEncodable, IsUnknown, AllUnknown;
    OneEncodable(f, RECURSION_LIMIT);
    EncodableConcat(m.unknown, [f], RECURSION_LIMIT);
    OneMoreUnknown(m.unknown, f, m.third.Text?);
  }

  lemma AppliedOne(m: Message, f: Field)
    requires Valid(m) && Readable(m) && Encodable(f, RECURSION_LIMIT) && Apply(m, f).Some?
    ensures var r := Apply(m, f).value; Valid(r) && Readable(r) && SameKind(m, r)
  {
    hide AllEncodable, AllUnknown, ValidUtf8;
    if IsUnknown(f, m.third.Text?) {
      KeptUnknown(m, f);
    }
  }

  lemma {:induction false} AppliedValid(m: Message, fs: seq<Field>)
    requires Valid(m) && Readable(m) && AllEncodable(fs, RECURSION_LIMIT)
    requires ApplyAll(m, fs).Some?
    ensures var r := ApplyAll(m, fs).value; Valid(r) && Readable(r) && SameKind(m, r)
  {
    hide Apply, Valid, Readable, Encodable;
    if |fs| > 0 {
      var last := |fs| - 1;
      assert fs == fs[..last] + [fs[last]];
      EncodableConcat(fs[..last], [fs[last]], RECURSION_LIMIT);
      AppliedValid(m, fs[..last]);
      AppliedOne(ApplyAll(m, fs[..last]).value, fs[last]);
    }
  }

  /** Whatever bytes a parser accepts, writing the result and reading it again
      gives the same message: unknown fields, groups and out-of-order or repeated
      fields included. */
  lemma AcceptedInputNormalizes(third: Third, s: seq<byte>)
    requires ParseInto(Default(third), s).Some?
    ensures var m := ParseInto(Default(third), s).value;
            Valid(m) && ParseInto(Default(third), Serialize(m)) == Some(m)
  {
    ParsedEncodable(s, RECURSION_LIMIT);
    AppliedValid(Default(third), Tokenize(s).value);
    var m := ParseInto(Default(third), s).value;
    RoundTrip(m);
    assert Default(m.third) == Default(third);
  }

  // ---------- the message classes ----------

  /** A field read: `toks` so far, then the fields of `rest`. */
  ghost predicate Progress(m: Message, now: Message, data: seq<byte>, toks: seq<Field>, rest: seq<byte>) {
    && ApplyAll(m, toks) == Some(now)
    && ParseFields(data, RECURSION_LIMIT) == Prepended(toks, ParseFields(rest, RECURSION_LIMIT))
  }

  lemma ProgressStarts(m: Message, data: seq<byte>)
    ensures Progress(m, m, data, [], data)
  {
    PrependedNothing(ParseFields(data, RECURSION_LIMIT));
  }

  /** The loop reads one more field `f` and what follows it. */
  lemma ProgressField(m: Message, now: Message, data: seq<byte>, toks: seq<Field>, s: seq<byte>, f: Field,
        rest: seq<byte>)
    requires Progress(m, now, data, toks, s)
    requires Tag(s).Some? && !Closes(Tag(s).value.value)
    requires ParseField(Tag(s).value.value, s[Tag(s).value.size..], RECURSION_LIMIT) == Some(ParsedField(f, rest))
    ensures Apply(now, f).None? ==> ParseInto(m, data).None?
    ensures Apply(now, f).Some? ==> Progress(m, Apply(now, f).value, data, toks + [f], rest)
  {
    hide ParseField, ParseFields, Apply, Tag;
    StepField(s, RECURSION_LIMIT);
    PrependedNext(toks, f, ParseFields(rest, RECURSION_LIMIT));
    assert (toks + [f])[..|toks|] == toks;
    if ParseFields(rest, RECURSION_LIMIT).Some? {
      var more := ParseFields(rest, RECURSION_LIMIT).value;
      ApplyConcat(m, toks + [f], more.fields);
    }
  }

  /** The loop stops: nothing is left, or the next field cannot be read. */
  lemma ProgressEnds(m: Message, now: Message, data: seq<byte>, toks: seq<Field>, s: seq<byte>)
    requires Progress(m, now, data, toks, s)
    ensures |s| == 0 ==> ParseInto(m, data) == Some(now)
    ensures |s| > 0 && Tag(s).None? ==> ParseInto(m, data).None?
    ensures Tag(s).Some? && Closes(Tag(s).value.value) ==> ParseInto(m, data).None?
    ensures (Tag(s).Some? && !Closes(Tag(s).value.value)
             && ParseField(Tag(s).value.value, s[Tag(s).value.size..], RECURSION_LIMIT).None?)
            ==> ParseInto(m, data).None?
  {
    if |s| == 0 {
      assert toks + [] == toks;
    } else if Tag(s).Some? {
      StepField(s, RECURSION_LIMIT);
    }
  }

  /** A varint field's payload, read into an int32. */
  lemma KnownVarint(tag: nat, s: seq<byte>)
    requires tag % 8 == 0 && tag > 0
    ensures match DecodeVarint(s, 10)
            case None => ParseField(tag, s, RECURSION_LIMIT).None?
            case Some(r) =>
              && ParseField(tag, s, RECURSION_LIMIT)
                 == Some(ParsedField(VarintField(tag / 8, r.value % TWO_64), s[r.size..]))
              && (r.value % TWO_64) % TWO_32 == r.value % TWO_32
  {
    if DecodeVarint(s, 10).Some? {
      var v := DecodeVarint(s, 10).value.value;
      AddMultiple(v % TWO_64, v / TWO_64 * TWO_32, TWO_32);
    }
  }

  /** CSChatRequest, and SCChatResponse with it. */
  class ChatMessage {
    var sessionId: int32
    var msg: seq<byte>
    var unknown: seq<Field>

    function State(): Message
      reads this
    {
      Message(sessionId, Text(msg), unknown)
    }

    constructor ()
      ensures State() == Default(Text([]))
    {
      sessionId, msg, unknown := 0, [], [];
    }

    method Clear()
      modifies this
      ensures State() == Default(Text([]))
    {
      msg := [];
      sessionId := 0;
      unknown := [];
    }

    /** The fields keep what was parsed before a failure. */
    method InternalParse(data: seq<byte>) returns (ok: bool)
      modifies this
      ensures ok == ParseInto(old(State()), data).Some?
      ensures ok ==> ParseInto(old(State()), data) == Some(State())
    {
      hide ParseField, ParseFields, Apply, ApplyAll, Progress, ParseInto, ValidUtf8, DecodeVarint, Tag;
      ghost var m, toks := State(), [];
      var p := 0;
      assert data[0..] == data;
      ProgressStarts(m, data);
      while p < |data|
        invariant p <= |data| && Progress(m, State(), data, toks, data[p..])
        decreases |data| - p
      {
        ghost var s := data[p..];
        ghost var now := State();
        ProgressEnds(m, now, data, toks, s);
        var tag, n;
        ok, tag, n := ReadTag(data, p);
        if !ok {
          return false;
        }
        assert s[n - p..] == data[n..];
        var next;
        if tag == 16 {
          KnownVarint(tag, data[n..]);
          var v;
          ok, v, next := ReadVarint32(data, n);
          if !ok {
            return false;
          }
          sessionId := ToInt32(v);
        } else if tag == 26 {
          var text;
          ok, text, next := ReadString(data, n);
          KnownString(data[n..]);
          if !ok {
            return false;
          }
          msg := text;
          if !ValidUtf8(text) {
            ok := false;
          }
        } else if Closes(tag) {
          return false;
        } else {
          var f;
          f, next := FieldParser(data, tag, n, RECURSION_LIMIT);
          if f.None? {
            return false;
          }
          UnknownHere(tag, data[n..], RECURSION_LIMIT, true);
          unknown := unknown + [f.value];
        }
        ghost var f := ParseField(tag, data[n..], RECURSION_LIMIT).value.field;
        ApplyChat(now, f);
        ProgressField(m, now, data, toks, s, f, data[next..]);
        if !ok {
          return false;
        }
        toks := toks + [f];
        p := next;
      }
      ProgressEnds(m, State(), data, toks, data[p..]);
      return true;
    }

    method InternalSerialize(target: array<byte>, p: nat) returns (next: nat)
      requires p + |Serialize(State())| <= target.Length
      modifies target
      ensures next == p + |Serialize(State())|
      ensures target[..] == Overwrite(old(target[..]), p, Serialize(State()))
    {
      hide Serialize, SerializeField, SerializeFields, EncodeVarint, Overwrite;
      ghost var m, before := State(), target[..];
      SerializeParts(m);
      OneField(SessionFields(m));
      OneField(ThirdFields(m));
      OverwriteParts(before, p, SerializeFields(SessionFields(m)), SerializeFields(ThirdFields(m)),
            SerializeFields(unknown));
      next := p;
      if sessionId != 0 {
        next := WriteField(VarintField(2, SignExtend(sessionId)), target, next);
      }
      if msg != [] {
        next := WriteField(LengthField(3, msg), target, next);
      }
      if unknown != [] {
        next := WriteFields(unknown, target, next);
      }
    }

    method ByteSizeLong() returns (totalSize: nat)
      requires Valid(State())
      ensures totalSize == |Serialize(State())|
    {
      SerializeParts(State());
      totalSize := 0;
      if msg != [] {
        VarintSizeIsLength(|msg|);
        totalSize := totalSize + 1 + |msg| + VarintSize(|msg|);
      }
      if sessionId != 0 {
        VarintSizeIsLength(SignExtend(sessionId));
        totalSize := totalSize + VarintSize(SignExtend(sessionId)) + 1;
      }
      if unknown != [] {
        var size := ComputeSize(unknown, RECURSION_LIMIT);
        totalSize := totalSize + size;
      }
    }

    method MergeFrom(from: ChatMessage)
      modifies this
      ensures State() == Merge(old(State()), old(from.State()))
    {
      if from.msg != [] {
        msg := from.msg;
      }
      if from.sessionId != 0 {
        sessionId := from.sessionId;
      }
      unknown := unknown + from.unknown;
    }
  }

  /** SCGetIDResponse. */
  class GetIdResponse {
    var sessionId: int32
    var roomId: int32
    var unknown: seq<Field>

    function State(): Message
      reads this
    {
      Message(sessionId, Number(roomId), unknown)
    }

    constructor ()
      ensures State() == Default(Number(0))
    {
      sessionId, roomId, unknown := 0, 0, [];
    }

    method Clear()
      modifies this
      ensures State() == Default(Number(0))
    {
      sessionId, roomId := 0, 0;
      unknown := [];
    }

    method InternalParse(data: seq<byte>) returns (ok: bool)
      modifies this
      ensures ok == ParseInto(old(State()), data).Some?
      ensures ok ==> ParseInto(old(State()), data) == Some(State())
    {
      hide ParseField, ParseFields, Apply, ApplyAll, Progress, ParseInto, ValidUtf8, DecodeVarint, Tag;
      ghost var m, toks := State(), [];
      var p := 0;
      assert data[0..] == data;
      ProgressStarts(m, data);
      while p < |data|
        invariant p <= |data| && Progress(m, State(), data, toks, data[p..])
        decreases |data| - p
      {
        ghost var s := data[p..];
        ghost var now := State();
        ProgressEnds(m, now, data, toks, s);
        var tag, n;
        ok, tag, n := ReadTag(data, p);
        if !ok {
          return false;
        }
        assert s[n - p..] == data[n..];
        var next;
        if tag == 16 || tag == 24 {
          KnownVarint(tag, data[n..]);
          var v;
          ok, v, next := ReadVarint32(data, n);
          if !ok {
            return false;
          }
          if tag == 16 {
            sessionId := ToInt32(v);
          } else {
            roomId := ToInt32(v);
          }
        } else if Closes(tag) {
          return false;
        } else {
          var f;
          f, next := FieldParser(data, tag, n, RECURSION_LIMIT);
          if f.None? {
            return false;
          }
          UnknownHere(tag, data[n..], RECURSION_LIMIT, false);
          unknown := unknown + [f.value];
        }
        ghost var f := ParseField(tag, data[n..], RECURSION_LIMIT).value.field;
        ApplyGetId(now, f);
        ProgressField(m, now, data, toks, s, f, data[next..]);
        toks := toks + [f];
        p := next;
      }
      ProgressEnds(m, State(), data, toks, data[p..]);
      return true;
    }

    method InternalSerialize(target: array<byte>, p: nat) returns (next: nat)
      requires p + |Serialize(State())| <= target.Length
      modifies target
      ensures next == p + |Serialize(State())|
      ensures target[..] == Overwrite(old(target[..]), p, Serialize(State()))
    {
      hide Serialize, SerializeField, SerializeFields, EncodeVarint, Overwrite;
      ghost var m, before := State(), target[..];
      SerializeParts(m);
      OneField(SessionFields(m));
      OneField(ThirdFields(m));
      OverwriteParts(before, p, SerializeFields(SessionFields(m)), SerializeFields(ThirdFields(m)),
            SerializeFields(unknown));
      next := p;
      if sessionId != 0 {
        next := WriteField(VarintField(2, SignExtend(sessionId)), target, next);
      }
      if roomId != 0 {
        next := WriteField(VarintField(3, SignExtend(roomId)), target, next);
      }
      if unknown != [] {
        next := WriteFields(unknown, target, next);
      }
    }

    method ByteSizeLong() returns (totalSize: nat)
      requires Valid(State())
      ensures totalSize == |Serialize(State())|
    {
      SerializeParts(State());
      totalSize := 0;
      if sessionId != 0 {
        VarintSizeIsLength(SignExtend(sessionId));
        totalSize := totalSize + VarintSize(SignExtend(sessionId)) + 1;
      }
      if roomId != 0 {
        VarintSizeIsLength(SignExtend(roomId));
        totalSize := totalSize + VarintSize(SignExtend(roomId)) + 1;
      }
      if unknown != [] {
        var size := ComputeSize(unknown, RECURSION_LIMIT);
        totalSize := totalSize + size;
      }
    }

    method MergeFrom(from: GetIdResponse)
      modifies this
      ensures State() == Merge(old(State()), old(from.State()))
    {
      if from.sessionId != 0 {
        sessionId := from.sessionId;
      }
      if from.roomId != 0 {
        roomId := from.roomId;
      }
      unknown := unknown + from.unknown;
    }
  }

  // ---------- what the classes' proofs use ----------

  lemma KnownString(s: seq<byte>)
    ensures match Size(s)
            case None => ParseField(26, s, RECURSION_LIMIT).None?
            case Some(n) =>
              ParseField(26, s, RECURSION_LIMIT)
                == if |s| < n.size + n.value then None
                   else Some(ParsedField(LengthField(3, s[n.size..n.size + n.value]), s[n.size + n.value..]))
  {
  }

  /** A tag other than the known ones yields a field the message does not know. */
  lemma UnknownHere(tag: nat, s: seq<byte>, depth: nat, text: bool)
    requires tag != 16 && tag != (if text then 26 else 24)
    requires ParseField(tag, s, depth).Some?
    ensures IsUnknown(ParseField(tag, s, depth).value.field, text)
  {
  }

  lemma ApplyChat(m: Message, f: Field)
    requires m.third.Text?
    ensures f.VarintField? && f.number == 2 ==> Apply(m, f) == Some(m.(sessionId := ToInt32(f.varint % TWO_32)))
    ensures f.LengthField? && f.number == 3 ==>
              Apply(m, f) == if ValidUtf8(f.data) then Some(m.(third := Text(f.data))) else None
    ensures IsUnknown(f, true) ==> Apply(m, f) == Some(m.(unknown := m.unknown + [f]))
  {
  }

  lemma ApplyGetId(m: Message, f: Field)
    requires m.third.Number?
    ensures f.VarintField? && f.number == 2 ==> Apply(m, f) == Some(m.(sessionId := ToInt32(f.varint % TWO_32)))
    ensures f.VarintField? && f.number == 3 ==> Apply(m, f) == Some(m.(third := Number(ToInt32(f.varint % TWO_32))))
    ensures IsUnknown(f, false) ==> Apply(m, f) == Some(m.(unknown := m.unknown + [f]))
  {
  }

  lemma SerializeParts(m: Message)
    ensures Serialize(m)
         == SerializeFields(SessionFields(m)) + SerializeFields(ThirdFields(m)) + SerializeFields(m.unknown)
    ensures m.unknown == [] ==> SerializeFields(m.unknown) == []
    ensures |SerializeFields(SessionFields(m))|
         == if m.sessionId == 0 then 0 else 1 + |EncodeVarint(SignExtend(m.sessionId))|
    ensures |SerializeFields(ThirdFields(m))|
         == if m.third == Cleared(m.third) then 0
            else match m.third
                 case Text(text) => 1 + |EncodeVarint(|text|)| + |text|
                 case Number(n) => 1 + |EncodeVarint(SignExtend(n))|
  {
    SerializeAppend(SessionFields(m) + ThirdFields(m), m.unknown);
    SerializeAppend(SessionFields(m), ThirdFields(m));
    OneField(SessionFields(m));
    OneField(ThirdFields(m));
  }

  lemma OneField(fs: seq<Field>)
    requires |fs| <= 1
    ensures SerializeFields(fs) == if |fs| == 0 then [] else SerializeField(fs[0])
  {
    if |fs| == 1 {
      assert fs[1..] == [];
      assert SerializeFields(fs[1..]) == [];
    }
  }

  lemma OverwriteParts(a: seq<byte>, p: nat, s: seq<byte>, t: seq<byte>, u: seq<byte>)
    requires p + |s| + |t| + |u| <= |a|
    ensures Overwrite(a, p, []) == a
    ensures Overwrite(Overwrite(Overwrite(a, p, s), p + |s|, t), p + |s| + |t|, u) == Overwrite(a, p, s + t + u)
    ensures Overwrite(Overwrite(a, p, s), p + |s|, []) == Overwrite(a, p, s)
    ensures Overwrite(Overwrite(Overwrite(a, p, s), p + |s|, t), p + |s| + |t|, [])
         == Overwrite(Overwrite(a, p, s), p + |s|, t)
  {
    hide Overwrite;
    OverwriteTwice(a, p, s, t);
    OverwriteTwice(a, p, s + t, u);
    OverwriteNothing(a, p);
    OverwriteNothing(Overwrite(a, p, s), p + |s|);
    OverwriteNothing(Overwrite(Overwrite(a, p, s), p + |s|, t), p + |s| + |t|);
  }
}
