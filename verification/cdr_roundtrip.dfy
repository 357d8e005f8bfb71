/** A CDR encoder for the values the decoder produces, laid out the way the
    decoder reads (little-endian, no alignment padding, strings with a
    uint32 length that counts a trailing NUL), and the round-trip theorem:
    wherever an encoding sits in a buffer, decoding from its first byte
    gives the encoded value back and stops right after it. */
module CdrRoundTrip {
  import opened Errors
  import opened Bytes
  import opened Schema
  import opened Cdr
  import Utf8

  // ---------------------------------------------------------------------
  // encoding

  /** The bytes of a built-in value, or `None` when `v` does not fit kind `k`. */
  function EncodeBuiltin(v: Value, k: Primitive): (e: Option<seq<byte>>)
    requires Direct(k)
    ensures e.Some? && FixedWidth(k) > 0 ==> |e.value| == FixedWidth(k)
    ensures e.Some? && k.Time? ==> |e.value| == 8
    ensures e.Some? && k.Unsigned? ==> v.VInt? && 0 <= v.i < Pow256(k.width)
    decreases Stage(k), 1
  {
    match k
    case Boolean => if v.VBool? then Some([if v.b then 1 else 0]) else None
    case Char => if v.VChar? && v.c as int < 0x100 then Some([v.c as int]) else None
    case Unsigned(w) => if v.VInt? && 0 <= v.i < Pow256(w) then Some(ToLittleEndian(v.i, w)) else None
    case Signed(w) =>
      if v.VInt? && -(Half(w) as int) <= v.i < Half(w) then Some(ToLittleEndian(FromSigned(v.i, w), w))
      else None
    case Float(w) => if v.VFloat? && |v.raw| == w then Some(v.raw) else None
    case Str => if v.VString? then EncodeString(v.s) else None
    case Time =>
      (match TimeFields(v)
       case None => None
       case Some((sec, nanosec)) =>
         match (EncodeBuiltin(sec, Signed(4)), EncodeBuiltin(nanosec, Unsigned(4)))
         case (Some(a), Some(b)) => Some(a + b)
         case _ => None)
  }

  /** A string as ROS 2 writes it: a uint32 length, the UTF-8 bytes, NUL. */
  function EncodeString(s: string): (e: Option<seq<byte>>)
    ensures e.Some? ==> |e.value| == 4 + |Utf8.Encode(s)| + 1
    decreases 1, 0
  {
    var body := Utf8.Encode(s) + [0];
    match EncodeBuiltin(VInt(|body|), Unsigned(4))
    case None => None
    case Some(prefix) => Some(prefix + body)
  }

  /** The `sec` and `nanosec` of a time value. */
  function TimeFields(v: Value): (r: Option<(Value, Value)>)
    ensures r.Some? ==> v == TimeValue(r.value.0, r.value.1)
    ensures r.None? ==> !(v.VObject? && v.entries.Keys == {"sec", "nanosec"})
  {
    if v.VObject? && v.entries.Keys == {"sec", "nanosec"} then
      var sec := v.entries["sec"];
      var nanosec := v.entries["nanosec"];
      assert v.entries == TimeValue(sec, nanosec).entries;
      Some((sec, nanosec))
    else None
  }

  /** A message value: an object whose keys are exactly the field names,
      written field by field. */
  function EncodeMessage(v: Value, schema: MessageSchema, resolve: Resolver,
                         rank: string -> nat, bound: nat): Option<seq<byte>>
    requires Ranked(resolve, rank) && SchemaBelow(schema, rank, bound)
    decreases bound, 4
  {
    if v.VObject? && v.entries.Keys == FieldNames(schema.fields) then
      EncodeFields(v.entries, schema.fields, resolve, rank, bound)
    else None
  }

  function EncodeFields(entries: map<string, Value>, fields: seq<MessageField>, resolve: Resolver,
                        rank: string -> nat, bound: nat): Option<seq<byte>>
    requires Ranked(resolve, rank)
    requires forall i :: 0 <= i < |fields| ==> rank(fields[i].fieldType.typeName) < bound
    decreases bound, 3, |fields|
  {
    if |fields| == 0 then Some([])
    else if fields[0].name !in entries then None
    else
      match EncodeField(entries[fields[0].name], fields[0], resolve, rank, bound)
      case None => None
      case Some(a) =>
        match EncodeFields(entries, fields[1..], resolve, rank, bound)
        case None => None
        case Some(b) => Some(a + b)
  }

  /** An array writes exactly its declared number of elements; a sequence
      writes a uint32 count first. */
  function EncodeField(v: Value, field: MessageField, resolve: Resolver,
                       rank: string -> nat, bound: nat): Option<seq<byte>>
    requires Ranked(resolve, rank) && rank(field.fieldType.typeName) < bound
    decreases bound, 2
  {
    var tn := field.fieldType.typeName;
    var k := Classify(tn);
    match field.fieldType
    case Object(_) => EncodeElement(v, k, tn, resolve, rank, bound)
    case Array(_, n) =>
      if v.VList? && |v.items| == n then EncodeElements(v.items, k, tn, resolve, rank, bound) else None
    case Sequence(_) =>
      if v.VList? && |v.items| < Pow256(4) then
        match EncodeElements(v.items, k, tn, resolve, rank, bound)
        case None => None
        case Some(b) => Some(ToLittleEndian(|v.items|, 4) + b)
      else None
  }

  function EncodeElements(items: seq<Value>, k: Primitive, tn: string, resolve: Resolver,
                          rank: string -> nat, bound: nat): Option<seq<byte>>
    requires Ranked(resolve, rank) && ElementOk(k, tn, rank, bound)
    decreases bound, 1, |items|
  {
    if |items| == 0 then Some([])
    else
      match EncodeElement(items[0], k, tn, resolve, rank, bound)
      case None => None
      case Some(a) =>
        match EncodeElements(items[1..], k, tn, resolve, rank, bound)
        case None => None
        case Some(b) => Some(a + b)
  }

  function EncodeElement(v: Value, k: Primitive, tn: string, resolve: Resolver,
                         rank: string -> nat, bound: nat): Option<seq<byte>>
    requires Ranked(resolve, rank) && ElementOk(k, tn, rank, bound)
    decreases bound, 0
  {
    if !k.Nested? then EncodeBuiltin(v, k)
    else
      match resolve(tn)
      case Err(_) => None
      case Ok(nested) => EncodeMessage(v, nested, resolve, rank, rank(tn))
  }

  // ---------------------------------------------------------------------
  // round trip

  /** `e` sits in `data` at `pos`. */
  predicate At(data: seq<byte>, pos: nat, e: seq<byte>) {
    pos + |e| <= |data| && Window(data, pos, |e|) == e
  }

  /** The two halves of a concatenation sit one after the other. */
  lemma {:induction false} AtSplit(data: seq<byte>, pos: nat, a: seq<byte>, b: seq<byte>)
    requires At(data, pos, a + b)
    ensures At(data, pos, a) && At(data, pos + |a|, b)
  {
    WindowSplit(data, pos, |a|, |b|);
    var w1 := Window(data, pos, |a|);
    var w2 := Window(data, pos + |a|, |b|);
    assert w1 + w2 == a + b;
    assert w1 == (w1 + w2)[..|a|] == (a + b)[..|a|] == a;
    assert w2 == (w1 + w2)[|a|..] == (a + b)[|a|..] == b;
  }

  /** Distinct strings have distinct UTF-8 encodings. */
  lemma {:induction false} Utf8Injective(s: string, t: string)
    requires Utf8.Encode(s) == Utf8.Encode(t)
    ensures s == t
  {
    Utf8.DecodeEncode(s);
    Utf8.DecodeEncode(t);
  }

  lemma {:induction false} StringRoundTrip(data: seq<byte>, pos: nat, s: string)
    requires EncodeString(s).Some? && At(data, pos, EncodeString(s).value)
    ensures DecodeString(data, pos) == Ok((s, pos + |EncodeString(s).value|))
  {
    EncodedString(s);
    TerminatedText(s);
    FramedRoundTrip(data, pos, Utf8.Encode(s) + [0], s);
  }

  /** What `EncodeString` writes: the payload's length as a uint32, then the
      payload. */
  lemma {:induction false} EncodedString(s: string)
    requires EncodeString(s).Some?
    ensures |Utf8.Encode(s) + [0]| < Pow256(4)
    ensures EncodeString(s).value == ToLittleEndian(|Utf8.Encode(s) + [0]|, 4) + (Utf8.Encode(s) + [0])
    ensures |EncodeString(s).value| == 4 + |Utf8.Encode(s) + [0]|
  {
  }

  /** A payload in place behind its uint32 length reads back as its text. */
  lemma {:induction false} FramedRoundTrip(data: seq<byte>, pos: nat, body: seq<byte>, s: string)
    requires |body| < Pow256(4) && DecodeText(body) == Ok(s)
    requires At(data, pos, ToLittleEndian(|body|, 4) + body)
    ensures DecodeString(data, pos) == Ok((s, pos + 4 + |body|))
  {
    AtSplit(data, pos, ToLittleEndian(|body|, 4), body);
    PayloadRoundTrip(data, pos, body, s);
  }

  /** An encoded uint32 in place reads back as its value. */
  lemma {:induction false} LengthPrefixAt(data: seq<byte>, pos: nat, n: nat)
    requires n < Pow256(4) && At(data, pos, ToLittleEndian(n, 4))
    ensures pos + 4 <= |data| && FromLittleEndian(data[pos..pos + 4]) == n
  {
    WindowIsSlice(data, pos, 4);
    LittleEndianRoundTrip(n, 4);
  }

  /** A length-prefixed payload in place reads back as its text. */
  lemma {:induction false} PayloadRoundTrip(data: seq<byte>, pos: nat, body: seq<byte>, s: string)
    requires |body| < Pow256(4) && DecodeText(body) == Ok(s)
    requires At(data, pos, ToLittleEndian(|body|, 4)) && At(data, pos + 4, body)
    ensures DecodeString(data, pos) == Ok((s, pos + 4 + |body|))
  {
    LengthPrefixAt(data, pos, |body|);
    DecodeStringPayload(data, pos);
    StringBody(data, pos + 4, body, s);
  }

  /** A payload in place reads back as its text. */
  lemma {:induction false} StringBody(data: seq<byte>, start: nat, body: seq<byte>, s: string)
    requires DecodeText(body) == Ok(s) && At(data, start, body)
    ensures StringAt(data, start, |body|) == Ok((s, start + |body|))
  {
  }

  /** The NUL-terminated UTF-8 payload of a string reads back as the string. */
  lemma {:induction false} TerminatedText(s: string)
    ensures DecodeText(Utf8.Encode(s) + [0]) == Ok(s)
  {
    var text := Utf8.Encode(s);
    Utf8.DecodeEncode(s);
    assert (text + [0])[..|text|] == text;
  }

  lemma {:induction false} BuiltinRoundTrip(data: seq<byte>, pos: nat, v: Value, k: Primitive)
    requires Direct(k) && EncodeBuiltin(v, k).Some? && At(data, pos, EncodeBuiltin(v, k).value)
    ensures DecodeBuiltin(data, pos, k) == Ok((v, pos + |EncodeBuiltin(v, k).value|))
  {
    match k
    case Boolean => ByteRoundTrip(data, pos, v, k);
    case Char => ByteRoundTrip(data, pos, v, k);
    case Unsigned(_) => UnsignedBuiltin(data, pos, v, k);
    case Signed(_) => SignedBuiltin(data, pos, v, k);
    case Float(_) => FloatRoundTrip(data, pos, v, k);
    case Str => StringBuiltin(data, pos, v, k);
    case Time => TimeRoundTrip(data, pos, v, k);
  }

  lemma {:induction false} StringBuiltin(data: seq<byte>, pos: nat, v: Value, k: Primitive)
    requires k.Str? && EncodeBuiltin(v, k).Some? && At(data, pos, EncodeBuiltin(v, k).value)
    ensures DecodeBuiltin(data, pos, k) == Ok((v, pos + |EncodeBuiltin(v, k).value|))
  {
    StringRoundTrip(data, pos, v.s);
  }

  lemma {:induction false} TimeRoundTrip(data: seq<byte>, pos: nat, v: Value, k: Primitive)
    requires k.Time? && EncodeBuiltin(v, k).Some? && At(data, pos, EncodeBuiltin(v, k).value)
    ensures DecodeBuiltin(data, pos, k) == Ok((v, pos + |EncodeBuiltin(v, k).value|))
  {
    var (sec, nanosec) := TimeFields(v).value;
    var a := EncodeBuiltin(sec, Signed(4)).value;
    var b := EncodeBuiltin(nanosec, Unsigned(4)).value;
    AtSplit(data, pos, a, b);
    SignedBuiltin(data, pos, sec, Signed(4));
    UnsignedBuiltin(data, pos + 4, nanosec, Unsigned(4));
  }

  lemma {:induction false} ByteRoundTrip(data: seq<byte>, pos: nat, v: Value, k: Primitive)
    requires (k.Boolean? || k.Char?) && EncodeBuiltin(v, k).Some? && At(data, pos, EncodeBuiltin(v, k).value)
    ensures DecodeBuiltin(data, pos, k) == Ok((v, pos + |EncodeBuiltin(v, k).value|))
  {
    var e := EncodeBuiltin(v, k).value;
    assert data[pos] == e[0];
  }

  lemma {:induction false} UnsignedBuiltin(data: seq<byte>, pos: nat, v: Value, k: Primitive)
    requires k.Unsigned? && k.width >= 1 && EncodeBuiltin(v, k).Some? && At(data, pos, EncodeBuiltin(v, k).value)
    ensures DecodeBuiltin(data, pos, k) == Ok((v, pos + |EncodeBuiltin(v, k).value|))
  {
    EncodedUnsigned(v, k.width);
    UnsignedRoundTrip(data, pos, v.i, k.width);
  }

  lemma {:induction false} EncodedUnsigned(v: Value, w: nat)
    requires w >= 1 && EncodeBuiltin(v, Unsigned(w)).Some?
    ensures v.VInt? && v == VInt(v.i) && 0 <= v.i < Pow256(w)
    ensures EncodeBuiltin(v, Unsigned(w)).value == ToLittleEndian(v.i, w)
  {
  }

  lemma {:induction false} UnsignedRoundTrip(data: seq<byte>, pos: nat, n: nat, w: nat)
    requires w >= 1 && n < Pow256(w) && At(data, pos, ToLittleEndian(n, w))
    ensures DecodeBuiltin(data, pos, Unsigned(w)) == Ok((VInt(n), pos + w))
  {
    LittleEndianRoundTrip(n, w);
  }

  lemma {:induction false} SignedBuiltin(data: seq<byte>, pos: nat, v: Value, k: Primitive)
    requires k.Signed? && k.width >= 1 && EncodeBuiltin(v, k).Some? && At(data, pos, EncodeBuiltin(v, k).value)
    ensures DecodeBuiltin(data, pos, k) == Ok((v, pos + |EncodeBuiltin(v, k).value|))
  {
    EncodedSigned(v, k.width);
    SignedRoundTrip(data, pos, v.i, k.width);
  }

  lemma {:induction false} EncodedSigned(v: Value, w: nat)
    requires w >= 1 && EncodeBuiltin(v, Signed(w)).Some?
    ensures v.VInt? && v == VInt(v.i) && -(Half(w) as int) <= v.i < Half(w)
    ensures EncodeBuiltin(v, Signed(w)).value == ToLittleEndian(FromSigned(v.i, w), w)
  {
  }

  lemma {:induction false} SignedRoundTrip(data: seq<byte>, pos: nat, i: int, w: nat)
    requires w >= 1 && -(Half(w) as int) <= i < Half(w)
    requires At(data, pos, ToLittleEndian(FromSigned(i, w), w))
    ensures DecodeBuiltin(data, pos, Signed(w)) == Ok((VInt(i), pos + w))
  {
    SignedWord(data, pos, i, w);
  }

  /** The two's-complement word of `i` in place reads back as `i`. */
  lemma {:induction false} SignedWord(data: seq<byte>, pos: nat, i: int, w: nat)
    requires w >= 1 && -(Half(w) as int) <= i < Half(w)
    requires At(data, pos, ToLittleEndian(FromSigned(i, w), w))
    ensures pos + w <= |data| && ToSigned(FromLittleEndian(Window(data, pos, w)), w) == i
  {
    LittleEndianRoundTrip(FromSigned(i, w), w);
  }

  lemma {:induction false} FloatRoundTrip(data: seq<byte>, pos: nat, v: Value, k: Primitive)
    requires k.Float? && k.width >= 1 && EncodeBuiltin(v, k).Some? && At(data, pos, EncodeBuiltin(v, k).value)
    ensures DecodeBuiltin(data, pos, k) == Ok((v, pos + |EncodeBuiltin(v, k).value|))
  {
  }

  /** Where the encoding of an element sits, the decoder reads that element
      back and stops at its end. */
  lemma {:induction false} ElementRoundTrip(data: seq<byte>, pos: nat, v: Value, k: Primitive, tn: string,
                                            resolve: Resolver, rank: string -> nat, bound: nat)
    requires Ranked(resolve, rank) && ElementOk(k, tn, rank, bound)
    requires EncodeElement(v, k, tn, resolve, rank, bound).Some?
    requires At(data, pos, EncodeElement(v, k, tn, resolve, rank, bound).value)
    ensures DecodeElement(data, pos, k, tn, resolve, rank, bound)
         == Ok((v, pos + |EncodeElement(v, k, tn, resolve, rank, bound).value|))
    decreases bound, 0
  {
    if !k.Nested? {
      BuiltinElementRoundTrip(data, pos, v, k, tn, resolve, rank, bound);
    } else {
      var nested := resolve(tn).value;
      assert EncodeElement(v, k, tn, resolve, rank, bound) == EncodeMessage(v, nested, resolve, rank, rank(tn));
      MessageRoundTrip(data, pos, v, nested, resolve, rank, rank(tn));
      assert DecodeElement(data, pos, k, tn, resolve, rank, bound) == Decode(data, pos, nested, resolve, rank, rank(tn));
    }
  }

  /** An element of a built-in type is encoded and decoded as that built-in. */
  lemma {:induction false} BuiltinElementRoundTrip(data: seq<byte>, pos: nat, v: Value, k: Primitive, tn: string,
                                                   resolve: Resolver, rank: string -> nat, bound: nat)
    requires Ranked(resolve, rank) && ElementOk(k, tn, rank, bound) && !k.Nested?
    requires EncodeElement(v, k, tn, resolve, rank, bound).Some?
    requires At(data, pos, EncodeElement(v, k, tn, resolve, rank, bound).value)
    ensures DecodeElement(data, pos, k, tn, resolve, rank, bound)
         == Ok((v, pos + |EncodeElement(v, k, tn, resolve, rank, bound).value|))
  {
    assert EncodeElement(v, k, tn, resolve, rank, bound) == EncodeBuiltin(v, k);
    BuiltinRoundTrip(data, pos, v, k);
    assert DecodeElement(data, pos, k, tn, resolve, rank, bound) == DecodeBuiltin(data, pos, k);
  }

  lemma {:induction false} ElementsRoundTrip(data: seq<byte>, pos: nat, items: seq<Value>, k: Primitive, tn: string,
                                             resolve: Resolver, rank: string -> nat, bound: nat)
    requires Ranked(resolve, rank) && ElementOk(k, tn, rank, bound)
    requires EncodeElements(items, k, tn, resolve, rank, bound).Some?
    requires At(data, pos, EncodeElements(items, k, tn, resolve, rank, bound).value)
    ensures DecodeElements(data, pos, k, tn, |items|, resolve, rank, bound)
         == Ok((items, pos + |EncodeElements(items, k, tn, resolve, rank, bound).value|))
    decreases bound, 1, |items|
  {
    if |items| > 0 {
      var q := ElementsHead(data, pos, items, k, tn, resolve, rank, bound);
      DecodeElementsCons(data, pos, q, items[0], k, tn, |items|, resolve, rank, bound);
      ElementsRoundTrip(data, q, items[1..], k, tn, resolve, rank, bound);
      assert [items[0]] + items[1..] == items;
    }
  }

  /** The first element of an encoded run reads back, and the encoding of
      the rest of the run starts where it ends. */
  lemma {:induction false} ElementsHead(data: seq<byte>, pos: nat, items: seq<Value>, k: Primitive, tn: string,
                     resolve: Resolver, rank: string -> nat, bound: nat) returns (q: nat)
    requires Ranked(resolve, rank) && ElementOk(k, tn, rank, bound) && |items| > 0
    requires EncodeElements(items, k, tn, resolve, rank, bound).Some?
    requires At(data, pos, EncodeElements(items, k, tn, resolve, rank, bound).value)
    ensures pos <= |data|
    ensures EncodeElements(items[1..], k, tn, resolve, rank, bound).Some?
    ensures At(data, q, EncodeElements(items[1..], k, tn, resolve, rank, bound).value)
    ensures q + |EncodeElements(items[1..], k, tn, resolve, rank, bound).value|
         == pos + |EncodeElements(items, k, tn, resolve, rank, bound).value|
    ensures DecodeElement(data, pos, k, tn, resolve, rank, bound) == Ok((items[0], q))
    decreases bound, 1, |items|, 0
  {
    var a := EncodeElement(items[0], k, tn, resolve, rank, bound).value;
    var b := EncodeElements(items[1..], k, tn, resolve, rank, bound).value;
    EncodeElementsCons(items, k, tn, resolve, rank, bound);
    AtSplit(data, pos, a, b);
    ElementRoundTrip(data, pos, items[0], k, tn, resolve, rank, bound);
    q := pos + |a|;
  }

  /** Once the first element is read, a run of `count` is that element
      followed by the run of `count - 1` after it. */
  lemma {:induction false} DecodeElementsCons(data: seq<byte>, pos: nat, q: nat, v: Value, k: Primitive, tn: string, count: nat,
                           resolve: Resolver, rank: string -> nat, bound: nat)
    requires pos <= |data| && Ranked(resolve, rank) && ElementOk(k, tn, rank, bound) && count > 0
    requires DecodeElement(data, pos, k, tn, resolve, rank, bound) == Ok((v, q))
    ensures q <= |data|
    ensures DecodeElements(data, q, k, tn, count - 1, resolve, rank, bound).Ok? ==>
      DecodeElements(data, pos, k, tn, count, resolve, rank, bound)
      == Ok(([v] + DecodeElements(data, q, k, tn, count - 1, resolve, rank, bound).value.0,
             DecodeElements(data, q, k, tn, count - 1, resolve, rank, bound).value.1))
  {
  }

  /** One step of `EncodeElements`. */
  lemma {:induction false} EncodeElementsCons(items: seq<Value>, k: Primitive, tn: string, resolve: Resolver, rank: string -> nat, bound: nat)
    requires Ranked(resolve, rank) && ElementOk(k, tn, rank, bound) && |items| > 0
    requires EncodeElements(items, k, tn, resolve, rank, bound).Some?
    ensures EncodeElement(items[0], k, tn, resolve, rank, bound).Some?
    ensures EncodeElements(items[1..], k, tn, resolve, rank, bound).Some?
    ensures EncodeElements(items, k, tn, resolve, rank, bound).value
         == EncodeElement(items[0], k, tn, resolve, rank, bound).value + EncodeElements(items[1..], k, tn, resolve, rank, bound).value
  {
  }

  lemma {:induction false} FieldRoundTrip(data: seq<byte>, pos: nat, v: Value, field: MessageField,
                                          resolve: Resolver, rank: string -> nat, bound: nat)
    requires Ranked(resolve, rank) && rank(field.fieldType.typeName) < bound
    requires EncodeField(v, field, resolve, rank, bound).Some?
    requires At(data, pos, EncodeField(v, field, resolve, rank, bound).value)
    ensures DecodeField(data, pos, field, resolve, rank, bound)
         == Ok((v, pos + |EncodeField(v, field, resolve, rank, bound).value|))
    decreases bound, 2, 1
  {
    var tn := field.fieldType.typeName;
    var k := Classify(tn);
    match field.fieldType
    case Object(_) =>
      ElementRoundTrip(data, pos, v, k, tn, resolve, rank, bound);
    case Array(_, n) =>
      ArrayRoundTrip(data, pos, v, field, resolve, rank, bound);
    case Sequence(_) =>
      SequenceRoundTrip(data, pos, v, field, resolve, rank, bound);
  }

  lemma {:induction false} ArrayRoundTrip(data: seq<byte>, pos: nat, v: Value, field: MessageField,
                                          resolve: Resolver, rank: string -> nat, bound: nat)
    requires Ranked(resolve, rank) && rank(field.fieldType.typeName) < bound && field.fieldType.Array?
    requires EncodeField(v, field, resolve, rank, bound).Some?
    requires At(data, pos, EncodeField(v, field, resolve, rank, bound).value)
    ensures DecodeField(data, pos, field, resolve, rank, bound)
         == Ok((v, pos + |EncodeField(v, field, resolve, rank, bound).value|))
    decreases bound, 2, 0
  {
    var tn := field.fieldType.typeName;
    ElementsRoundTrip(data, pos, v.items, Classify(tn), tn, resolve, rank, bound);
  }

  /** A sequence reads its count back, then exactly that many elements. */
  lemma {:induction false} SequenceRoundTrip(data: seq<byte>, pos: nat, v: Value, field: MessageField,
                                             resolve: Resolver, rank: string -> nat, bound: nat)
    requires Ranked(resolve, rank) && rank(field.fieldType.typeName) < bound && field.fieldType.Sequence?
    requires EncodeField(v, field, resolve, rank, bound).Some?
    requires At(data, pos, EncodeField(v, field, resolve, rank, bound).value)
    ensures DecodeField(data, pos, field, resolve, rank, bound)
         == Ok((v, pos + |EncodeField(v, field, resolve, rank, bound).value|))
    decreases bound, 2, 0
  {
    var tn := field.fieldType.typeName;
    var k := Classify(tn);
    var b := EncodeElements(v.items, k, tn, resolve, rank, bound).value;
    CountRoundTrip(data, pos, |v.items|, b);
    ElementsRoundTrip(data, pos + 4, v.items, k, tn, resolve, rank, bound);
  }

  /** A sequence's uint32 count in place reads back, leaving what follows. */
  lemma {:induction false} CountRoundTrip(data: seq<byte>, pos: nat, n: nat, rest: seq<byte>)
    requires n < Pow256(4) && At(data, pos, ToLittleEndian(n, 4) + rest)
    ensures ReadUnsigned(data, pos, 4) == Ok((n, pos + 4))
    ensures At(data, pos + 4, rest)
  {
    AtSplit(data, pos, ToLittleEndian(n, 4), rest);
    LittleEndianRoundTrip(n, 4);
  }

  /** The field values a message object holds, in field order. */
  function FieldValues(entries: map<string, Value>, fields: seq<MessageField>): (vs: seq<Value>)
    requires forall i :: 0 <= i < |fields| ==> fields[i].name in entries
    ensures |vs| == |fields|
    ensures forall i :: 0 <= i < |fields| ==> vs[i] == entries[fields[i].name]
  {
    if |fields| == 0 then [] else [entries[fields[0].name]] + FieldValues(entries, fields[1..])
  }

  lemma {:induction false} FieldsRoundTrip(data: seq<byte>, pos: nat, entries: map<string, Value>,
                                           fields: seq<MessageField>, resolve: Resolver,
                                           rank: string -> nat, bound: nat)
    requires Ranked(resolve, rank)
    requires forall i :: 0 <= i < |fields| ==> rank(fields[i].fieldType.typeName) < bound
    requires EncodeFields(entries, fields, resolve, rank, bound).Some?
    requires At(data, pos, EncodeFields(entries, fields, resolve, rank, bound).value)
    ensures forall i :: 0 <= i < |fields| ==> fields[i].name in entries
    ensures DecodeFields(data, pos, fields, resolve, rank, bound)
         == Ok((FieldValues(entries, fields), pos + |EncodeFields(entries, fields, resolve, rank, bound).value|))
    decreases bound, 3, |fields|
  {
    if |fields| > 0 {
      var q := FieldsHead(data, pos, entries, fields, resolve, rank, bound);
      DecodeFieldsCons(data, pos, q, entries[fields[0].name], fields, resolve, rank, bound);
      FieldsRoundTrip(data, q, entries, fields[1..], resolve, rank, bound);
      forall i | 0 <= i < |fields|
        ensures fields[i].name in entries
      {
        if i > 0 {
          assert fields[i] == fields[1..][i - 1];
        }
      }
    }
  }

  /** The first field of an encoded message reads back, and the encoding of
      the remaining fields starts where it ends. */
  lemma {:induction false} FieldsHead(data: seq<byte>, pos: nat, entries: map<string, Value>, fields: seq<MessageField>,
                   resolve: Resolver, rank: string -> nat, bound: nat) returns (q: nat)
    requires Ranked(resolve, rank) && |fields| > 0
    requires forall i :: 0 <= i < |fields| ==> rank(fields[i].fieldType.typeName) < bound
    requires EncodeFields(entries, fields, resolve, rank, bound).Some?
    requires At(data, pos, EncodeFields(entries, fields, resolve, rank, bound).value)
    ensures pos <= |data| && fields[0].name in entries
    ensures EncodeFields(entries, fields[1..], resolve, rank, bound).Some?
    ensures At(data, q, EncodeFields(entries, fields[1..], resolve, rank, bound).value)
    ensures q + |EncodeFields(entries, fields[1..], resolve, rank, bound).value|
         == pos + |EncodeFields(entries, fields, resolve, rank, bound).value|
    ensures DecodeField(data, pos, fields[0], resolve, rank, bound) == Ok((entries[fields[0].name], q))
    decreases bound, 3, |fields|, 0
  {
    var a := EncodeField(entries[fields[0].name], fields[0], resolve, rank, bound).value;
    var b := EncodeFields(entries, fields[1..], resolve, rank, bound).value;
    AtSplit(data, pos, a, b);
    FieldRoundTrip(data, pos, entries[fields[0].name], fields[0], resolve, rank, bound);
    q := pos + |a|;
  }

  /** Once the first field is read, the fields are that value followed by
      the values of the remaining fields read after it. */
  lemma {:induction false} DecodeFieldsCons(data: seq<byte>, pos: nat, q: nat, v: Value, fields: seq<MessageField>,
                         resolve: Resolver, rank: string -> nat, bound: nat)
    requires pos <= |data| && Ranked(resolve, rank) && |fields| > 0
    requires forall i :: 0 <= i < |fields| ==> rank(fields[i].fieldType.typeName) < bound
    requires DecodeField(data, pos, fields[0], resolve, rank, bound) == Ok((v, q))
    ensures q <= |data|
    ensures DecodeFields(data, q, fields[1..], resolve, rank, bound).Ok? ==>
      DecodeFields(data, pos, fields, resolve, rank, bound)
      == Ok(([v] + DecodeFields(data, q, fields[1..], resolve, rank, bound).value.0,
             DecodeFields(data, q, fields[1..], resolve, rank, bound).value.1))
  {
  }

  /** Every field name has a last field carrying it. */
  lemma {:induction false} LastWithNameExists(fields: seq<MessageField>, k: string)
    requires k in FieldNames(fields)
    ensures exists i :: 0 <= i < |fields| && fields[i].name == k && LastWithName(fields, i)
    decreases |fields|
  {
    if k in FieldNames(fields[1..]) {
      LastWithNameExists(fields[1..], k);
      var j :| 0 <= j < |fields[1..]| && fields[1..][j].name == k && LastWithName(fields[1..], j);
      assert fields[j + 1].name == k;
      assert LastWithName(fields, j + 1) by {
        forall m | j + 1 < m < |fields|
          ensures fields[m].name != fields[j + 1].name
        {
          assert fields[m] == fields[1..][m - 1];
        }
      }
    } else {
      assert fields[0].name == k;
      assert LastWithName(fields, 0);
    }
  }

  /** Decoding an encoded message gives back the object that was encoded
      and stops right after its last field. */
  lemma {:induction false} MessageRoundTrip(data: seq<byte>, pos: nat, v: Value, schema: MessageSchema,
                                            resolve: Resolver, rank: string -> nat, bound: nat)
    requires Ranked(resolve, rank) && SchemaBelow(schema, rank, bound)
    requires EncodeMessage(v, schema, resolve, rank, bound).Some?
    requires At(data, pos, EncodeMessage(v, schema, resolve, rank, bound).value)
    ensures Decode(data, pos, schema, resolve, rank, bound)
         == Ok((v, pos + |EncodeMessage(v, schema, resolve, rank, bound).value|))
    decreases bound, 4
  {
    var fields := schema.fields;
    FieldsRoundTrip(data, pos, v.entries, fields, resolve, rank, bound);
    var values := FieldValues(v.entries, fields);
    var m := InsertAll(map[], fields, values);
    InsertAllFacts(map[], fields, values);
    forall k | k in m
      ensures m[k] == v.entries[k]
    {
      LastWithNameExists(fields, k);
      var i :| 0 <= i < |fields| && fields[i].name == k && LastWithName(fields, i);
      assert m[k] == values[i];
    }
    assert m == v.entries;
  }
}
