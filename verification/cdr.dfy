/** The CDR payload decoder (`CdrDecoder`): a cursor over a byte buffer that
    walks a message schema field by field.

    As in the code it models, every multi-byte value is read little-endian,
    reading starts wherever the cursor is (`new` puts it at 0; the 4-byte
    encapsulation header is not skipped), and no alignment padding is
    inserted between values. Decoding is pure here: each function takes the
    buffer and a start position and returns the value with the position after
    it, or an error. Nested message types are found through a resolver
    parameter standing for `MessageSchema::try_from`; a rank function on type
    names, decreasing from a type to the types of its fields, makes the
    recursion well founded. */
module Cdr {
  import opened Errors
  import opened Bytes
  import opened Schema
  import Utf8

  /** A decoded value, as the JSON value the decoder builds. Floating-point
      numbers keep their raw IEEE-754 bytes; objects map field names to
      values. `VChar(c)` is kept apart to record which arm produced it, but
      `json!` turns a `char` into a one-character JSON string, so as JSON it
      is the same value as `VString([c])`. */
  datatype Value =
    | VBool(b: bool)
    | VInt(i: int)
    | VChar(c: char)
    | VFloat(raw: seq<byte>)
    | VString(s: string)
    | VList(items: seq<Value>)
    | VObject(entries: map<string, Value>)

  /** Stands for `MessageSchema::try_from`: a type name to its schema. */
  type Resolver = string -> Result<MessageSchema>

  /** The decoder state: the buffer and the read position. */
  datatype CdrDecoder = CdrDecoder(data: seq<byte>, pos: nat)

  /** `CdrDecoder::new`: the cursor starts at offset 0 of the buffer. */
  function New(data: seq<byte>): (d: CdrDecoder)
    ensures d.data == data && d.pos == 0
  {
    CdrDecoder(data, 0)
  }

  // ---------------------------------------------------------------------
  // type names the decoder handles itself

  /** The arms of the `match` in `decode_primitive`. */
  datatype Primitive =
    | Boolean
    | Char
    | Unsigned(width: nat)
    | Signed(width: nat)
    | Float(width: nat)
    | Str
    | Time
    | Nested

  /** The names `decode_primitive` lists, in the order it lists them, with
      the arm each takes. The four time names are decoded as
      `{sec: int32, nanosec: uint32}` without a schema lookup; the plain
      `builtin_interfaces/msg/Time` is not among them. */
  const PrimitiveNames: seq<(string, Primitive)> := [
    ("boolean", Boolean),
    ("octet", Unsigned(1)),
    ("char", Char),
    ("float", Float(4)),
    ("double", Float(8)),
    ("int8", Signed(1)),
    ("uint8", Unsigned(1)),
    ("int16", Signed(2)),
    ("uint16", Unsigned(2)),
    ("int32", Signed(4)),
    ("uint32", Unsigned(4)),
    ("int64", Signed(8)),
    ("uint64", Unsigned(8)),
    ("string", Str),
    ("builtin_interfaces/msg/Time/Time", Time),
    ("builtin_interfaces/Time", Time),
    ("builtin_interfaces/msg/Duration", Time),
    ("builtin_interfaces/Duration", Time)
  ]

  /** The arm of the first entry named `tn`, `Nested` when there is none. */
  function Lookup(tn: string, table: seq<(string, Primitive)>): Primitive {
    if |table| == 0 then Nested
    else if table[0].0 == tn then table[0].1
    else Lookup(tn, table[1..])
  }

  /** `Lookup` finds the first entry carrying the name, and nothing when no
      entry does. */
  lemma {:induction false} LookupFirst(tn: string, table: seq<(string, Primitive)>, i: nat)
    requires i < |table| && table[i].0 == tn
    requires forall j :: 0 <= j < i ==> table[j].0 != tn
    ensures Lookup(tn, table) == table[i].1
  {
    if i > 0 {
      assert table[1..][i - 1] == table[i];
      forall j | 0 <= j < i - 1
        ensures table[1..][j].0 != tn
      {
        assert table[1..][j] == table[j + 1];
      }
      LookupFirst(tn, table[1..], i - 1);
    }
  }

  lemma {:induction false} LookupMissing(tn: string, table: seq<(string, Primitive)>)
    requires forall j :: 0 <= j < |table| ==> table[j].0 != tn
    ensures Lookup(tn, table) == Nested
  {
    if |table| > 0 {
      assert table[0].0 != tn;
      forall j | 0 <= j < |table| - 1
        ensures table[1..][j].0 != tn
      {
        assert table[1..][j] == table[j + 1];
      }
      LookupMissing(tn, table[1..]);
    }
  }

  /** Whatever `Lookup` returns is one of the table's arms, or `Nested`. */
  lemma {:induction false} LookupDirect(tn: string, table: seq<(string, Primitive)>)
    requires forall j :: 0 <= j < |table| ==> Direct(table[j].1)
    ensures Lookup(tn, table).Nested? || Direct(Lookup(tn, table))
  {
    if |table| > 0 && table[0].0 != tn {
      forall j | 0 <= j < |table| - 1
        ensures Direct(table[1..][j].1)
      {
        assert table[1..][j] == table[j + 1];
      }
      LookupDirect(tn, table[1..]);
    }
  }

  /** Which arm of `decode_primitive` a type name takes: every name the
      match does not list is a nested message. */
  function Classify(tn: string): (k: Primitive)
    ensures !k.Nested? ==> Direct(k)
  {
    LookupDirect(tn, PrimitiveNames);
    Lookup(tn, PrimitiveNames)
  }

  /** The names listed for an arm take it; every other name is nested. */
  lemma {:induction false} ClassifyListed(tn: string, i: nat)
    requires i < |PrimitiveNames| && PrimitiveNames[i].0 == tn
    ensures Classify(tn) == PrimitiveNames[i].1
  {
    forall j | 0 <= j < i
      ensures PrimitiveNames[j].0 != tn
    {
    }
    LookupFirst(tn, PrimitiveNames, i);
  }

  lemma {:induction false} ClassifyUnlisted(tn: string)
    requires forall j :: 0 <= j < |PrimitiveNames| ==> PrimitiveNames[j].0 != tn
    ensures Classify(tn) == Nested
  {
    LookupMissing(tn, PrimitiveNames);
  }

  /** Bytes taken by the fixed-size kinds; 0 for strings, time values and
      nested messages. */
  function FixedWidth(k: Primitive): nat {
    match k
    case Boolean => 1
    case Char => 1
    case Unsigned(w) => w
    case Signed(w) => w
    case Float(w) => w
    case _ => 0
  }

  /** A kind `decode_primitive` reads itself: anything but a nested
      message, with a positive width where it has one. */
  predicate Direct(k: Primitive) {
    !k.Nested? && (k.Unsigned? || k.Signed? || k.Float? ==> k.width >= 1)
  }


  // ---------------------------------------------------------------------
  // readers

  /** `read_exact` of `n` bytes: the next `n` bytes, or `UnexpectedEof` when
      fewer remain. The cursor never moves past the end of the buffer. */
  function ReadBytes(data: seq<byte>, pos: nat, n: nat): (r: Result<(seq<byte>, nat)>)
    requires pos <= |data|
    ensures r.Ok? <==> pos + n <= |data|
    ensures r.Ok? ==> r.value.1 == pos + n && |r.value.0| == n
    ensures r.Err? ==> r.error == Io(UnexpectedEof)
  {
    if pos + n <= |data| then Ok((Window(data, pos, n), pos + n)) else Err(Io(UnexpectedEof))
  }

  /** `decode_u8/u16/u32/u64`: an n-byte little-endian unsigned integer. */
  function ReadUnsigned(data: seq<byte>, pos: nat, n: nat): (r: Result<(nat, nat)>)
    requires pos <= |data|
    ensures r.Ok? <==> pos + n <= |data|
    ensures r.Ok? ==> r.value.1 == pos + n && r.value.0 < Pow256(n)
    ensures r.Err? ==> r.error == Io(UnexpectedEof)
  {
    if pos + n <= |data| then Ok((FromLittleEndian(Window(data, pos, n)), pos + n))
    else Err(Io(UnexpectedEof))
  }

  /** Reading back an encoded word: the n bytes at `pos` hold `v` exactly when
      they are its little-endian encoding. */
  lemma {:induction false} ReadUnsignedEncoded(data: seq<byte>, pos: nat, n: nat, v: nat)
    requires pos + n <= |data| && v < Pow256(n)
    ensures ReadUnsigned(data, pos, n) == Ok((v, pos + n)) <==> data[pos..pos + n] == ToLittleEndian(v, n)
  {
    WindowIsSlice(data, pos, n);
    LittleEndianBijective(data[pos..pos + n]);
    LittleEndianRoundTrip(v, n);
  }

  /** `decode_i8/i16/i32/i64`: the two's-complement reading of an n-byte
      little-endian word. */
  function ReadSigned(data: seq<byte>, pos: nat, n: nat): (r: Result<(int, nat)>)
    requires pos <= |data| && n >= 1
    ensures r.Ok? <==> pos + n <= |data|
    ensures r.Ok? ==> r.value.1 == pos + n
    ensures r.Ok? ==> -(Half(n) as int) <= r.value.0 < Half(n)
    ensures r.Err? ==> r.error == Io(UnexpectedEof)
  {
    if pos + n <= |data| then Ok((ToSigned(FromLittleEndian(Window(data, pos, n)), n), pos + n))
    else Err(Io(UnexpectedEof))
  }

  /** Reading back an encoded signed word. */
  lemma {:induction false} ReadSignedEncoded(data: seq<byte>, pos: nat, n: nat, v: int)
    requires n >= 1 && pos + n <= |data| && -(Half(n) as int) <= v < Half(n)
    ensures ReadSigned(data, pos, n) == Ok((v, pos + n)) <==> data[pos..pos + n] == ToLittleEndian(FromSigned(v, n), n)
  {
    var bs := data[pos..pos + n];
    WindowIsSlice(data, pos, n);
    LittleEndianBijective(bs);
    LittleEndianRoundTrip(FromSigned(v, n), n);
    SignedBijective(FromLittleEndian(bs), n);
  }

  /** The string payload once its length prefix has been read: a single
      trailing 0 byte, if present, is dropped. */
  function StripTerminator(bs: seq<byte>): (t: seq<byte>)
    ensures |t| == |bs| - 1 <==> |bs| > 0 && bs[|bs| - 1] == 0
  {
    if |bs| > 0 && bs[|bs| - 1] == 0 then bs[..|bs| - 1] else bs
  }

  /** The text of a string payload: at most one trailing NUL is dropped and
      the rest must be UTF-8, else `InvalidData` carrying those bytes. */
  function DecodeText(body: seq<byte>): (r: Result<string>)
  {
    var text := StripTerminator(body);
    match Utf8.Decode(text)
    case None => Err(InvalidData(text))
    case Some(s) => Ok(s)
  }

  /** A payload is text exactly when, without its terminator, it is UTF-8;
      the text then encodes back to exactly those bytes, so none are lost or
      invented, and otherwise the error carries them. */
  lemma {:induction false} DecodeTextSpec(body: seq<byte>)
    ensures DecodeText(body).Ok? <==> Utf8.IsValid(StripTerminator(body))
    ensures DecodeText(body).Ok? ==> Utf8.Encode(DecodeText(body).value) == StripTerminator(body)
    ensures DecodeText(body).Err? ==> DecodeText(body).error == InvalidData(StripTerminator(body))
  {
    var text := StripTerminator(body);
    Utf8.DecodeValid(text);
    if Utf8.Decode(text).Some? {
      Utf8.EncodeDecode(text);
    }
  }

  /** `r` is what reading the payload `text` (its terminator already
      dropped) gives when the read ends at `end`: success exactly when `text`
      is UTF-8, and then a text that encodes back to exactly `text`;
      otherwise `InvalidData` carrying `text`. */
  predicate ReadsText(r: Result<(string, nat)>, text: seq<byte>, end: nat) {
    && (r.Ok? <==> Utf8.IsValid(text))
    && (r.Ok? ==> r.value.1 == end && Utf8.Encode(r.value.0) == text)
    && (r.Err? ==> r.error == InvalidData(text))
  }

  /** The `len` payload bytes at `start`, read as text. */
  function StringAt(data: seq<byte>, start: nat, len: nat): (r: Result<(string, nat)>)
    requires start <= |data|
  {
    if start + len > |data| then Err(Io(UnexpectedEof))
    else
      match DecodeText(Window(data, start, len))
      case Err(e) => Err(e)
      case Ok(s) => Ok((s, start + len))
  }

  /** Reading `len` payload bytes: fewer than `len` is `UnexpectedEof`;
      otherwise the read ends exactly after them and is text exactly when
      they are UTF-8 once the terminator is dropped. */
  lemma {:induction false} StringAtSpec(data: seq<byte>, start: nat, len: nat)
    requires start <= |data|
    ensures start + len > |data| ==> StringAt(data, start, len) == Err(Io(UnexpectedEof))
    ensures start + len <= |data| ==>
      ReadsText(StringAt(data, start, len), StripTerminator(data[start..start + len]), start + len) == true
  {
    if start + len <= |data| {
      WindowIsSlice(data, start, len);
      DecodeTextSpec(Window(data, start, len));
    }
  }

  /** `decode_string`: a u32 length `L` (`decode_u32`), then exactly `L`
      bytes of payload. */
  function DecodeString(data: seq<byte>, pos: nat): (r: Result<(string, nat)>)
    requires pos <= |data|
    ensures pos + 4 > |data| ==> r == Err(Io(UnexpectedEof))
    ensures r.Ok? ==> pos + 4 <= r.value.1 <= |data|
    decreases 1, 0
  {
    match ReadUnsigned(data, pos, 4)
    case Err(e) => Err(e)
    case Ok((len, p)) =>
      StringAt(data, p, len)
  }

  /** What `decode_string` reads once its length word is there: with `L`
      the little-endian u32 at `pos`, the string is exactly the read of the
      `L` payload bytes behind that word, which `StringAtSpec` describes
      (`UnexpectedEof` when fewer than `L` remain, otherwise ending at
      `pos + 4 + L` and `InvalidData` exactly when the payload is not UTF-8). */
  lemma {:induction false} DecodeStringPayload(data: seq<byte>, pos: nat)
    requires pos + 4 <= |data|
    ensures DecodeString(data, pos) == StringAt(data, pos + 4, FromLittleEndian(data[pos..pos + 4]))
  {
    WindowIsSlice(data, pos, 4);
  }

  /** How many readers deep an arm of `decode_primitive` goes: a time reads
      two integers, a string reads its length as an integer. */
  function Stage(k: Primitive): nat {
    if k.Time? then 2 else if k.Str? then 1 else 0
  }

  /** The object the time types decode to. */
  function TimeValue(sec: Value, nanosec: Value): Value {
    VObject(map["sec" := sec, "nanosec" := nanosec])
  }

  /** `decode_primitive` for the fixed-width keywords: `boolean`, `char`,
      the integers and the floating-point types. */
  function DecodeFixed(data: seq<byte>, pos: nat, k: Primitive): (r: Result<(Value, nat)>)
    requires pos <= |data| && FixedWidth(k) > 0
    ensures r.Ok? <==> pos + FixedWidth(k) <= |data|
    ensures r.Ok? ==> r.value.1 == pos + FixedWidth(k)
    ensures r.Err? ==> r.error == Io(UnexpectedEof)
    ensures k.Boolean? && r.Ok? ==> r.value.0 == VBool(data[pos] != 0)
    ensures k.Char? && r.Ok? ==> r.value.0 == VChar(data[pos] as char)
    ensures k.Unsigned? && r.Ok? ==> r.value.0 == VInt(FromLittleEndian(data[pos..pos + k.width]))
    ensures k.Signed? && r.Ok? ==> r.value.0 == VInt(ToSigned(FromLittleEndian(data[pos..pos + k.width]), k.width))
    ensures k.Float? && r.Ok? ==> r.value.0 == VFloat(data[pos..pos + k.width])
  {
    var w := FixedWidth(k);
    if pos + w > |data| then Err(Io(UnexpectedEof))
    else
      WindowIsSlice(data, pos, w);
      match k
      case Boolean => Ok((VBool(data[pos] != 0), pos + 1))
      case Char => Ok((VChar(data[pos] as char), pos + 1))
      case Unsigned(_) => Ok((VInt(ReadUnsigned(data, pos, w).value.0), pos + w))
      case Signed(_) => Ok((VInt(ReadSigned(data, pos, w).value.0), pos + w))
      case Float(_) => Ok((VFloat(ReadBytes(data, pos, w).value.0), pos + w))
  }

  /** `decode_primitive` for the names it handles itself: the fixed-width
      keywords, `string`, and the time types, which read an int32 `sec` and
      then a uint32 `nanosec`. */
  function DecodeBuiltin(data: seq<byte>, pos: nat, k: Primitive): (r: Result<(Value, nat)>)
    requires pos <= |data| && Direct(k)
    ensures r.Ok? ==> pos <= r.value.1 <= |data|
    ensures r.Ok? ==> !r.value.0.VList?
    ensures FixedWidth(k) > 0 ==> (r.Ok? <==> pos + FixedWidth(k) <= |data|)
    ensures FixedWidth(k) > 0 && r.Ok? ==> r.value.1 == pos + FixedWidth(k)
    ensures k.Unsigned? && r.Ok? ==> r.value.0.VInt? && r.value.0.i >= 0
    ensures k.Time? ==> (r.Ok? <==> pos + 8 <= |data|)
    ensures k.Time? && r.Ok? ==> r.value.1 == pos + 8 && r.value.0.VObject?
    ensures k.Str? && r.Ok? ==> r.value.0.VString? && pos + 4 <= r.value.1
    ensures (k.Str? || k.Time?) && pos + 4 > |data| ==> r == Err(Io(UnexpectedEof))
    decreases Stage(k), 1
  {
    match k
    case Str =>
      (match DecodeString(data, pos)
       case Err(e) => Err(e)
       case Ok((s, p)) => Ok((VString(s), p)))
    case Time =>
      (match DecodeBuiltin(data, pos, Signed(4))
       case Err(e) => Err(e)
       case Ok((sec, p1)) =>
         match DecodeBuiltin(data, p1, Unsigned(4))
         case Err(e) => Err(e)
         case Ok((nanosec, p2)) => Ok((TimeValue(sec, nanosec), p2)))
    case Boolean | Char | Unsigned(_) | Signed(_) | Float(_) => DecodeFixed(data, pos, k)
  }

  // ---------------------------------------------------------------------
  // messages

  /** Every field type of `schema` has rank below `bound`. */
  ghost predicate SchemaBelow(schema: MessageSchema, rank: string -> nat, bound: nat) {
    forall i :: 0 <= i < |schema.fields| ==> rank(schema.fields[i].fieldType.typeName) < bound
  }

  /** The message types the resolver knows are well founded: the field types
      of a type rank below the type itself. ROS 2 forbids a message from
      containing itself, directly or through other messages, so such a rank
      (the nesting depth, say) exists for every installed set of
      interfaces. */
  ghost predicate Ranked(resolve: Resolver, rank: string -> nat) {
    forall tn {:trigger resolve(tn)} :: resolve(tn).Ok? ==> SchemaBelow(resolve(tn).value, rank, rank(tn))
  }

  /** `k` is an arm `decode_primitive` can take for a type of rank below
      `bound`: a direct arm, or a nested message. */
  ghost predicate ElementOk(k: Primitive, tn: string, rank: string -> nat, bound: nat) {
    rank(tn) < bound && (!k.Nested? ==> Direct(k))
  }

  /** `decode`: the fields of `schema` in order, each starting where the
      previous one ended, collected into an object (a later field with the
      same name replaces an earlier one, as `Map::insert` does). The first
      failing field's error is the result. */
  function Decode(data: seq<byte>, pos: nat, schema: MessageSchema, resolve: Resolver,
                  rank: string -> nat, bound: nat): (r: Result<(Value, nat)>)
    requires pos <= |data| && Ranked(resolve, rank) && SchemaBelow(schema, rank, bound)
    ensures r.Ok? ==> pos <= r.value.1 <= |data|
    ensures r.Ok? ==> r.value.0.VObject? && r.value.0.entries.Keys == FieldNames(schema.fields)
    decreases bound, 4
  {
    match DecodeFields(data, pos, schema.fields, resolve, rank, bound)
    case Err(e) => Err(e)
    case Ok((values, p)) =>
      InsertAllFacts(map[], schema.fields, values);
      Ok((VObject(InsertAll(map[], schema.fields, values)), p))
  }

  /** The field values of `fields`, read one after another from `pos`. */
  function DecodeFields(data: seq<byte>, pos: nat, fields: seq<MessageField>, resolve: Resolver,
                        rank: string -> nat, bound: nat): (r: Result<(seq<Value>, nat)>)
    requires pos <= |data| && Ranked(resolve, rank)
    requires forall i :: 0 <= i < |fields| ==> rank(fields[i].fieldType.typeName) < bound
    ensures r.Ok? ==> pos <= r.value.1 <= |data| && |r.value.0| == |fields|
    ensures r.Ok? ==> forall i :: 0 <= i < |fields| ==>
      (r.value.0[i].VList? <==> IsIterable(fields[i].fieldType))
    decreases bound, 3, |fields|
  {
    if |fields| == 0 then Ok(([], pos))
    else
      match DecodeField(data, pos, fields[0], resolve, rank, bound)
      case Err(e) => Err(e)
      case Ok((v, p)) =>
        match DecodeFields(data, p, fields[1..], resolve, rank, bound)
        case Err(e) => Err(e)
        case Ok((vs, q)) => Ok(([v] + vs, q))
  }

  /** Decoding the fields `a + b` is decoding `a`, then `b` from where `a`
      ended, joining the values: the first error met, in `a` or in `b`, is
      the result, and nothing after it is read. */
  lemma {:induction false} DecodeFieldsAppend(data: seq<byte>, pos: nat, a: seq<MessageField>, b: seq<MessageField>,
                                              resolve: Resolver, rank: string -> nat, bound: nat)
    requires pos <= |data| && Ranked(resolve, rank)
    requires forall i :: 0 <= i < |a| ==> rank(a[i].fieldType.typeName) < bound
    requires forall i :: 0 <= i < |b| ==> rank(b[i].fieldType.typeName) < bound
    ensures forall i :: 0 <= i < |a + b| ==> rank((a + b)[i].fieldType.typeName) < bound
    ensures DecodeFields(data, pos, a + b, resolve, rank, bound) ==
      match DecodeFields(data, pos, a, resolve, rank, bound)
      case Err(e) => Err(e)
      case Ok((va, p)) =>
        match DecodeFields(data, p, b, resolve, rank, bound)
        case Err(e) => Err(e)
        case Ok((vb, q)) => Ok((va + vb, q))
    decreases |a|
  {
    if |a| == 0 {
      assert a + b == b;
      match DecodeFields(data, pos, b, resolve, rank, bound)
      case Err(_) =>
      case Ok((vb, q)) =>
        assert [] + vb == vb;
    } else {
      assert (a + b)[0] == a[0];
      assert (a + b)[1..] == a[1..] + b;
      match DecodeField(data, pos, a[0], resolve, rank, bound)
      case Err(_) =>
      case Ok((v, p)) =>
        DecodeFieldsAppend(data, p, a[1..], b, resolve, rank, bound);
        match DecodeFields(data, p, a[1..], resolve, rank, bound)
        case Err(_) =>
        case Ok((vs, q)) =>
          assert DecodeFields(data, pos, a, resolve, rank, bound) == Ok(([v] + vs, q));
          match DecodeFields(data, q, b, resolve, rank, bound)
          case Err(_) =>
          case Ok((vb, _)) => ConsAppend(v, vs, vb);
    }
  }

  lemma {:induction false} ConsAppend<T>(x: T, ys: seq<T>, zs: seq<T>)
    ensures [x] + (ys + zs) == ([x] + ys) + zs
  {
  }

  /** The first failing field decides `decode`: when the fields before field
      `i` decode and field `i` fails, the message fails with field `i`'s
      error, whatever the later fields and bytes are. */
  lemma {:induction false} DecodeFirstError(data: seq<byte>, pos: nat, schema: MessageSchema, resolve: Resolver,
                                            rank: string -> nat, bound: nat, i: nat, e: RosPeekError)
    requires pos <= |data| && Ranked(resolve, rank) && SchemaBelow(schema, rank, bound)
    requires i < |schema.fields|
    requires DecodeFields(data, pos, schema.fields[..i], resolve, rank, bound).Ok?
    requires DecodeField(data, DecodeFields(data, pos, schema.fields[..i], resolve, rank, bound).value.1,
                         schema.fields[i], resolve, rank, bound) == Err(e)
    ensures Decode(data, pos, schema, resolve, rank, bound) == Err(e)
  {
    var fields := schema.fields;
    assert fields == fields[..i] + fields[i..];
    DecodeFieldsAppend(data, pos, fields[..i], fields[i..], resolve, rank, bound);
    assert fields[i..][0] == fields[i];
  }

  /** One field: `decode_iterable` when the field is a sequence or an array,
      `decode_primitive` otherwise. An array reads exactly its declared
      number of elements; a sequence first reads a uint32 count. */
  function DecodeField(data: seq<byte>, pos: nat, field: MessageField, resolve: Resolver,
                       rank: string -> nat, bound: nat): (r: Result<(Value, nat)>)
    requires pos <= |data| && Ranked(resolve, rank)
    requires rank(field.fieldType.typeName) < bound
    ensures r.Ok? ==> pos <= r.value.1 <= |data|
    ensures r.Ok? ==> (r.value.0.VList? <==> IsIterable(field.fieldType))
    ensures field.fieldType.Array? && r.Ok? ==> |r.value.0.items| == field.fieldType.length
    ensures field.fieldType.Sequence? ==> (pos + 4 > |data| ==> r == Err(Io(UnexpectedEof)))
    ensures field.fieldType.Sequence? && r.Ok? ==>
      |r.value.0.items| == FromLittleEndian(Window(data, pos, 4))
    decreases bound, 2
  {
    var tn := field.fieldType.typeName;
    var k := Classify(tn);
    match field.fieldType
    case Object(_) => DecodeElement(data, pos, k, tn, resolve, rank, bound)
    case Array(_, n) =>
      (match DecodeElements(data, pos, k, tn, n, resolve, rank, bound)
       case Err(e) => Err(e)
       case Ok((items, p)) => Ok((VList(items), p)))
    case Sequence(_) =>
      match ReadUnsigned(data, pos, 4)
      case Err(e) => Err(e)
      case Ok((n, p0)) =>
        match DecodeElements(data, p0, k, tn, n, resolve, rank, bound)
        case Err(e) => Err(e)
        case Ok((items, p)) => Ok((VList(items), p))
  }

  /** `count` elements of type `tn`, one after another; `k` is the arm of
      `decode_primitive` that `tn` selects. */
  function DecodeElements(data: seq<byte>, pos: nat, k: Primitive, tn: string, count: nat, resolve: Resolver,
                          rank: string -> nat, bound: nat): (r: Result<(seq<Value>, nat)>)
    requires pos <= |data| && Ranked(resolve, rank) && ElementOk(k, tn, rank, bound)
    ensures r.Ok? ==> pos <= r.value.1 <= |data| && |r.value.0| == count
    ensures r.Ok? ==> forall i :: 0 <= i < count ==> !r.value.0[i].VList?
    decreases bound, 1, count
  {
    if count == 0 then Ok(([], pos))
    else
      match DecodeElement(data, pos, k, tn, resolve, rank, bound)
      case Err(e) => Err(e)
      case Ok((v, p)) =>
        match DecodeElements(data, p, k, tn, count - 1, resolve, rank, bound)
        case Err(e) => Err(e)
        case Ok((vs, q)) => Ok(([v] + vs, q))
  }

  /** `decode_primitive`: a direct arm is read in place; a nested name is
      resolved to its schema (a resolver error is the result) and decoded as
      a message. */
  function DecodeElement(data: seq<byte>, pos: nat, k: Primitive, tn: string, resolve: Resolver,
                         rank: string -> nat, bound: nat): (r: Result<(Value, nat)>)
    requires pos <= |data| && Ranked(resolve, rank) && ElementOk(k, tn, rank, bound)
    ensures r.Ok? ==> pos <= r.value.1 <= |data|
    ensures r.Ok? ==> !r.value.0.VList?
    ensures k.Nested? && resolve(tn).Err? ==> r == Err(resolve(tn).error)
    ensures k.Nested? && r.Ok? ==>
      r.value.0.VObject? && r.value.0.entries.Keys == FieldNames(resolve(tn).value.fields)
    decreases bound, 0
  {
    if !k.Nested? then DecodeBuiltin(data, pos, k)
    else
      match resolve(tn)
      case Err(e) => Err(e)
      case Ok(nested) => Decode(data, pos, nested, resolve, rank, rank(tn))
  }

  // ---------------------------------------------------------------------
  // building the object

  /** The set of field names of a schema: the keys of its decoded object. */
  function FieldNames(fields: seq<MessageField>): (names: set<string>)
    ensures forall i :: 0 <= i < |fields| ==> fields[i].name in names
  {
    if |fields| == 0 then {} else {fields[0].name} + FieldNames(fields[1..])
  }

  /** A name no field carries is not a key. */
  lemma {:induction false} FieldNamesAbsent(fields: seq<MessageField>, k: string)
    requires forall i :: 0 <= i < |fields| ==> fields[i].name != k
    ensures k !in FieldNames(fields)
    decreases |fields|
  {
    if |fields| > 0 {
      assert fields[0].name != k;
      forall i | 0 <= i < |fields| - 1
        ensures fields[1..][i].name != k
      {
        assert fields[1..][i] == fields[i + 1];
      }
      FieldNamesAbsent(fields[1..], k);
    }
  }

  /** Field `i` is the last one carrying its name, so its value is the one
      left in the object. */
  predicate LastWithName(fields: seq<MessageField>, i: nat)
    requires i < |fields|
  {
    forall j :: i < j < |fields| ==> fields[j].name != fields[i].name
  }

  /** `object.insert(name, value)` for each field in order. */
  function InsertAll(m: map<string, Value>, fields: seq<MessageField>, values: seq<Value>): map<string, Value>
    requires |values| == |fields|
    decreases |fields|
  {
    if |fields| == 0 then m else InsertAll(m[fields[0].name := values[0]], fields[1..], values[1..])
  }

  /** What the inserts leave: the old keys plus every field name, each field
      name bound to the value of its last field, other keys untouched. */
  lemma {:induction false} InsertAllFacts(m: map<string, Value>, fields: seq<MessageField>, values: seq<Value>)
    requires |values| == |fields|
    ensures InsertAll(m, fields, values).Keys == m.Keys + FieldNames(fields)
    ensures forall i :: 0 <= i < |fields| && LastWithName(fields, i) ==>
      InsertAll(m, fields, values)[fields[i].name] == values[i]
    ensures forall k :: k in m && k !in FieldNames(fields) ==> InsertAll(m, fields, values)[k] == m[k]
    decreases |fields|
  {
    if |fields| > 0 {
      var m1 := m[fields[0].name := values[0]];
      InsertAllFacts(m1, fields[1..], values[1..]);
      var r := InsertAll(m, fields, values);
      forall i | 0 <= i < |fields| && LastWithName(fields, i)
        ensures r[fields[i].name] == values[i]
      {
        if i == 0 {
          FieldNamesAbsent(fields[1..], fields[0].name);
        } else {
          assert LastWithName(fields[1..], i - 1) by {
            forall j | i - 1 < j < |fields[1..]|
              ensures fields[1..][j].name != fields[1..][i - 1].name
            {
              assert fields[1..][j] == fields[j + 1];
            }
          }
        }
      }
    }
  }
}
