/** The decoder against the buffer of the crate's Time and Duration tests,
    and the time types the decoder reads without a schema lookup. */
module CdrExamples {
  import opened Errors
  import opened Bytes
  import opened Schema
  import opened Cdr
  import CdrRoundTrip

  /** The fields of `builtin_interfaces/msg/Time` and `Duration`: an int32
      `sec`, then a uint32 `nanosec`. */
  const TimeLayout: seq<MessageField> :=
    [MessageField("sec", Object("int32")), MessageField("nanosec", Object("uint32"))]

  /** The schema the tests build by hand when no IDL file is installed. */
  const TimeSchema: MessageSchema := MessageSchema("builtin_interfaces/msg/Time", TimeLayout)

  /** The tests' buffer: the encapsulation header `00 01 00 00` (CDR,
      little-endian), then `sec` = 722, then `nanosec` = 5000. */
  const TestData: seq<byte> := [
    0x00, 0x01, 0x00, 0x00,
    0xD2, 0x02, 0x00, 0x00,
    0x88, 0x13, 0x00, 0x00
  ]

  /** A resolver for a machine with no IDL files installed. */
  function NoIdl(tn: string): Result<MessageSchema> {
    Err(IdlNotFound(tn))
  }

  function Flat(tn: string): nat {
    0
  }

  lemma {:induction false} NoIdlRanked()
    ensures Ranked(NoIdl, Flat) && SchemaBelow(TimeSchema, Flat, 1)
  {
  }

  // ---------------------------------------------------------------------
  // the table of `decode_primitive`

  lemma {:induction false} Int32IsSigned()
    ensures Classify("int32") == Signed(4)
  {
    ClassifyListed("int32", 9);
  }

  lemma {:induction false} Uint32IsUnsigned()
    ensures Classify("uint32") == Unsigned(4)
  {
    ClassifyListed("uint32", 10);
  }

  /** `builtin_interfaces/msg/Duration` is read in place, without a lookup. */
  lemma {:induction false} DurationIsTime()
    ensures Classify("builtin_interfaces/msg/Duration") == Time
  {
    ClassifyListed("builtin_interfaces/msg/Duration", 16);
  }

  /** `builtin_interfaces/msg/Time`, the name an IDL field
      `builtin_interfaces::msg::Time stamp;` gets, is not in the table (the
      table lists `builtin_interfaces/msg/Time/Time`), so it goes to the
      resolver. */
  lemma {:induction false} TimeIsNested()
    ensures Classify("builtin_interfaces/msg/Time") == Nested
  {
    ClassifyUnlisted("builtin_interfaces/msg/Time");
  }

  /** Without IDL files, a plain field of a nested type fails with
      `IdlNotFound` naming that type. */
  lemma {:induction false} NestedWithoutIdl(data: seq<byte>, pos: nat, field: MessageField)
    requires pos <= |data| && field.fieldType.Object? && Classify(field.fieldType.typeName).Nested?
    ensures DecodeField(data, pos, field, NoIdl, Flat, 1) == Err(IdlNotFound(field.fieldType.typeName))
  {
    NoIdlRanked();
  }

  /** So a `builtin_interfaces/msg/Time` field cannot be decoded without the
      Time IDL file, although the decoder has an arm that reads it in place. */
  lemma {:induction false} TimeFieldWithoutIdl(data: seq<byte>, pos: nat, name: string)
    requires pos <= |data|
    ensures DecodeField(data, pos, MessageField(name, Object("builtin_interfaces/msg/Time")), NoIdl, Flat, 1)
         == Err(IdlNotFound("builtin_interfaces/msg/Time"))
  {
    TimeIsNested();
    NestedWithoutIdl(data, pos, MessageField(name, Object("builtin_interfaces/msg/Time")));
  }

  /** The table with the time entry under the name the schema parser
      produces for `builtin_interfaces::msg::Time`. */
  const IntendedNames: seq<(string, Primitive)> := PrimitiveNames[14 := ("builtin_interfaces/msg/Time", Time)]

  /** The arm `decode_primitive` evidently means a type name to take: as
      `Classify`, but with `builtin_interfaces/msg/Time` read in place like
      `builtin_interfaces/msg/Duration`. */
  function ClassifyIntended(tn: string): (k: Primitive)
    ensures !k.Nested? ==> Direct(k)
  {
    LookupDirect(tn, IntendedNames);
    Lookup(tn, IntendedNames)
  }

  lemma {:induction false} IntendedTime()
    ensures ClassifyIntended("builtin_interfaces/msg/Time") == Time
  {
    var tn := "builtin_interfaces/msg/Time";
    forall j | 0 <= j < 14
      ensures IntendedNames[j].0 != tn
    {
    }
    LookupFirst(tn, IntendedNames, 14);
  }

  /** Replacing one entry of a table leaves the lookup of every name but the
      old and the new entry's name unchanged. */
  lemma {:induction false} LookupUpdate(tn: string, table: seq<(string, Primitive)>, i: nat, entry: (string, Primitive))
    requires i < |table| && tn != entry.0 && tn != table[i].0
    ensures Lookup(tn, table[i := entry]) == Lookup(tn, table)
  {
    var t := table[i := entry];
    if i > 0 && table[0].0 != tn {
      assert t[1..] == table[1..][i - 1 := entry];
      LookupUpdate(tn, table[1..], i - 1, entry);
    }
  }

  /** Every other name takes the same arm as in the table as written. */
  lemma {:induction false} IntendedAgrees(tn: string)
    requires tn != "builtin_interfaces/msg/Time" && tn != "builtin_interfaces/msg/Time/Time"
    ensures ClassifyIntended(tn) == Classify(tn)
  {
    LookupUpdate(tn, PrimitiveNames, 14, ("builtin_interfaces/msg/Time", Time));
  }

  // ---------------------------------------------------------------------
  // a message laid out as a time value

  /** A message whose fields are `sec: int32, nanosec: uint32` decodes
      exactly as the built-in time arm reads: the same object, the same end
      position, and the same error when the buffer is short. */
  lemma {:induction false} DecodeTimeLayout(data: seq<byte>, pos: nat, schema: MessageSchema, resolve: Resolver,
                         rank: string -> nat, bound: nat)
    requires pos <= |data| && Ranked(resolve, rank) && SchemaBelow(schema, rank, bound)
    requires schema.fields == TimeLayout
    ensures Decode(data, pos, schema, resolve, rank, bound) == DecodeBuiltin(data, pos, Time)
  {
    Int32IsSigned();
    Uint32IsUnsigned();
    DecodeSecNanosec(data, pos, schema, resolve, rank, bound);
  }

  /** The same, for any pair of type names that read as an int32 and a
      uint32. */
  lemma {:induction false} DecodeSecNanosec(data: seq<byte>, pos: nat, schema: MessageSchema, resolve: Resolver,
                         rank: string -> nat, bound: nat)
    requires pos <= |data| && Ranked(resolve, rank) && SchemaBelow(schema, rank, bound)
    requires |schema.fields| == 2
    requires schema.fields[0].name == "sec" && schema.fields[0].fieldType.Object?
    requires schema.fields[1].name == "nanosec" && schema.fields[1].fieldType.Object?
    requires Classify(schema.fields[0].fieldType.typeName) == Signed(4)
    requires Classify(schema.fields[1].fieldType.typeName) == Unsigned(4)
    ensures Decode(data, pos, schema, resolve, rank, bound) == DecodeBuiltin(data, pos, Time)
  {
    var fields := schema.fields;
    assert DecodeField(data, pos, fields[0], resolve, rank, bound) == DecodeBuiltin(data, pos, Signed(4));
    match DecodeBuiltin(data, pos, Signed(4))
    case Err(e) =>
    case Ok((sec, p1)) =>
      DecodeNanosec(data, pos, schema, resolve, rank, bound, sec, p1);
  }

  /** The second half of `DecodeSecNanosec`, once `sec` has been read. */
  lemma {:induction false} DecodeNanosec(data: seq<byte>, pos: nat, schema: MessageSchema, resolve: Resolver,
                      rank: string -> nat, bound: nat, sec: Value, p1: nat)
    requires pos <= |data| && Ranked(resolve, rank) && SchemaBelow(schema, rank, bound)
    requires |schema.fields| == 2
    requires schema.fields[0].name == "sec" && schema.fields[1].name == "nanosec"
    requires schema.fields[1].fieldType.Object?
    requires Classify(schema.fields[1].fieldType.typeName) == Unsigned(4)
    requires DecodeField(data, pos, schema.fields[0], resolve, rank, bound) == Ok((sec, p1))
    requires DecodeBuiltin(data, pos, Signed(4)) == Ok((sec, p1))
    ensures Decode(data, pos, schema, resolve, rank, bound) == DecodeBuiltin(data, pos, Time)
  {
    var fields := schema.fields;
    var rest := fields[1..];
    assert DecodeField(data, p1, rest[0], resolve, rank, bound) == DecodeBuiltin(data, p1, Unsigned(4));
    assert rest[1..] == [];
    match DecodeBuiltin(data, p1, Unsigned(4))
    case Err(e) =>
      assert DecodeFields(data, p1, rest, resolve, rank, bound) == Err(e);
    case Ok((nanosec, p2)) =>
      assert DecodeFields(data, p2, rest[1..], resolve, rank, bound) == Ok(([], p2));
      CdrRoundTrip.DecodeFieldsCons(data, p1, p2, nanosec, rest, resolve, rank, bound);
      assert [nanosec] + [] == [nanosec];
      CdrRoundTrip.DecodeFieldsCons(data, pos, p1, sec, fields, resolve, rank, bound);
      assert [sec] + [nanosec] == [sec, nanosec];
      InsertSecNanosec(fields, [sec, nanosec]);
      assert DecodeBuiltin(data, pos, Time) == Ok((TimeValue(sec, nanosec), p2));
  }

  /** Inserting two values under `sec` and `nanosec` builds a time object. */
  lemma {:induction false} InsertSecNanosec(fields: seq<MessageField>, values: seq<Value>)
    requires |fields| == 2 && |values| == 2 && fields[0].name == "sec" && fields[1].name == "nanosec"
    ensures InsertAll(map[], fields, values) == TimeValue(values[0], values[1]).entries
  {
    var m1 := map[][fields[0].name := values[0]];
    assert InsertAll(map[], fields, values) == InsertAll(m1, fields[1..], values[1..]);
    var m2 := m1[fields[1].name := values[1]];
    assert InsertAll(m1, fields[1..], values[1..]) == InsertAll(m2, fields[1..][1..], values[1..][1..]);
  }

  /** With the Time IDL file installed, a `builtin_interfaces/msg/Time`
      field that goes through the resolver reads what the built-in arm would
      have read. */
  lemma {:induction false} NestedTimeAgrees(data: seq<byte>, pos: nat, tn: string, resolve: Resolver,
                         rank: string -> nat, bound: nat)
    requires pos <= |data| && Ranked(resolve, rank) && rank(tn) < bound
    requires resolve(tn).Ok? && resolve(tn).value.fields == TimeLayout
    ensures DecodeElement(data, pos, Nested, tn, resolve, rank, bound) == DecodeBuiltin(data, pos, Time)
  {
    DecodeTimeLayout(data, pos, resolve(tn).value, resolve, rank, rank(tn));
  }

  // ---------------------------------------------------------------------
  // the test buffer

  /** The value of a 4-byte little-endian word. */
  lemma {:induction false} Word32(bs: seq<byte>)
    requires |bs| == 4
    ensures FromLittleEndian(bs) == bs[0] as int + 0x100 * (bs[1] as int) + 0x1_0000 * (bs[2] as int) + 0x100_0000 * (bs[3] as int)
  {
    var t1 := bs[1..];
    var t2 := t1[1..];
    var t3 := t2[1..];
    assert t3[1..] == [];
    assert FromLittleEndian(t3) == bs[3];
    assert FromLittleEndian(t2) == bs[2] as int + 0x100 * (bs[3] as int);
    assert FromLittleEndian(t1) == bs[1] as int + 0x100 * (bs[2] as int) + 0x1_0000 * (bs[3] as int);
  }

  lemma {:induction false} TestWords()
    ensures FromLittleEndian(Window(TestData, 0, 4)) == 256
    ensures FromLittleEndian(Window(TestData, 4, 4)) == 722
    ensures FromLittleEndian(Window(TestData, 8, 4)) == 5000
  {
    Word32(Window(TestData, 0, 4));
    Word32(Window(TestData, 4, 4));
    Word32(Window(TestData, 8, 4));
  }

  lemma {:induction false} TimeWordsAtStart()
    ensures DecodeBuiltin(TestData, 0, Time) == Ok((TimeValue(VInt(256), VInt(722)), 8))
  {
    TestWords();
  }

  lemma {:induction false} TimeWordsAfterHeader()
    ensures DecodeBuiltin(TestData, 4, Time) == Ok((TimeValue(VInt(722), VInt(5000)), 12))
  {
    TestWords();
  }

  /** As the code is written, `new` starts at offset 0, so the test buffer
      reads the header word as `sec` (256) and 722 as `nanosec`. */
  lemma {:induction false} TestFromStart()
    ensures Decode(TestData, New(TestData).pos, TimeSchema, NoIdl, Flat, 1)
         == Ok((TimeValue(VInt(256), VInt(722)), 8))
  {
    NoIdlRanked();
    DecodeTimeLayout(TestData, 0, TimeSchema, NoIdl, Flat, 1);
    TimeWordsAtStart();
  }

  /** From offset 4, past the header, the test buffer holds the values the
      tests expect: `sec` = 722 and `nanosec` = 5000. */
  lemma {:induction false} TestAfterHeader()
    ensures Decode(TestData, 4, TimeSchema, NoIdl, Flat, 1) == Ok((TimeValue(VInt(722), VInt(5000)), 12))
  {
    NoIdlRanked();
    DecodeTimeLayout(TestData, 4, TimeSchema, NoIdl, Flat, 1);
    TimeWordsAfterHeader();
  }

  // ---------------------------------------------------------------------
  // skipping the encapsulation header

  /** Decoding that starts after the 4-byte encapsulation header, as a ROS 2
      serialized message is laid out; a buffer shorter than the header is an
      end-of-file error. */
  function DecodeAfterHeader(data: seq<byte>, schema: MessageSchema, resolve: Resolver,
                             rank: string -> nat, bound: nat): (r: Result<(Value, nat)>)
    requires Ranked(resolve, rank) && SchemaBelow(schema, rank, bound)
    ensures |data| < 4 ==> r == Err(Io(UnexpectedEof))
    ensures r.Ok? ==> 4 <= r.value.1 <= |data|
  {
    if |data| < 4 then Err(Io(UnexpectedEof)) else Decode(data, 4, schema, resolve, rank, bound)
  }

  /** Whatever the header holds, a header followed by an encoded message
      decodes back to that message and stops at the end of the buffer. */
  lemma {:induction false} HeaderRoundTrip(header: seq<byte>, v: Value, schema: MessageSchema, resolve: Resolver,
                        rank: string -> nat, bound: nat)
    requires |header| == 4 && Ranked(resolve, rank) && SchemaBelow(schema, rank, bound)
    requires CdrRoundTrip.EncodeMessage(v, schema, resolve, rank, bound).Some?
    ensures var data := header + CdrRoundTrip.EncodeMessage(v, schema, resolve, rank, bound).value;
      DecodeAfterHeader(data, schema, resolve, rank, bound) == Ok((v, |data|))
  {
    var e := CdrRoundTrip.EncodeMessage(v, schema, resolve, rank, bound).value;
    var data := header + e;
    assert Window(data, 4, |e|) == e;
    CdrRoundTrip.MessageRoundTrip(data, 4, v, schema, resolve, rank, bound);
  }

  /** Skipping the header, the test buffer gives the expected 722 and 5000. */
  lemma {:induction false} TestDecodeAfterHeader()
    ensures DecodeAfterHeader(TestData, TimeSchema, NoIdl, Flat, 1) == Ok((TimeValue(VInt(722), VInt(5000)), 12))
  {
    NoIdlRanked();
    TestAfterHeader();
  }
}
