/** Values of every wire type, groups included, and that skipping one leaves exactly the bytes behind it. */
module WireValues {
  import opened Prelude
  import opened Wire

  datatype Value =
    | Number(n: nat)
    | Wide(d: bits64)
    | Narrow(v: uint32)
    | Record(payload: bytes)
    | Group(no: nat, fields: seq<Field>)

  datatype Field = Field(no: nat, value: Value)

  function WireType(v: Value): nat {
    match v
    case Number(_) => 0
    case Wide(_) => 1
    case Record(_) => 2
    case Group(_, _) => 3
    case Narrow(_) => 5
  }

  /** The bytes after the value's tag; a group ends with its own end tag. */
  function Written(v: Value): bytes
    decreases v
  {
    match v
    case Number(n) => Varint(n)
    case Wide(d) => Fixed(8, d)
    case Narrow(n) => Fixed(4, n)
    case Record(payload) => Delimited(payload)
    case Group(no, fields) => WrittenFields(fields) + WriteTag(no, 4)
  }

  function WrittenField(f: Field): bytes
    decreases f
  {
    WriteTag(f.no, WireType(f.value)) + Written(f.value)
  }

  function WrittenFields(fields: seq<Field>): bytes
    decreases fields
  {
    if fields == [] then [] else WrittenField(fields[0]) + WrittenFields(fields[1..])
  }

  predicate FieldNumber(no: nat) {
    1 <= no < 0x2000_0000
  }

  /** Lengths are uint32 and field numbers are in range. */
  predicate Fits(v: Value)
    decreases v
  {
    match v
    case Record(payload) => |payload| < 0x1_0000_0000
    case Group(no, fields) => FieldNumber(no) && FieldsFit(fields)
    case _ => true
  }

  predicate FieldFits(f: Field)
    decreases f
  {
    FieldNumber(f.no) && Fits(f.value)
  }

  predicate FieldsFit(fields: seq<Field>)
    decreases fields
  {
    fields == [] || (FieldFits(fields[0]) && FieldsFit(fields[1..]))
  }

  lemma {:induction false} SkipsVarint(n: nat, rest: bytes)
    ensures SkipVarint(Varint(n) + rest) == Some(rest)
  {
    if n < 128 {
      assert (Varint(n) + rest)[1..] == rest;
    } else {
      assert (Varint(n) + rest)[1..] == Varint(n / 128) + rest;
      SkipsVarint(n / 128, rest);
    }
  }

  /** Skipping any value, followed by any bytes, leaves exactly those bytes. */
  lemma {:induction false} SkipsExactly(v: Value, rest: bytes)
    requires Fits(v)
    ensures Skip(WireType(v), Written(v) + rest) == Some(rest)
    decreases v
  {
    if v.Group? {
      hide Skip, SkipGroup, WrittenFields, WriteTag, FieldsFit;
      SkipsFields(v.no, v.fields, rest);
      assert Written(v) + rest == WrittenFields(v.fields) + (WriteTag(v.no, 4) + rest);
      SkipsGroup(Written(v) + rest);
    } else {
      SkipsPlain(v, rest);
    }
  }

  lemma SkipsPlain(v: Value, rest: bytes)
    requires Fits(v) && !v.Group?
    ensures Skip(WireType(v), Written(v) + rest) == Some(rest)
  {
    hide SkipGroup, Varint, SkipVarint, Fixed, ReadBytes, Delimited;
    match v
    case Number(n) => SkipsVarint(n, rest);
    case Wide(d) => assert (Fixed(8, d) + rest)[8..] == rest;
    case Narrow(n) => assert (Fixed(4, n) + rest)[4..] == rest;
    case Record(payload) => DelimitedRoundTrip(payload, rest);
  }

  lemma SkipsGroup(b: bytes)
    ensures Skip(3, b) == SkipGroup(b)
  {
    hide SkipGroup;
  }

  lemma {:induction false} SkipsField(f: Field, rest: bytes)
    requires FieldFits(f)
    ensures ReadTag(WrittenField(f) + rest) == Some((Tag(f.no, WireType(f.value)), Written(f.value) + rest))
    ensures Skip(WireType(f.value), Written(f.value) + rest) == Some(rest)
    decreases f
  {
    hide Skip, WriteTag, ReadTag, Written;
    TagRoundTrip(f.no, WireType(f.value), Written(f.value) + rest);
    SkipsExactly(f.value, rest);
    assert WrittenField(f) + rest == WriteTag(f.no, WireType(f.value)) + (Written(f.value) + rest);
  }

  lemma SkipGroupStep(b: bytes, tag: Tag, value: bytes, rest: bytes)
    requires ReadTag(b) == Some((tag, value)) && tag.wire != END_GROUP && Skip(tag.wire, value) == Some(rest)
    ensures SkipGroup(b) == SkipGroup(rest)
  {
    hide ReadTag, Skip;
  }

  lemma SkipsEnd(no: nat, rest: bytes)
    requires FieldNumber(no)
    ensures SkipGroup(WriteTag(no, 4) + rest) == Some(rest)
  {
    hide WriteTag, ReadTag, Skip;
    TagRoundTrip(no, 4, rest);
  }

  lemma FirstField(fields: seq<Field>, tail: bytes)
    ensures (WrittenFields(fields) + tail
             == if fields == [] then tail else WrittenField(fields[0]) + (WrittenFields(fields[1..]) + tail))
  {
    hide WrittenField;
    if fields == [] {
      assert [] + tail == tail;
    }
  }

  lemma {:induction false} SkipsFields(no: nat, fields: seq<Field>, rest: bytes)
    requires FieldNumber(no) && FieldsFit(fields)
    ensures SkipGroup(WrittenFields(fields) + (WriteTag(no, 4) + rest)) == Some(rest)
    decreases fields
  {
    hide Skip, WriteTag, ReadTag, WrittenField, WrittenFields, FieldFits, SkipGroup, Written;
    var tail := WriteTag(no, 4) + rest;
    FirstField(fields, tail);
    if fields == [] {
      SkipsEnd(no, rest);
    } else {
      var f, others := fields[0], WrittenFields(fields[1..]) + tail;
      SkipsField(f, others);
      SkipsFields(no, fields[1..], rest);
      SkipGroupStep(WrittenField(f) + others, Tag(f.no, WireType(f.value)), Written(f.value) + others, others);
    }
  }
}
