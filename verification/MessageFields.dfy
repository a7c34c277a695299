/** What the generated readers and writers share: the unknown-field arm and its options, and the scalar
    fields, whose default value is not written. */
module MessageFields {
  import opened Prelude
  import opened Wire
  import opened FieldLoop

  // ---- Unknown fields and the options that govern them ----

  datatype UnknownField = UnknownField(no: nat, wire: nat, data: bytes)

  datatype OnUnknown = Throw | Drop | Keep

  datatype Options = Options(read: OnUnknown, write: bool)

  /** The `default` arm of every reader: the fields to append to the message's unknown list, and the rest. */
  function ReadUnknown(opt: Options, tag: Tag, b: bytes): (o: Option<(seq<UnknownField>, bytes)>)
    ensures o.Some? ==> |o.value.1| <= |b| && o.value.1 == b[|b| - |o.value.1|..]
  {
    if opt.read.Throw? then None
    else
      var rest :- Skip(tag.wire, b);
      Some((if opt.read.Keep? then [UnknownField(tag.no, tag.wire, b[..|b| - |rest|])] else [], rest))
  }

  function WriteUnknown(us: seq<UnknownField>): bytes {
    if us == [] then [] else WriteTag(us[0].no, us[0].wire) + us[0].data + WriteUnknown(us[1..])
  }

  function Unknowns(opt: Options, us: seq<UnknownField>): bytes {
    if opt.write then WriteUnknown(us) else []
  }

  function Surviving(opt: Options, us: seq<UnknownField>): seq<UnknownField> {
    if opt.write && opt.read.Keep? then us else []
  }

  /** `u` is a complete field whose number the message does not define. */
  predicate Foreign(u: UnknownField, known: nat) {
    ValidTag(u.no, u.wire) && u.no > known && Skip(u.wire, u.data) == Some([])
  }

  /** The unknown list holds complete foreign fields, and none is written for a reader that throws on them. */
  ghost predicate UnknownsFit(opt: Options, us: seq<UnknownField>, known: nat) {
    && (forall u <- us :: Foreign(u, known))
    && (opt.write && opt.read.Throw? ==> us == [])
  }

  lemma ReadUnknownLocal(opt: Options, tag: Tag, b: bytes, c: bytes)
    requires ReadUnknown(opt, tag, b).Some?
    ensures var (us, rest) := ReadUnknown(opt, tag, b).value; ReadUnknown(opt, tag, b + c) == Some((us, rest + c))
  {
    hide Skip;
    SkipLocal(tag.wire, b, c);
    var rest := Skip(tag.wire, b).value;
    assert (b + c)[..|b| - |rest|] == b[..|b| - |rest|];
  }

  // ---- Scalar fields: a default value is not written ----

  /** `!== 0` is false of both zeros, so -0 (only the sign bit set) is dropped like +0. */
  predicate IsZero(d: bits64) {
    d == 0 || d == 0x8000_0000_0000_0000
  }

  function PositiveZero(d: bits64): bits64 {
    if IsZero(d) then 0 else d
  }

  function WriteString(no: nat, s: bytes): bytes {
    if s == [] then [] else WriteTag(no, LENGTH_DELIMITED) + Delimited(s)
  }

  function WriteDouble(no: nat, d: bits64): bytes {
    if IsZero(d) then [] else WriteTag(no, BIT64) + Fixed(8, d)
  }

  function WriteInt32(no: nat, v: int32): bytes {
    if v == 0 then [] else WriteTag(no, VARINT) + Int32Varint(v)
  }

  function ReadDouble(b: bytes): (o: Option<(bits64, bytes)>)
    ensures o.Some? ==> |o.value.1| == |b| - 8 && o.value.1 == b[8..]
  {
    assert Pow256(8) == 0x1_0000_0000_0000_0000;
    var (v, rest) :- ReadFixed(8, b);
    Some((v, rest))
  }

  lemma ReadBytesExact(s: bytes)
    requires |s| < 0x1_0000_0000
    ensures ReadBytes(Delimited(s)) == Some((s, []))
  {
    DelimitedRoundTrip(s, []);
    assert Delimited(s) + [] == Delimited(s);
  }

  lemma ReadInt32Exact(v: int32)
    ensures ReadInt32(Int32Varint(v)) == Some((v, []))
  {
    Int32RoundTrip(v, []);
    assert Int32Varint(v) + [] == Int32Varint(v);
  }

  lemma ReadDoubleExact(d: bits64)
    ensures ReadDouble(Fixed(8, d)) == Some((d, []))
  {
    assert Pow256(8) == 0x1_0000_0000_0000_0000;
    FixedRoundTrip(8, d, []);
    assert Fixed(8, d) + [] == Fixed(8, d);
  }

  lemma ReadsString<M(!new)>(f: FieldReader<M>, m: M, no: nat, s: bytes, m': M)
    requires Consumes(f) && 1 <= no < 0x2000_0000 && |s| < 0x1_0000_0000
    requires if s == [] then m' == m else
             forall b :: ReadBytes(b) == Some((s, [])) ==> f(m, Tag(no, LENGTH_DELIMITED), b) == Some((m', []))
    ensures Reads(f, m, WriteString(no, s), m')
  {
    if s != [] {
      ReadBytesExact(s);
      ReadsOne(f, m, no, LENGTH_DELIMITED, Delimited(s), m');
    }
  }

  lemma ReadsDouble<M(!new)>(f: FieldReader<M>, m: M, no: nat, d: bits64, m': M)
    requires Consumes(f) && 1 <= no < 0x2000_0000
    requires if IsZero(d) then m' == m else
             forall b :: ReadDouble(b) == Some((d, [])) ==> f(m, Tag(no, BIT64), b) == Some((m', []))
    ensures Reads(f, m, WriteDouble(no, d), m')
  {
    if !IsZero(d) {
      ReadDoubleExact(d);
      ReadsOne(f, m, no, BIT64, Fixed(8, d), m');
    }
  }

  lemma ReadsInt32<M(!new)>(f: FieldReader<M>, m: M, no: nat, v: int32, m': M)
    requires Consumes(f) && 1 <= no < 0x2000_0000
    requires if v == 0 then m' == m else
             forall b :: ReadInt32(b) == Some((v, [])) ==> f(m, Tag(no, VARINT), b) == Some((m', []))
    ensures Reads(f, m, WriteInt32(no, v), m')
  {
    if v != 0 {
      ReadInt32Exact(v);
      ReadsOne(f, m, no, VARINT, Int32Varint(v), m');
    }
  }

  function AddTo<M>(add: (M, seq<UnknownField>) -> M, m: M, o: Option<(seq<UnknownField>, bytes)>): Option<(M, bytes)> {
    if o.None? then None else Some((add(m, o.value.0), o.value.1))
  }

  /** `f` hands every number above `known` to the shared `default` arm, which `add`s to the unknown list. */
  ghost predicate DefaultArm<M(!new)>(opt: Options, f: FieldReader<M>, known: nat, add: (M, seq<UnknownField>) -> M) {
    && (forall m: M, tag: Tag, b: bytes :: tag.no > known ==>
      f(m, tag, b) == AddTo(add, m, ReadUnknown(opt, tag, b)))
    && (forall m: M :: add(m, []) == m)
    && (forall m: M, us, vs :: add(add(m, us), vs) == add(m, us + vs))
  }

  lemma ReadUnknownExact(opt: Options, u: UnknownField, known: nat)
    requires Foreign(u, known) && !opt.read.Throw?
    ensures ReadUnknown(opt, Tag(u.no, u.wire), u.data) == Some((if opt.read.Keep? then [u] else [], []))
  {
    assert u.data[..|u.data|] == u.data;
  }

  lemma {:induction false} ReadsForeign<M(!new)>(
    opt: Options, f: FieldReader<M>, known: nat, add: (M, seq<UnknownField>) -> M, m: M, us: seq<UnknownField>)
    requires Consumes(f) && Local(f) && DefaultArm(opt, f, known, add)
    requires !opt.read.Throw? && forall u <- us :: Foreign(u, known)
    ensures Reads(f, m, WriteUnknown(us), add(m, if opt.read.Keep? then us else []))
    decreases |us|
  {
    if us != [] {
      var u := us[0];
      assert u in us;
      var kept := if opt.read.Keep? then [u] else [];
      ReadUnknownExact(opt, u, known);
      ReadsOne(f, m, u.no, u.wire, u.data, add(m, kept));
      ReadsForeign(opt, f, known, add, add(m, kept), us[1..]);
      assert kept + (if opt.read.Keep? then us[1..] else []) == if opt.read.Keep? then us else [];
      ReadsThen(f, m, WriteTag(u.no, u.wire) + u.data, add(m, kept), WriteUnknown(us[1..]), add(m, if opt.read.Keep? then us else []));
    }
  }

  function WriteForeign(u: UnknownField): bytes {
    WriteTag(u.no, u.wire) + u.data
  }

  /** For any message and arbitrary bytes before and after: a reader that drops unknown fields reads past a complete
      one between them as if it were not there. */
  lemma DroppedUnknownIsIgnored<M(!new)>(
    opt: Options, f: FieldReader<M>, known: nat, add: (M, seq<UnknownField>) -> M, m: M, a: bytes, u: UnknownField, b: bytes)
    requires Consumes(f) && Local(f) && DefaultArm(opt, f, known, add) && opt.read.Drop? && Foreign(u, known)
    requires ReadFields(f, m, a, 0).Some?
    ensures ReadFields(f, m, a + WriteForeign(u) + b, 0) == ReadFields(f, m, a + b, 0)
  {
    hide ReadFields, ReadTag, ReadUnknown, WriteTag;
    var m1 := ReadFields(f, m, a, 0).value.0;
    AllIsRead(f, m, a);
    ReadUnknownExact(opt, u, known);
    ReadsOne(f, m1, u.no, u.wire, u.data, m1);
    ReadsThen(f, m, a, m1, WriteForeign(u), m1);
    ReadFieldsConcat(f, m, a, m1, b, 0);
    ReadFieldsConcat(f, m, a + WriteForeign(u), m1, b, 0);
  }

  lemma AllIsRead<M(!new)>(f: FieldReader<M>, m: M, a: bytes)
    requires Consumes(f) && ReadFields(f, m, a, 0).Some?
    ensures Reads(f, m, a, ReadFields(f, m, a, 0).value.0)
  {
    hide ReadFields;
  }

  lemma ReadsUnknowns<M(!new)>(
    opt: Options, f: FieldReader<M>, known: nat, add: (M, seq<UnknownField>) -> M, m: M, us: seq<UnknownField>)
    requires Consumes(f) && Local(f) && DefaultArm(opt, f, known, add) && UnknownsFit(opt, us, known)
    ensures Reads(f, m, Unknowns(opt, us), add(m, Surviving(opt, us)))
  {
    if opt.write && !opt.read.Throw? {
      ReadsForeign(opt, f, known, add, m, us);
    }
  }
}
