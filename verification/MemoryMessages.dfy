/** `MemoryEntry`: six strings and a packed embedding. The reader takes the packed length as a signed int32,
    so the round trip of this message has a limit the writer does not enforce. */
module MemoryMessages {
  import opened Prelude
  import opened Wire
  import opened FieldLoop
  import opened MessageFields

  type bits32 = x: int | 0 <= x < 0x1_0000_0000

  datatype MemoryEntry = MemoryEntry(
    id: bytes, agentId: bytes, objective: bytes, action: bytes, result: bytes, timestamp: bytes,
    embedding: seq<bits32>, unknown: seq<UnknownField>)

  const NO_MEMORY := MemoryEntry([], [], [], [], [], [], [], [])

  function ReadFloat(b: bytes): (o: Option<(bits32, bytes)>)
    ensures o.Some? ==> |o.value.1| == |b| - 4 && o.value.1 == b[4..]
  {
    assert Pow256(4) == 0x1_0000_0000;
    var (v, rest) :- ReadFixed(4, b);
    Some((v, rest))
  }

  /** Pushes floats onto `acc` until at most `stop` bytes are left. */
  function ReadPacked(acc: seq<bits32>, b: bytes, stop: int): (o: Option<(seq<bits32>, bytes)>)
    ensures o.Some? ==> |o.value.1| <= |b| && |o.value.0| >= |acc|
    ensures o.Some? ==> 4 * (|o.value.0| - |acc|) == |b| - |o.value.1|
    decreases |b|
  {
    if |b| <= stop then Some((acc, b))
    else
      var (v, rest) :- ReadFloat(b);
      ReadPacked(acc + [v], rest, stop)
  }

  function ReadEmbeddingField(acc: seq<bits32>, wire: nat, b: bytes): (o: Option<(seq<bits32>, bytes)>)
    ensures o.Some? ==> |o.value.1| <= |b| && |o.value.0| >= |acc|
    ensures o.Some? ==> 4 * (|o.value.0| - |acc|) <= |b| - |o.value.1|
  {
    if wire == LENGTH_DELIMITED then
      var (n, rest) :- ReadInt32(b);
      ReadPacked(acc, rest, |rest| - n)
    else
      var (v, rest) :- ReadFloat(b);
      Some((acc + [v], rest))
  }

  /** The six string fields by their numbers. */
  function WithString(m: MemoryEntry, no: nat, s: bytes): MemoryEntry
    requires 1 <= no <= 6
  {
    if no == 1 then m.(id := s)
    else if no == 2 then m.(agentId := s)
    else if no == 3 then m.(objective := s)
    else if no == 4 then m.(action := s)
    else if no == 5 then m.(result := s)
    else m.(timestamp := s)
  }

  function ReadMemoryField(opt: Options, m: MemoryEntry, tag: Tag, b: bytes): (o: Option<(MemoryEntry, bytes)>)
    ensures o.Some? ==> |o.value.1| <= |b| && |o.value.0.embedding| >= |m.embedding|
    ensures o.Some? ==> 4 * (|o.value.0.embedding| - |m.embedding|) <= |b| - |o.value.1|
  {
    if 1 <= tag.no <= 6 then
      var (s, rest) :- ReadBytes(b);
      Some((WithString(m, tag.no, s), rest))
    else if tag.no == 7 then
      var (fs, rest) :- ReadEmbeddingField(m.embedding, tag.wire, b);
      Some((m.(embedding := fs), rest))
    else
      var (us, rest) :- ReadUnknown(opt, tag, b);
      Some((m.(unknown := m.unknown + us), rest))
  }

  ghost function MemoryField(opt: Options): (f: FieldReader<MemoryEntry>)
    ensures Consumes(f)
  {
    (m, tag, b) => ReadMemoryField(opt, m, tag, b)
  }

  function WriteFloats(fs: seq<bits32>): (b: bytes)
    ensures |b| == 4 * |fs|
  {
    if fs == [] then [] else Fixed(4, fs[0]) + WriteFloats(fs[1..])
  }

  function WriteEmbedding(fs: seq<bits32>): bytes {
    if fs == [] then [] else WriteTag(7, LENGTH_DELIMITED) + Delimited(WriteFloats(fs))
  }

  function WriteStrings(e: MemoryEntry): bytes {
    WriteString(1, e.id) + WriteString(2, e.agentId) + WriteString(3, e.objective) + WriteString(4, e.action)
    + WriteString(5, e.result) + WriteString(6, e.timestamp)
  }

  function WriteMemory(opt: Options, e: MemoryEntry): bytes {
    WriteStrings(e) + WriteEmbedding(e.embedding) + Unknowns(opt, e.unknown)
  }

  predicate StringLengthsFit(e: MemoryEntry) {
    && |e.id| < 0x1_0000_0000 && |e.agentId| < 0x1_0000_0000 && |e.objective| < 0x1_0000_0000
    && |e.action| < 0x1_0000_0000 && |e.result| < 0x1_0000_0000 && |e.timestamp| < 0x1_0000_0000
  }

  /** The lengths the writer prefixes fit in a uint32. */
  predicate MemoryLengthsFit(e: MemoryEntry) {
    StringLengthsFit(e) && 4 * |e.embedding| < 0x1_0000_0000
  }

  /** They do, and the unknown fields fit the options. */
  ghost predicate FitMemory(opt: Options, e: MemoryEntry) {
    MemoryLengthsFit(e) && UnknownsFit(opt, e.unknown, 7)
  }

  /** The packed length still reads as a positive int32. */
  predicate PackedLengthPositive(fs: seq<bits32>) {
    4 * |fs| < 0x8000_0000
  }

  /** "Last One Wins": an omitted (empty) string leaves the one in hand. */
  function Last(held: bytes, s: bytes): bytes {
    if s == [] then held else s
  }

  function MergeMemory(opt: Options, m: MemoryEntry, e: MemoryEntry): MemoryEntry {
    MemoryEntry(
      Last(m.id, e.id), Last(m.agentId, e.agentId), Last(m.objective, e.objective), Last(m.action, e.action),
      Last(m.result, e.result), Last(m.timestamp, e.timestamp),
      m.embedding + e.embedding, m.unknown + Surviving(opt, e.unknown))
  }

  // ---- Locality ----

  lemma {:induction false} ReadPackedLocal(acc: seq<bits32>, b: bytes, stop: int, c: bytes)
    requires ReadPacked(acc, b, stop).Some?
    ensures var (fs, rest) := ReadPacked(acc, b, stop).value; ReadPacked(acc, b + c, stop + |c|) == Some((fs, rest + c))
    decreases |b|
  {
    if |b| > stop {
      ReadFixedLocal(4, b, c);
      var (v, rest) := ReadFloat(b).value;
      ReadPackedLocal(acc + [v], rest, stop, c);
    }
  }

  lemma ReadEmbeddingFieldLocal(acc: seq<bits32>, wire: nat, b: bytes, c: bytes)
    requires ReadEmbeddingField(acc, wire, b).Some?
    ensures var (fs, rest) := ReadEmbeddingField(acc, wire, b).value; ReadEmbeddingField(acc, wire, b + c) == Some((fs, rest + c))
  {
    if wire == LENGTH_DELIMITED {
      ReadVarintLocal(b, 10, c);
      var (n, rest) := ReadInt32(b).value;
      ReadPackedLocal(acc, rest, |rest| - n, c);
      assert |rest + c| - n == |rest| - n + |c|;
    } else {
      ReadFixedLocal(4, b, c);
    }
  }

  lemma MemoryFieldLocal(opt: Options, m: MemoryEntry, tag: Tag, b: bytes, c: bytes)
    requires ReadMemoryField(opt, m, tag, b).Some?
    ensures var (m', rest) := ReadMemoryField(opt, m, tag, b).value; ReadMemoryField(opt, m, tag, b + c) == Some((m', rest + c))
  {
    if 1 <= tag.no <= 6 {
      ReadBytesLocal(b, c);
    } else if tag.no == 7 {
      ReadEmbeddingFieldLocal(m.embedding, tag.wire, b, c);
    } else {
      ReadUnknownLocal(opt, tag, b, c);
    }
  }

  lemma MemoryLocal(opt: Options)
    ensures Local(MemoryField(opt))
  {
    forall m: MemoryEntry, tag: Tag, b: bytes, c: bytes | ReadMemoryField(opt, m, tag, b).Some?
      ensures ReadMemoryField(opt, m, tag, b + c)
           == Some((ReadMemoryField(opt, m, tag, b).value.0, ReadMemoryField(opt, m, tag, b).value.1 + c))
    {
      MemoryFieldLocal(opt, m, tag, b, c);
    }
  }

  // ---- Reading what was written ----

  lemma FloatRoundTrip(v: bits32, rest: bytes)
    ensures ReadFloat(Fixed(4, v) + rest) == Some((v, rest))
  {
    assert Pow256(4) == 0x1_0000_0000;
    FixedRoundTrip(4, v, rest);
  }

  lemma {:induction false} ReadPackedExact(acc: seq<bits32>, fs: seq<bits32>)
    ensures ReadPacked(acc, WriteFloats(fs), 0) == Some((acc + fs, []))
    decreases |fs|
  {
    hide Fixed, ReadFloat;
    if fs == [] {
      assert acc + [] == acc;
    } else {
      FloatRoundTrip(fs[0], WriteFloats(fs[1..]));
      ReadPackedExact(acc + [fs[0]], fs[1..]);
      assert acc + [fs[0]] + fs[1..] == acc + fs;
    }
  }

  lemma ReadsPackedField(opt: Options, m: MemoryEntry, fs: seq<bits32>)
    requires PackedLengthPositive(fs)
    ensures Reads(MemoryField(opt), m, WriteTag(7, LENGTH_DELIMITED) + Delimited(WriteFloats(fs)), m.(embedding := m.embedding + fs))
  {
    hide ReadFloat, ReadBytes, ReadUnknown, WriteTag;
    var w := WriteFloats(fs);
    Uint32RoundTrip(|w|, w);
    ReadPackedExact(m.embedding, fs);
    assert ReadEmbeddingField(m.embedding, LENGTH_DELIMITED, Delimited(w)) == Some((m.embedding + fs, []));
    ReadsOne(MemoryField(opt), m, 7, LENGTH_DELIMITED, Delimited(w), m.(embedding := m.embedding + fs));
  }

  lemma ReadsSingleFloat(opt: Options, m: MemoryEntry, v: bits32)
    ensures Reads(MemoryField(opt), m, WriteTag(7, BIT32) + Fixed(4, v), m.(embedding := m.embedding + [v]))
  {
    hide Fixed, ReadFloat, ReadBytes, ReadUnknown, WriteTag;
    FloatRoundTrip(v, []);
    assert Fixed(4, v) + [] == Fixed(4, v);
    ReadsOne(MemoryField(opt), m, 7, BIT32, Fixed(4, v), m.(embedding := m.embedding + [v]));
  }

  /** The entry in hand after one string field, written or omitted, has been read. */
  function MergeString(m: MemoryEntry, no: nat, s: bytes): MemoryEntry {
    MemoryEntry(
      if no == 1 then Last(m.id, s) else m.id,
      if no == 2 then Last(m.agentId, s) else m.agentId,
      if no == 3 then Last(m.objective, s) else m.objective,
      if no == 4 then Last(m.action, s) else m.action,
      if no == 5 then Last(m.result, s) else m.result,
      if no == 6 then Last(m.timestamp, s) else m.timestamp,
      m.embedding, m.unknown)
  }

  lemma ReadsMemoryString(opt: Options, m: MemoryEntry, no: nat, s: bytes)
    requires 1 <= no <= 6 && |s| < 0x1_0000_0000
    ensures Reads(MemoryField(opt), m, WriteString(no, s), MergeString(m, no, s))
  {
    ReadsString(MemoryField(opt), m, no, s, MergeString(m, no, s));
  }

  lemma ReadsStrings(opt: Options, m: MemoryEntry, e: MemoryEntry)
    requires FitMemory(opt, e)
    ensures Reads(MemoryField(opt), m, WriteStrings(e),
                  MergeMemory(opt, m, e).(embedding := m.embedding, unknown := m.unknown))
  {
    var f := MemoryField(opt);
    MemoryLocal(opt);
    var m1 := MergeString(m, 1, e.id);
    var m2 := MergeString(m1, 2, e.agentId);
    var m3 := MergeString(m2, 3, e.objective);
    var m4 := MergeString(m3, 4, e.action);
    var m5 := MergeString(m4, 5, e.result);
    var m6 := MergeString(m5, 6, e.timestamp);
    ReadsMemoryString(opt, m, 1, e.id);
    ReadsMemoryString(opt, m1, 2, e.agentId);
    ReadsMemoryString(opt, m2, 3, e.objective);
    ReadsMemoryString(opt, m3, 4, e.action);
    ReadsMemoryString(opt, m4, 5, e.result);
    ReadsMemoryString(opt, m5, 6, e.timestamp);
    var b1, b2, b3, b4, b5 := WriteString(1, e.id), WriteString(2, e.agentId), WriteString(3, e.objective),
                              WriteString(4, e.action), WriteString(5, e.result);
    ReadsFive(f, m, b1, m1, b2, m2, b3, m3, b4, m4, b5, m5);
    ReadsThen(f, m, b1 + b2 + b3 + b4 + b5, m5, WriteString(6, e.timestamp), m6);
  }

  function AddMemoryUnknown(m: MemoryEntry, us: seq<UnknownField>): MemoryEntry {
    m.(unknown := m.unknown + us)
  }

  lemma MemoryDefaultArm(opt: Options)
    ensures DefaultArm(opt, MemoryField(opt), 7, AddMemoryUnknown)
  {
    forall m: MemoryEntry, us, vs
      ensures AddMemoryUnknown(AddMemoryUnknown(m, us), vs) == AddMemoryUnknown(m, us + vs)
    {
      assert m.unknown + us + vs == m.unknown + (us + vs);
    }
    forall m: MemoryEntry
      ensures AddMemoryUnknown(m, []) == m
    {
      assert m.unknown + [] == m.unknown;
    }
  }

  lemma ReadsMemoryUnknowns(opt: Options, m: MemoryEntry, us: seq<UnknownField>)
    requires UnknownsFit(opt, us, 7)
    ensures Reads(MemoryField(opt), m, Unknowns(opt, us), m.(unknown := m.unknown + Surviving(opt, us)))
  {
    MemoryLocal(opt);
    MemoryDefaultArm(opt);
    ReadsUnknowns(opt, MemoryField(opt), 7, AddMemoryUnknown, m, us);
  }

  lemma ReadsMemory(opt: Options, m: MemoryEntry, e: MemoryEntry)
    requires FitMemory(opt, e) && PackedLengthPositive(e.embedding)
    ensures Reads(MemoryField(opt), m, WriteMemory(opt, e), MergeMemory(opt, m, e))
  {
    var f := MemoryField(opt);
    MemoryLocal(opt);
    var m1 := MergeMemory(opt, m, e).(embedding := m.embedding, unknown := m.unknown);
    var m2 := m1.(embedding := m1.embedding + e.embedding);
    ReadsStrings(opt, m, e);
    assert Reads(f, m1, WriteEmbedding(e.embedding), m2) by {
      if e.embedding == [] {
        assert m1.embedding + [] == m1.embedding;
      } else {
        ReadsPackedField(opt, m1, e.embedding);
      }
    }
    ReadsMemoryUnknowns(opt, m2, e.unknown);
    ReadsThen(f, m, WriteStrings(e), m1, WriteEmbedding(e.embedding), m2);
    ReadsThen(f, m, WriteStrings(e) + WriteEmbedding(e.embedding), m2, Unknowns(opt, e.unknown), MergeMemory(opt, m, e));
  }

  // ---- Packed, unpacked and mixed embeddings ----

  datatype Chunk = Packed(floats: seq<bits32>) | Single(float: bits32)

  function WriteChunk(c: Chunk): bytes {
    match c
    case Packed(fs) => WriteTag(7, LENGTH_DELIMITED) + Delimited(WriteFloats(fs))
    case Single(v) => WriteTag(7, BIT32) + Fixed(4, v)
  }

  function ChunkFloats(c: Chunk): seq<bits32> {
    match c
    case Packed(fs) => fs
    case Single(v) => [v]
  }

  function WriteChunks(cs: seq<Chunk>): bytes {
    if cs == [] then [] else WriteChunk(cs[0]) + WriteChunks(cs[1..])
  }

  function Floats(cs: seq<Chunk>): seq<bits32> {
    if cs == [] then [] else ChunkFloats(cs[0]) + Floats(cs[1..])
  }

  function AddFloats(m: MemoryEntry, fs: seq<bits32>): MemoryEntry {
    m.(embedding := m.embedding + fs)
  }

  lemma ReadsChunk(opt: Options, m: MemoryEntry, c: Chunk)
    requires c.Packed? ==> PackedLengthPositive(c.floats)
    ensures Reads(MemoryField(opt), m, WriteChunk(c), AddFloats(m, ChunkFloats(c)))
  {
    match c
    case Packed(fs) => ReadsPackedField(opt, m, fs);
    case Single(v) => ReadsSingleFloat(opt, m, v);
  }

  /** However a sender splits an embedding into packed and single chunks, the receiver holds the same list. */
  lemma {:induction false} ReadsChunks(opt: Options, m: MemoryEntry, cs: seq<Chunk>)
    requires forall c <- cs :: c.Packed? ==> PackedLengthPositive(c.floats)
    ensures Reads(MemoryField(opt), m, WriteChunks(cs), AddFloats(m, Floats(cs)))
    decreases |cs|
  {
    if cs == [] {
      assert m.embedding + [] == m.embedding;
    } else {
      var m' := AddFloats(m, ChunkFloats(cs[0]));
      assert AddFloats(m', Floats(cs[1..])) == AddFloats(m, Floats(cs)) by {
        assert m.embedding + ChunkFloats(cs[0]) + Floats(cs[1..]) == m.embedding + Floats(cs);
      }
      MemoryLocal(opt);
      ReadsChunk(opt, m, cs[0]);
      ReadsChunks(opt, m', cs[1..]);
      ReadsThen(MemoryField(opt), m, WriteChunk(cs[0]), m', WriteChunks(cs[1..]), AddFloats(m, Floats(cs)));
    }
  }

  // ---- Exactly when an entry survives the round trip ----

  /** Every float read costs four bytes, and every field read costs a tag besides. */
  lemma {:induction false} FloatsCostBytes(opt: Options, m: MemoryEntry, b: bytes, stop: int)
    requires ReadFields(MemoryField(opt), m, b, stop).Some?
    ensures var (m', rest) := ReadFields(MemoryField(opt), m, b, stop).value;
            && 4 * (|m'.embedding| - |m.embedding|) <= |b| - |rest|
            && (|b| > stop ==> 4 * (|m'.embedding| - |m.embedding|) < |b| - |rest|)
    decreases |b|
  {
    if |b| > stop {
      var (tag, rest) := ReadTag(b).value;
      var (m1, rest1) := ReadMemoryField(opt, m, tag, rest).value;
      FloatsCostBytes(opt, m1, rest1, stop);
    }
  }

  /** The bytes it takes at least to hold the floats and the unknown fields of an entry. */
  function Cost(m: MemoryEntry): nat {
    4 * |m.embedding| + |WriteUnknown(m.unknown)|
  }

  lemma {:induction false} WriteUnknownAppended(us: seq<UnknownField>, vs: seq<UnknownField>)
    ensures WriteUnknown(us + vs) == WriteUnknown(us) + WriteUnknown(vs)
  {
    if us == [] {
      assert us + vs == vs;
    } else {
      assert (us + vs)[0] == us[0] && (us + vs)[1..] == us[1..] + vs;
      WriteUnknownAppended(us[1..], vs);
    }
  }

  lemma UnknownCosts(opt: Options, m: MemoryEntry, tag: Tag, b: bytes)
    requires ReadUnknown(opt, tag, b).Some?
    ensures var (us, rest) := ReadUnknown(opt, tag, b).value;
            |WriteUnknown(m.unknown + us)| <= |WriteUnknown(m.unknown)| + |WriteTag(tag.no, tag.wire)| + |b| - |rest|
  {
    hide WriteTag, Skip;
    var (us, rest) := ReadUnknown(opt, tag, b).value;
    WriteUnknownAppended(m.unknown, us);
    if us != [] {
      assert us[1..] == [];
    }
  }

  lemma FieldCosts(opt: Options, m: MemoryEntry, tag: Tag, b: bytes)
    requires ReadMemoryField(opt, m, tag, b).Some?
    ensures var (m', rest) := ReadMemoryField(opt, m, tag, b).value;
            && Cost(m') <= Cost(m) + |WriteTag(tag.no, tag.wire)| + |b| - |rest|
            && (|m'.embedding| != |m.embedding| ==> Cost(m') <= Cost(m) + |b| - |rest|)
  {
    hide WriteTag, WriteUnknown, ReadUnknown, ReadBytes, ReadEmbeddingField;
    if !(1 <= tag.no <= 7) {
      UnknownCosts(opt, m, tag, b);
    }
  }

  /** A run of the reader pays for what it adds to the entry, and for each field with floats also for its tag. */
  lemma {:induction false} EntryCostsBytes(opt: Options, m: MemoryEntry, b: bytes, stop: int)
    requires ReadFields(MemoryField(opt), m, b, stop).Some?
    ensures var (m', rest) := ReadFields(MemoryField(opt), m, b, stop).value;
            && |m'.embedding| >= |m.embedding| && Cost(m') <= Cost(m) + |b| - |rest|
            && (|m'.embedding| > |m.embedding| ==> Cost(m') < Cost(m) + |b| - |rest|)
    decreases |b|
  {
    hide Cost, WriteTag, ReadTag, ReadMemoryField;
    if |b| > stop {
      var (tag, rest) := ReadTag(b).value;
      var (m1, rest1) := ReadMemoryField(opt, m, tag, rest).value;
      TagShortest(b);
      FieldCosts(opt, m, tag, rest);
      EntryCostsBytes(opt, m1, rest1, stop);
    }
  }

  /** With a packed length of 2^31 or more the float loop does not run: the reader takes the floats, and whatever
      follows them, for fields. */
  lemma LongEmbeddingIsSkipped(opt: Options, m: MemoryEntry, fs: seq<bits32>, tail: bytes)
    requires !PackedLengthPositive(fs) && 4 * |fs| < 0x1_0000_0000 && m.embedding == []
    ensures (ReadFields(MemoryField(opt), m, WriteEmbedding(fs) + tail, 0)
             == ReadFields(MemoryField(opt), m, WriteFloats(fs) + tail, 0))
  {
    hide WriteFloats, WriteTag, ReadTag, Varint, ReadVarint;
    var w := WriteFloats(fs);
    var b := WriteTag(7, LENGTH_DELIMITED) + (Delimited(w) + tail);
    assert WriteEmbedding(fs) + tail == b;
    assert Delimited(w) + tail == Varint(|w|) + (w + tail);
    TagRoundTrip(7, LENGTH_DELIMITED, Delimited(w) + tail);
    Uint32RoundTrip(|w|, w + tail);
    var n := ToInt32(|w|);
    assert n < 0;
    assert ReadInt32(Delimited(w) + tail) == Some((n, w + tail));
    assert ReadEmbeddingField([], LENGTH_DELIMITED, Delimited(w) + tail) == Some(([], w + tail));
    assert ReadMemoryField(opt, m, Tag(7, LENGTH_DELIMITED), Delimited(w) + tail) == Some((m, w + tail));
  }

  lemma LongEmbeddingIsLost(opt: Options, m: MemoryEntry, fs: seq<bits32>)
    requires !PackedLengthPositive(fs) && 4 * |fs| < 0x1_0000_0000 && m.embedding == []
    ensures var o := ReadFields(MemoryField(opt), m, WriteEmbedding(fs), 0); o.Some? ==> |o.value.0.embedding| < |fs|
  {
    hide ReadFields, WriteEmbedding, ReadTag, ReadMemoryField;
    LongEmbeddingIsSkipped(opt, m, fs, []);
    assert WriteEmbedding(fs) + [] == WriteEmbedding(fs) && WriteFloats(fs) + [] == WriteFloats(fs);
    if ReadFields(MemoryField(opt), m, WriteFloats(fs), 0).Some? {
      FloatsCostBytes(opt, m, WriteFloats(fs), 0);
    }
  }
}
