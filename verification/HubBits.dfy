/** What arrives, stated on the bits: which doubles are left out, which unknown fields are kept, and the bytes on the
    wire. The statements use the numbers of the schema and of the wire format themselves. */
module HubBits {
  import opened Prelude
  import opened Wire
  import opened FieldLoop
  import opened MessageFields
  import opened HubMessages
  import opened MemoryMessages
  import opened HubLaws

  // ---- What a reader that held one value holds after a written one ----

  /** Every double but the two zeros, which have no bit set below the sign, replaces the one in hand. */
  predicate DoubleArrives(before: bits64, sent: bits64, after: bits64) {
    after == if sent % 0x8000_0000_0000_0000 != 0 then sent else before
  }

  predicate NumberArrives(before: int32, sent: int32, after: int32) {
    after == if sent != 0 then sent else before
  }

  predicate TextArrives(before: bytes, sent: bytes, after: bytes) {
    after == if |sent| > 0 then sent else before
  }

  predicate UnknownsArrive(opt: Options, before: seq<UnknownField>, sent: seq<UnknownField>, after: seq<UnknownField>) {
    after == if opt.write && opt.read == Keep then before + sent else before
  }

  predicate ProcessArrives(opt: Options, before: ProcessInfo, sent: ProcessInfo, after: ProcessInfo) {
    && TextArrives(before.name, sent.name, after.name) && NumberArrives(before.pid, sent.pid, after.pid)
    && DoubleArrives(before.memMb, sent.memMb, after.memMb)
    && DoubleArrives(before.cpuPercent, sent.cpuPercent, after.cpuPercent)
    && UnknownsArrive(opt, before.unknown, sent.unknown, after.unknown)
  }

  /** Sent processes are appended, each as a new one. */
  predicate ProcessesArrive(opt: Options, before: seq<ProcessInfo>, sent: seq<ProcessInfo>, after: seq<ProcessInfo>) {
    && |after| == |before| + |sent| && after[..|before|] == before
    && forall i | 0 <= i < |sent| :: ProcessArrives(opt, ProcessInfo([], 0, 0, 0, []), sent[i], after[|before| + i])
  }

  predicate HealthArrives(opt: Options, before: HealthUpdate, sent: HealthUpdate, after: HealthUpdate) {
    && DoubleArrives(before.cpuUsage, sent.cpuUsage, after.cpuUsage)
    && DoubleArrives(before.memoryUsage, sent.memoryUsage, after.memoryUsage)
    && NumberArrives(before.goroutines, sent.goroutines, after.goroutines)
    && ProcessesArrive(opt, before.heavyProcesses, sent.heavyProcesses, after.heavyProcesses)
    && TextArrives(before.timestamp, sent.timestamp, after.timestamp)
    && UnknownsArrive(opt, before.unknown, sent.unknown, after.unknown)
  }

  /** A sent health is merged into the one in hand, or into a new one. */
  predicate OptionalHealthArrives(
    opt: Options, before: Option<HealthUpdate>, sent: Option<HealthUpdate>, after: Option<HealthUpdate>)
  {
    if sent.None? then after == before
    else after.Some? && HealthArrives(opt, before.GetOr(HealthUpdate(0, 0, 0, [], [], [])), sent.value, after.value)
  }

  predicate StatusArrives(opt: Options, before: StatusResponse, sent: StatusResponse, after: StatusResponse) {
    && TextArrives(before.status, sent.status, after.status) && TextArrives(before.version, sent.version, after.version)
    && OptionalHealthArrives(opt, before.health, sent.health, after.health)
    && UnknownsArrive(opt, before.unknown, sent.unknown, after.unknown)
  }

  lemma LeftOutExactly(d: bits64)
    ensures IsZero(d) <==> d % 0x8000_0000_0000_0000 == 0
  {
  }

  lemma WrittenProcessArrives(opt: Options, before: ProcessInfo, sent: ProcessInfo) returns (after: ProcessInfo)
    requires FitProcessInfo(opt, sent)
    ensures Reads(ProcessInfoField(opt), before, WriteProcessInfo(opt, sent), after)
    ensures ProcessArrives(opt, before, sent, after)
  {
    hide Reads, WriteProcessInfo, IsZero;
    ReadsProcessInfo(opt, before, sent);
    after := MergeProcessInfo(opt, before, sent);
    LeftOutExactly(sent.memMb);
    LeftOutExactly(sent.cpuPercent);
    assert before.unknown + [] == before.unknown;
  }

  lemma ReceivedProcessArrives(opt: Options, sent: ProcessInfo)
    ensures ProcessArrives(opt, ProcessInfo([], 0, 0, 0, []), sent, ReceivedProcess(opt, sent))
  {
    LeftOutExactly(sent.memMb);
    LeftOutExactly(sent.cpuPercent);
    assert [] + sent.unknown == sent.unknown;
  }

  lemma MergedHealthArrives(opt: Options, before: HealthUpdate, sent: HealthUpdate)
    ensures HealthArrives(opt, before, sent, MergeHealth(opt, before, sent))
  {
    hide IsZero, ProcessArrives, ReceivedProcess;
    LeftOutExactly(sent.cpuUsage);
    LeftOutExactly(sent.memoryUsage);
    assert before.unknown + [] == before.unknown;
    forall i | 0 <= i < |sent.heavyProcesses|
      ensures ProcessArrives(opt, ProcessInfo([], 0, 0, 0, []), sent.heavyProcesses[i],
                             MergeHealth(opt, before, sent).heavyProcesses[|before.heavyProcesses| + i])
    {
      ReceivedProcessArrives(opt, sent.heavyProcesses[i]);
    }
  }

  lemma WrittenHealthArrives(opt: Options, before: HealthUpdate, sent: HealthUpdate) returns (after: HealthUpdate)
    requires FitHealth(opt, sent)
    ensures Reads(HealthField(opt), before, WriteHealth(opt, sent), after)
    ensures HealthArrives(opt, before, sent, after)
  {
    hide Reads, WriteHealth, HealthArrives, MergeHealth;
    ReadsHealth(opt, before, sent);
    after := MergeHealth(opt, before, sent);
    MergedHealthArrives(opt, before, sent);
  }

  lemma MergedStatusArrives(opt: Options, before: StatusResponse, sent: StatusResponse)
    ensures StatusArrives(opt, before, sent, MergeStatus(opt, before, sent))
  {
    hide HealthArrives, MergeHealth, ReceivedHealth;
    assert before.unknown + [] == before.unknown;
    if sent.health.Some? {
      MergeIntoNoHealth(opt, sent.health.value);
      MergedHealthArrives(opt, before.health.GetOr(HealthUpdate(0, 0, 0, [], [], [])), sent.health.value);
    }
  }

  /** A written status response read into one in hand: every field of every depth, bit by bit. */
  lemma WrittenStatusArrives(opt: Options, before: StatusResponse, sent: StatusResponse) returns (after: StatusResponse)
    requires FitStatus(opt, sent)
    ensures Reads(StatusField(opt), before, WriteStatus(opt, sent), after)
    ensures StatusArrives(opt, before, sent, after)
  {
    hide Reads, WriteStatus, StatusArrives, MergeStatus;
    ReadsStatus(opt, before, sent);
    after := MergeStatus(opt, before, sent);
    MergedStatusArrives(opt, before, sent);
  }

  /** Two written status responses back to back: the second arrives on top of the first. */
  lemma BothStatusesArrive(opt: Options, a: StatusResponse, b: StatusResponse) returns (first: StatusResponse)
    requires FitStatus(opt, a) && FitStatus(opt, b)
    ensures StatusFrom(opt, WriteStatus(opt, a)) == Some(first)
    ensures StatusArrives(opt, StatusResponse([], [], None, []), a, first)
    ensures var both := StatusFrom(opt, WriteStatus(opt, a) + WriteStatus(opt, b));
            both.Some? && StatusArrives(opt, first, b, both.value)
  {
    hide WriteStatus, StatusArrives;
    first := WrittenStatusArrives(opt, NO_STATUS, a);
    var both := WrittenStatusArrives(opt, first, b);
    StatusLocal(opt);
    ReadsThen(StatusField(opt), NO_STATUS, WriteStatus(opt, a), first, WriteStatus(opt, b), both);
  }

  /** Of the texts the last one counts; embeddings are strung together, and so are unknown fields that both sides keep. */
  predicate MemoryArrives(opt: Options, before: MemoryEntry, sent: MemoryEntry, after: MemoryEntry) {
    && TextArrives(before.id, sent.id, after.id) && TextArrives(before.agentId, sent.agentId, after.agentId)
    && TextArrives(before.objective, sent.objective, after.objective)
    && TextArrives(before.action, sent.action, after.action)
    && TextArrives(before.result, sent.result, after.result)
    && TextArrives(before.timestamp, sent.timestamp, after.timestamp)
    && after.embedding == before.embedding + sent.embedding
    && UnknownsArrive(opt, before.unknown, sent.unknown, after.unknown)
  }

  /** A written memory entry, of less than 2^31 bytes of embedding, read into one in hand. */
  lemma WrittenMemoryArrives(opt: Options, before: MemoryEntry, sent: MemoryEntry) returns (after: MemoryEntry)
    requires FitMemory(opt, sent) && 4 * |sent.embedding| < 0x8000_0000
    ensures Reads(MemoryField(opt), before, WriteMemory(opt, sent), after)
    ensures MemoryArrives(opt, before, sent, after)
  {
    hide Reads, WriteMemory;
    ReadsMemory(opt, before, sent);
    after := MergeMemory(opt, before, sent);
  }

  // ---- Exactly what survives ----

  /** Neither side gives up the unknown fields, or there are none. */
  predicate KeepsUnknowns(opt: Options, us: seq<UnknownField>) {
    |us| == 0 || (opt.write && opt.read == Keep)
  }

  predicate ProcessSurvives(opt: Options, p: ProcessInfo) {
    && p.memMb != 0x8000_0000_0000_0000 && p.cpuPercent != 0x8000_0000_0000_0000 && KeepsUnknowns(opt, p.unknown)
  }

  /** No double of any depth is -0, and no unknown field of any depth is given up. */
  predicate StatusSurvives(opt: Options, s: StatusResponse) {
    && KeepsUnknowns(opt, s.unknown)
    && (s.health.Some? ==>
          var h := s.health.value;
          && h.cpuUsage != 0x8000_0000_0000_0000 && h.memoryUsage != 0x8000_0000_0000_0000
          && KeepsUnknowns(opt, h.unknown)
          && forall i | 0 <= i < |h.heavyProcesses| :: ProcessSurvives(opt, h.heavyProcesses[i]))
  }

  lemma UnknownsSurviveExactly(opt: Options, us: seq<UnknownField>)
    ensures Surviving(opt, us) == us <==> KeepsUnknowns(opt, us)
  {
  }

  lemma ProcessSurvivesExactly(opt: Options, p: ProcessInfo)
    ensures PlainProcess(opt, p) <==> ProcessSurvives(opt, p)
  {
    hide Surviving;
    UnknownsSurviveExactly(opt, p.unknown);
  }

  lemma PlainSurvives(opt: Options, s: StatusResponse)
    ensures PlainStatus(opt, s) <==> StatusSurvives(opt, s)
  {
    hide Surviving, PlainProcess, ProcessSurvives, KeepsUnknowns;
    UnknownsSurviveExactly(opt, s.unknown);
    if s.health.Some? {
      var h := s.health.value;
      UnknownsSurviveExactly(opt, h.unknown);
      forall i | 0 <= i < |h.heavyProcesses|
        ensures PlainProcess(opt, h.heavyProcesses[i]) <==> ProcessSurvives(opt, h.heavyProcesses[i])
      {
        ProcessSurvivesExactly(opt, h.heavyProcesses[i]);
      }
      assert (forall p <- h.heavyProcesses :: PlainProcess(opt, p))
        <==> forall i | 0 <= i < |h.heavyProcesses| :: PlainProcess(opt, h.heavyProcesses[i]);
    }
  }

  /** A status response reads back as exactly itself if and only if no double of any depth is -0 and no unknown field of
      any depth is given up by either side. */
  lemma StatusSurvivesExactly(opt: Options, s: StatusResponse)
    requires FitStatus(opt, s)
    ensures StatusFrom(opt, WriteStatus(opt, s)) == Some(s) <==> StatusSurvives(opt, s)
  {
    hide StatusFrom, WriteStatus, PlainStatus, StatusSurvives;
    StatusRoundTripExact(opt, s);
    PlainSurvives(opt, s);
  }

  // ---- The bytes on the wire ----

  lemma OneByteTag(no: nat, wire: nat)
    requires no < 16 && wire <= 5
    ensures WriteTag(no, wire) == [no * 8 + wire]
  {
  }

  /** Field 1 is the name, 2 the pid, 3 the memory and 4 the cpu share; defaults are left out. */
  lemma ProcessOnTheWire(opt: Options, p: ProcessInfo)
    ensures WriteProcessInfo(opt, p)
         == (if |p.name| > 0 then [0x0A] + Delimited(p.name) else [])
            + (if p.pid != 0 then [0x10] + Int32Varint(p.pid) else [])
            + (if p.memMb % 0x8000_0000_0000_0000 != 0 then [0x19] + Fixed(8, p.memMb) else [])
            + (if p.cpuPercent % 0x8000_0000_0000_0000 != 0 then [0x21] + Fixed(8, p.cpuPercent) else [])
            + Unknowns(opt, p.unknown)
  {
    hide WriteTag, Delimited, Int32Varint, Fixed, IsZero, Unknowns;
    OneByteTag(1, 2);
    OneByteTag(2, 0);
    OneByteTag(3, 1);
    OneByteTag(4, 1);
    LeftOutExactly(p.memMb);
    LeftOutExactly(p.cpuPercent);
  }

  /** Field 1 is the cpu usage, 2 the memory usage, 3 the goroutines, 4 the processes and 5 the time stamp. */
  lemma HealthOnTheWire(opt: Options, h: HealthUpdate)
    ensures WriteHealth(opt, h)
         == (if h.cpuUsage % 0x8000_0000_0000_0000 != 0 then [0x09] + Fixed(8, h.cpuUsage) else [])
            + (if h.memoryUsage % 0x8000_0000_0000_0000 != 0 then [0x11] + Fixed(8, h.memoryUsage) else [])
            + (if h.goroutines != 0 then [0x18] + Int32Varint(h.goroutines) else [])
            + WriteProcesses(opt, h.heavyProcesses)
            + (if |h.timestamp| > 0 then [0x2A] + Delimited(h.timestamp) else [])
            + Unknowns(opt, h.unknown)
  {
    hide WriteTag, Delimited, Int32Varint, Fixed, IsZero, WriteProcesses, Unknowns;
    OneByteTag(1, 1);
    OneByteTag(2, 1);
    OneByteTag(3, 0);
    OneByteTag(5, 2);
    LeftOutExactly(h.cpuUsage);
    LeftOutExactly(h.memoryUsage);
  }

  lemma ListedProcessOnTheWire(opt: Options, p: ProcessInfo, ps: seq<ProcessInfo>)
    ensures WriteProcesses(opt, [p] + ps) == [0x22] + Delimited(WriteProcessInfo(opt, p)) + WriteProcesses(opt, ps)
  {
    hide WriteTag, Delimited, WriteProcessInfo;
    OneByteTag(4, 2);
    assert ([p] + ps)[1..] == ps;
  }

  /** Field 1 is the status, 2 the version and 3 the health. */
  lemma StatusOnTheWire(opt: Options, s: StatusResponse)
    ensures WriteStatus(opt, s)
         == (if |s.status| > 0 then [0x0A] + Delimited(s.status) else [])
            + (if |s.version| > 0 then [0x12] + Delimited(s.version) else [])
            + (if s.health.Some? then [0x1A] + Delimited(WriteHealth(opt, s.health.value)) else [])
            + Unknowns(opt, s.unknown)
  {
    hide WriteTag, Delimited, WriteHealth, Unknowns;
    OneByteTag(1, 2);
    OneByteTag(2, 2);
    OneByteTag(3, 2);
  }

  function TextOnTheWire(tag: byte, s: bytes): bytes {
    if |s| > 0 then [tag] + Delimited(s) else []
  }

  lemma WrittenText(no: nat, s: bytes)
    requires no < 16
    ensures WriteString(no, s) == TextOnTheWire(no * 8 + 2, s)
  {
    hide WriteTag, Delimited;
    OneByteTag(no, 2);
  }

  /** Fields 1 to 6 are the id, the agent, the objective, the action, the result and the time stamp; 7 is the packed
      embedding. */
  lemma MemoryOnTheWire(opt: Options, e: MemoryEntry)
    ensures WriteMemory(opt, e)
         == TextOnTheWire(0x0A, e.id) + TextOnTheWire(0x12, e.agentId) + TextOnTheWire(0x1A, e.objective)
            + TextOnTheWire(0x22, e.action) + TextOnTheWire(0x2A, e.result) + TextOnTheWire(0x32, e.timestamp)
            + (if |e.embedding| > 0 then [0x3A] + Delimited(WriteFloats(e.embedding)) else []) + Unknowns(opt, e.unknown)
  {
    hide WriteTag, Delimited, Unknowns, WriteFloats, WriteString, TextOnTheWire;
    WrittenText(1, e.id);
    WrittenText(2, e.agentId);
    WrittenText(3, e.objective);
    WrittenText(4, e.action);
    WrittenText(5, e.result);
    WrittenText(6, e.timestamp);
    OneByteTag(7, 2);
  }

  /** A packed embedding is one four-byte number after the other. */
  lemma {:induction false} FloatsOnTheWire(es: seq<bits32>, i: nat)
    requires i < |es|
    ensures WriteFloats(es)[4 * i..4 * i + 4] == Fixed(4, es[i])
  {
    hide Fixed;
    var first, rest := Fixed(4, es[0]), WriteFloats(es[1..]);
    if i == 0 {
      assert (first + rest)[..4] == first;
    } else {
      FloatsOnTheWire(es[1..], i - 1);
      assert (first + rest)[4 * i..4 * i + 4] == rest[4 * (i - 1)..4 * (i - 1) + 4];
    }
  }

  /** A reader goes by the number of a field it knows, whatever wire type the tag gives; only an embedding is read by its
      wire type. */
  lemma WireTypeIsIgnored(opt: Options, no: nat, v: nat, w: nat, b: bytes)
    ensures 1 <= no <= 4 ==> forall m: ProcessInfo ::
              ReadProcessInfoField(opt, m, Tag(no, v), b) == ReadProcessInfoField(opt, m, Tag(no, w), b)
    ensures 1 <= no <= 5 ==> forall m: HealthUpdate ::
              ReadHealthField(opt, m, Tag(no, v), b) == ReadHealthField(opt, m, Tag(no, w), b)
    ensures 1 <= no <= 3 ==> forall m: StatusResponse ::
              ReadStatusField(opt, m, Tag(no, v), b) == ReadStatusField(opt, m, Tag(no, w), b)
    ensures 1 <= no <= 6 ==> forall m: MemoryEntry ::
              ReadMemoryField(opt, m, Tag(no, v), b) == ReadMemoryField(opt, m, Tag(no, w), b)
  {
    hide ReadBytes, ReadInt32, ReadDouble, ReadNested, ReadUnknown, ReadEmbeddingField;
  }

  lemma OneMoreGroup(low: nat, high: nat)
    requires low < 128 && high > 0
    ensures Varint(low + 128 * high) == [low + 128] + Varint(high)
  {
  }

  lemma OneGroup(n: nat)
    requires n < 128
    ensures Varint(n) == [n]
  {
  }

  /** The examples of the Protocol Buffers Encoding specification: 150 as a varint, -2 as an int32, a length in front of
      its bytes, and a fixed number with its low byte first. */
  lemma SpecificationExamples()
    ensures Varint(150) == [0x96, 0x01]
    ensures Int32Varint(-2) == [0xFE, 0xFF, 0xFF, 0xFF, 0xFF, 0xFF, 0xFF, 0xFF, 0xFF, 0x01]
    ensures Delimited([0x74, 0x65]) == [0x02, 0x74, 0x65]
    ensures Fixed(4, 0x3F80_0001) == [0x01, 0x00, 0x80, 0x3F]
  {
    hide Varint, Fixed;
    OneGroup(1);
    OneGroup(2);
    OneMoreGroup(0x16, 1);
    MinusTwo();
    LowByteFirst(4, 0x3F80_0001);
    LowByteFirst(3, 0x3F_8000);
    LowByteFirst(2, 0x3F80);
    LowByteFirst(1, 0x3F);
    LowByteFirst(0, 0);
  }

  lemma MinusTwo()
    ensures Varint(0xFFFF_FFFF_FFFF_FFFE) == [0xFE, 0xFF, 0xFF, 0xFF, 0xFF, 0xFF, 0xFF, 0xFF, 0xFF, 0x01]
  {
    hide Varint;
    OneMoreGroup(0x7E, 0x1FF_FFFF_FFFF_FFFF);
    OneMoreGroup(0x7F, 0x3_FFFF_FFFF_FFFF);
    OneMoreGroup(0x7F, 0x7FF_FFFF_FFFF);
    OneMoreGroup(0x7F, 0xF_FFFF_FFFF);
    OneMoreGroup(0x7F, 0x1FFF_FFFF);
    OneMoreGroup(0x7F, 0x3F_FFFF);
    OneMoreGroup(0x7F, 0x7FFF);
    OneMoreGroup(0x7F, 0xFF);
    OneMoreGroup(0x7F, 1);
    OneGroup(1);
  }

  lemma LowByteFirst(k: nat, v: nat)
    ensures Fixed(k, v) == if k == 0 then [] else [v % 0x100] + Fixed(k - 1, v / 0x100)
  {
  }
}
