/** What a receiver can rely on: round trips, merging of concatenated messages, indifference to unknown fields. */
module HubLaws {
  import opened Prelude
  import opened Wire
  import opened FieldLoop
  import opened MessageFields
  import opened HubMessages
  import opened MemoryMessages

  ghost function StatusFrom(opt: Options, b: bytes): Option<StatusResponse> {
    var (m, _) :- ReadFields(StatusField(opt), NO_STATUS, b, 0);
    Some(m)
  }

  ghost function MemoryFrom(opt: Options, b: bytes): Option<MemoryEntry> {
    var (m, _) :- ReadFields(MemoryField(opt), NO_MEMORY, b, 0);
    Some(m)
  }

  // ---- Round trips ----

  function ReceivedStatus(opt: Options, s: StatusResponse): StatusResponse {
    s.(health := if s.health.None? then None else Some(ReceivedHealth(opt, s.health.value)), unknown := Surviving(opt, s.unknown))
  }

  predicate PlainProcess(opt: Options, p: ProcessInfo) {
    && PositiveZero(p.memMb) == p.memMb && PositiveZero(p.cpuPercent) == p.cpuPercent
    && Surviving(opt, p.unknown) == p.unknown
  }

  /** No double is -0, and every unknown list is kept by both sides, at every depth. */
  predicate PlainStatus(opt: Options, s: StatusResponse) {
    && Surviving(opt, s.unknown) == s.unknown
    && (s.health.Some? ==>
        var h := s.health.value;
        && PositiveZero(h.cpuUsage) == h.cpuUsage && PositiveZero(h.memoryUsage) == h.memoryUsage
        && Surviving(opt, h.unknown) == h.unknown
        && forall p <- h.heavyProcesses :: PlainProcess(opt, p))
  }

  /** What was written reads back as itself but for the sign of zeros and unknown fields one side gives up. */
  lemma StatusRoundTrip(opt: Options, s: StatusResponse)
    requires FitStatus(opt, s)
    ensures StatusFrom(opt, WriteStatus(opt, s)) == Some(ReceivedStatus(opt, s))
  {
    ReadsStatus(opt, NO_STATUS, s);
    assert [] + Surviving(opt, s.unknown) == Surviving(opt, s.unknown);
    assert MergeStatus(opt, NO_STATUS, s) == ReceivedStatus(opt, s);
  }

  lemma ProcessesSurviveExactly(opt: Options, ps: seq<ProcessInfo>)
    ensures ReceivedProcesses(opt, ps) == ps <==> forall p <- ps :: PlainProcess(opt, p)
  {
    if forall p <- ps :: PlainProcess(opt, p) {
      forall i | 0 <= i < |ps|
        ensures ReceivedProcesses(opt, ps)[i] == ps[i]
      {
        assert ps[i] in ps;
      }
    } else {
      var i :| 0 <= i < |ps| && !PlainProcess(opt, ps[i]);
      assert ReceivedProcesses(opt, ps)[i] != ps[i];
    }
  }

  lemma StatusRoundTripExact(opt: Options, s: StatusResponse)
    requires FitStatus(opt, s)
    ensures StatusFrom(opt, WriteStatus(opt, s)) == Some(s) <==> PlainStatus(opt, s)
  {
    StatusRoundTrip(opt, s);
    if s.health.Some? {
      ProcessesSurviveExactly(opt, s.health.value.heavyProcesses);
    }
  }

  /** What is left of a long embedding and of the unknown fields behind it costs more bytes than there are. */
  lemma LongEntryIsLost(opt: Options, e: MemoryEntry)
    requires FitMemory(opt, e) && !PackedLengthPositive(e.embedding)
    ensures MemoryFrom(opt, WriteMemory(opt, e)) != Some(e)
  {
    hide ReadFields, ReadTag, WriteStrings, WriteEmbedding, WriteFloats, WriteUnknown;
    var f, m1 := MemoryField(opt), MergeMemory(opt, NO_MEMORY, e).(embedding := [], unknown := []);
    var tail := Unknowns(opt, e.unknown);
    MemoryLocal(opt);
    ReadsStrings(opt, NO_MEMORY, e);
    assert WriteMemory(opt, e) == WriteStrings(e) + (WriteEmbedding(e.embedding) + tail);
    ReadFieldsConcat(f, NO_MEMORY, WriteStrings(e), m1, WriteEmbedding(e.embedding) + tail, 0);
    LongEmbeddingIsSkipped(opt, m1, e.embedding, tail);
    if ReadFields(f, m1, WriteFloats(e.embedding) + tail, 0).Some? {
      EntryCostsBytes(opt, m1, WriteFloats(e.embedding) + tail, 0);
      NoUnknownsCostNothing();
    }
  }

  lemma NoUnknownsCostNothing()
    ensures WriteUnknown([]) == []
  {
  }

  /** An entry survives exactly when its packed length is below 2^31 and both sides keep its unknown fields: at 2^31
      bytes and more the writer still accepts it, and the reader fails or yields something else. */
  lemma MemoryRoundTripExact(opt: Options, e: MemoryEntry)
    requires FitMemory(opt, e)
    ensures (MemoryFrom(opt, WriteMemory(opt, e)) == Some(e)
             <==> PackedLengthPositive(e.embedding) && Surviving(opt, e.unknown) == e.unknown)
  {
    hide ReadTag, WriteStrings, WriteEmbedding, WriteUnknown;
    if PackedLengthPositive(e.embedding) {
      ReadsMemory(opt, NO_MEMORY, e);
      assert MergeMemory(opt, NO_MEMORY, e) == e.(unknown := Surviving(opt, e.unknown)) by {
        assert [] + Surviving(opt, e.unknown) == Surviving(opt, e.unknown);
        assert [] + e.embedding == e.embedding;
      }
    } else {
      LongEntryIsLost(opt, e);
    }
  }

  // ---- Concatenation ----

  /** For arbitrary bytes: what follows a readable message is read as if into that message. */
  lemma StatusConcat(opt: Options, a: bytes, b: bytes)
    requires StatusFrom(opt, a).Some?
    ensures StatusFrom(opt, a + b) == match ReadFields(StatusField(opt), StatusFrom(opt, a).value, b, 0)
                                      case None => None
                                      case Some((m, _)) => Some(m)
  {
    StatusLocal(opt);
    ReadFieldsConcat(StatusField(opt), NO_STATUS, a, StatusFrom(opt, a).value, b, 0);
  }

  /** Two written messages back to back read as the merge of the two. */
  lemma StatusMergeLaw(opt: Options, a: StatusResponse, b: StatusResponse)
    requires FitStatus(opt, a) && FitStatus(opt, b)
    ensures StatusFrom(opt, WriteStatus(opt, a) + WriteStatus(opt, b)) == Some(MergeStatus(opt, ReceivedStatus(opt, a), b))
  {
    StatusRoundTrip(opt, a);
    StatusConcat(opt, WriteStatus(opt, a), WriteStatus(opt, b));
    ReadsStatus(opt, ReceivedStatus(opt, a), b);
  }

  lemma MemoryMergeLaw(opt: Options, a: MemoryEntry, b: MemoryEntry)
    requires FitMemory(opt, a) && FitMemory(opt, b) && PackedLengthPositive(a.embedding) && PackedLengthPositive(b.embedding)
    ensures MemoryFrom(opt, WriteMemory(opt, a) + WriteMemory(opt, b))
         == Some(MergeMemory(opt, a.(unknown := Surviving(opt, a.unknown)), b))
  {
    hide ReadTag, WriteMemory;
    MemoryLocal(opt);
    var a' := a.(unknown := Surviving(opt, a.unknown));
    ReadsMemory(opt, NO_MEMORY, a);
    assert MergeMemory(opt, NO_MEMORY, a) == a' by {
      assert [] + Surviving(opt, a.unknown) == Surviving(opt, a.unknown);
      assert [] + a.embedding == a.embedding;
    }
    ReadFieldsConcat(MemoryField(opt), NO_MEMORY, WriteMemory(opt, a), a', WriteMemory(opt, b), 0);
    ReadsMemory(opt, a', b);
  }

  // ---- Unknown fields never change known ones ----

  function KnownProcess(p: ProcessInfo): ProcessInfo {
    p.(unknown := [])
  }

  function KnownProcesses(ps: seq<ProcessInfo>): (r: seq<ProcessInfo>)
    ensures |r| == |ps| && forall i | 0 <= i < |ps| :: r[i] == KnownProcess(ps[i])
  {
    if ps == [] then [] else [KnownProcess(ps[0])] + KnownProcesses(ps[1..])
  }

  function KnownHealth(h: HealthUpdate): HealthUpdate {
    h.(heavyProcesses := KnownProcesses(h.heavyProcesses), unknown := [])
  }

  /** The status response without the unknown fields of any depth. */
  function KnownStatus(s: StatusResponse): StatusResponse {
    s.(health := if s.health.None? then None else Some(KnownHealth(s.health.value)), unknown := [])
  }

  function KnownMemory(e: MemoryEntry): MemoryEntry {
    e.(unknown := [])
  }

  const KEEP := Options(Keep, true)
  const DROP := Options(Drop, true)

  lemma NothingAdded()
    ensures var none: seq<UnknownField> := []; none + none == none
  {
  }

  lemma ProcessesAgree()
    ensures Agree(ProcessInfoField(KEEP), ProcessInfoField(DROP), KnownProcess)
  {
    hide ReadBytes, ReadInt32, ReadDouble, Skip;
    forall m: ProcessInfo, tag: Tag, b: bytes
      ensures Image(KnownProcess, ReadProcessInfoField(KEEP, m, tag, b)) == ReadProcessInfoField(DROP, KnownProcess(m), tag, b)
    {
      NothingAdded();
    }
  }

  lemma KnownProcessesAppend(ps: seq<ProcessInfo>, p: ProcessInfo)
    ensures KnownProcesses(ps + [p]) == KnownProcesses(ps) + [KnownProcess(p)]
  {
  }

  lemma ProcessFieldAgrees(m: HealthUpdate, wire: nat, b: bytes)
    ensures Image(KnownHealth, ReadHealthField(KEEP, m, Tag(4, wire), b)) == ReadHealthField(DROP, KnownHealth(m), Tag(4, wire), b)
  {
    hide ReadBytes, ReadInt32, ReadDouble, Skip, ReadNested;
    ProcessesAgree();
    ReadNestedAgree(ProcessInfoField(KEEP), ProcessInfoField(DROP), KnownProcess, NO_PROCESS, b);
    var o := ReadNested(ProcessInfoField(KEEP), NO_PROCESS, b);
    if o.Some? {
      KnownProcessesAppend(m.heavyProcesses, o.value.0);
    }
  }

  lemma HealthFieldsAgree(m: HealthUpdate, tag: Tag, b: bytes)
    ensures Image(KnownHealth, ReadHealthField(KEEP, m, tag, b)) == ReadHealthField(DROP, KnownHealth(m), tag, b)
  {
    hide ReadBytes, ReadInt32, ReadDouble, Skip, ReadNested;
    if tag.no == 4 {
      ProcessFieldAgrees(m, tag.wire, b);
    } else {
      NothingAdded();
    }
  }

  lemma HealthsAgree()
    ensures Agree(HealthField(KEEP), HealthField(DROP), KnownHealth)
  {
    forall m: HealthUpdate, tag: Tag, b: bytes
      ensures Image(KnownHealth, ReadHealthField(KEEP, m, tag, b)) == ReadHealthField(DROP, KnownHealth(m), tag, b)
    {
      HealthFieldsAgree(m, tag, b);
    }
  }

  lemma StatusFieldsAgree(m: StatusResponse, tag: Tag, b: bytes)
    ensures Image(KnownStatus, ReadStatusField(KEEP, m, tag, b)) == ReadStatusField(DROP, KnownStatus(m), tag, b)
  {
    hide ReadBytes, Skip, ReadNested;
    if tag.no == 3 {
      HealthsAgree();
      ReadNestedAgree(HealthField(KEEP), HealthField(DROP), KnownHealth, m.health.GetOr(NO_HEALTH), b);
      assert KnownHealth(m.health.GetOr(NO_HEALTH)) == KnownStatus(m).health.GetOr(NO_HEALTH);
    } else {
      NothingAdded();
    }
  }

  /** For arbitrary bytes: keeping unknown fields, at any depth, yields the same known fields as dropping them,
      and fails on the same bytes. */
  lemma KeepingUnknownsIsInvisible(b: bytes)
    ensures match StatusFrom(KEEP, b)
            case None => StatusFrom(DROP, b) == None
            case Some(s) => StatusFrom(DROP, b) == Some(KnownStatus(s))
  {
    forall m: StatusResponse, tag: Tag, b: bytes
      ensures Image(KnownStatus, ReadStatusField(KEEP, m, tag, b)) == ReadStatusField(DROP, KnownStatus(m), tag, b)
    {
      StatusFieldsAgree(m, tag, b);
    }
    assert Agree(StatusField(KEEP), StatusField(DROP), KnownStatus);
    ReadFieldsAgree(StatusField(KEEP), StatusField(DROP), KnownStatus, NO_STATUS, b, 0);
  }

  lemma MemoryFieldsAgree(m: MemoryEntry, tag: Tag, b: bytes)
    ensures Image(KnownMemory, ReadMemoryField(KEEP, m, tag, b)) == ReadMemoryField(DROP, KnownMemory(m), tag, b)
  {
    hide ReadBytes, Skip, ReadEmbeddingField;
    NothingAdded();
  }

  /** The same for memory entries. */
  lemma KeepingUnknownsIsInvisibleToMemory(b: bytes)
    ensures match MemoryFrom(KEEP, b)
            case None => MemoryFrom(DROP, b) == None
            case Some(e) => MemoryFrom(DROP, b) == Some(KnownMemory(e))
  {
    forall m: MemoryEntry, tag: Tag, b: bytes
      ensures Image(KnownMemory, ReadMemoryField(KEEP, m, tag, b)) == ReadMemoryField(DROP, KnownMemory(m), tag, b)
    {
      MemoryFieldsAgree(m, tag, b);
    }
    assert Agree(MemoryField(KEEP), MemoryField(DROP), KnownMemory);
    ReadFieldsAgree(MemoryField(KEEP), MemoryField(DROP), KnownMemory, NO_MEMORY, b, 0);
  }

  // ---- A complete unknown field between arbitrary bytes ----

  /** A reader that drops unknown fields reads every message as if the field were not there ... */
  lemma InterleavedUnknownIsIgnored(a: bytes, u: UnknownField, b: bytes)
    requires Foreign(u, 3) && StatusFrom(DROP, a).Some?
    ensures StatusFrom(DROP, a + WriteForeign(u) + b) == StatusFrom(DROP, a + b)
  {
    StatusLocal(DROP);
    StatusDefaultArm(DROP);
    DroppedUnknownIsIgnored(DROP, StatusField(DROP), 3, AddStatusUnknown, NO_STATUS, a, u, b);
  }

  lemma InterleavedUnknownIsIgnoredByMemory(a: bytes, u: UnknownField, b: bytes)
    requires Foreign(u, 7) && MemoryFrom(DROP, a).Some?
    ensures MemoryFrom(DROP, a + WriteForeign(u) + b) == MemoryFrom(DROP, a + b)
  {
    MemoryLocal(DROP);
    MemoryDefaultArm(DROP);
    DroppedUnknownIsIgnored(DROP, MemoryField(DROP), 7, AddMemoryUnknown, NO_MEMORY, a, u, b);
  }

  lemma InterleavedUnknownIsIgnoredByHealth(m: HealthUpdate, a: bytes, u: UnknownField, b: bytes)
    requires Foreign(u, 5) && ReadFields(HealthField(DROP), m, a, 0).Some?
    ensures ReadFields(HealthField(DROP), m, a + WriteForeign(u) + b, 0) == ReadFields(HealthField(DROP), m, a + b, 0)
  {
    HealthLocal(DROP);
    HealthDefaultArm(DROP);
    DroppedUnknownIsIgnored(DROP, HealthField(DROP), 5, AddHealthUnknown, m, a, u, b);
  }

  lemma InterleavedUnknownIsIgnoredByProcess(m: ProcessInfo, a: bytes, u: UnknownField, b: bytes)
    requires Foreign(u, 4) && ReadFields(ProcessInfoField(DROP), m, a, 0).Some?
    ensures ReadFields(ProcessInfoField(DROP), m, a + WriteForeign(u) + b, 0) == ReadFields(ProcessInfoField(DROP), m, a + b, 0)
  {
    ProcessInfoLocal(DROP);
    ProcessDefaultArm(DROP);
    DroppedUnknownIsIgnored(DROP, ProcessInfoField(DROP), 4, AddProcessInfoUnknown, m, a, u, b);
  }

  function KnownPart<M, N>(forget: M -> N, o: Option<M>): Option<N> {
    if o.None? then None else Some(forget(o.value))
  }

  /** ... and one that keeps them holds the same known fields, or fails, with and without it. */
  lemma InterleavedUnknownIsInvisible(a: bytes, u: UnknownField, b: bytes)
    requires Foreign(u, 3) && StatusFrom(KEEP, a).Some?
    ensures (KnownPart(KnownStatus, StatusFrom(KEEP, a + WriteForeign(u) + b))
             == KnownPart(KnownStatus, StatusFrom(KEEP, a + b)))
  {
    hide StatusFrom, KnownStatus, WriteForeign, Foreign;
    KeepingUnknownsIsInvisible(a);
    InterleavedUnknownIsIgnored(a, u, b);
    KeepingUnknownsIsInvisible(a + WriteForeign(u) + b);
    KeepingUnknownsIsInvisible(a + b);
  }

  lemma InterleavedUnknownIsInvisibleToMemory(a: bytes, u: UnknownField, b: bytes)
    requires Foreign(u, 7) && MemoryFrom(KEEP, a).Some?
    ensures (KnownPart(KnownMemory, MemoryFrom(KEEP, a + WriteForeign(u) + b))
             == KnownPart(KnownMemory, MemoryFrom(KEEP, a + b)))
  {
    hide MemoryFrom, KnownMemory, WriteForeign, Foreign;
    KeepingUnknownsIsInvisibleToMemory(a);
    InterleavedUnknownIsIgnoredByMemory(a, u, b);
    KeepingUnknownsIsInvisibleToMemory(a + WriteForeign(u) + b);
    KeepingUnknownsIsInvisibleToMemory(a + b);
  }

  /** A reader told to throw does so at the first unknown field, wherever it stands between readable bytes. */
  lemma ThrowingReaderRejectsUnknown(write: bool, a: bytes, u: UnknownField, b: bytes)
    requires Foreign(u, 3) && StatusFrom(Options(Throw, write), a).Some?
    ensures StatusFrom(Options(Throw, write), a + WriteForeign(u) + b) == None
  {
    hide ReadFields, ReadTag, WriteTag, ReadBytes, ReadNested, Skip;
    var opt := Options(Throw, write);
    var m := StatusFrom(opt, a).value;
    assert a + (WriteForeign(u) + b) == a + WriteForeign(u) + b;
    assert WriteForeign(u) + b == WriteTag(u.no, u.wire) + (u.data + b);
    StatusLocal(opt);
    ReadFieldsConcat(StatusField(opt), NO_STATUS, a, m, WriteForeign(u) + b, 0);
    ReadFails(StatusField(opt), m, u.no, u.wire, u.data + b);
  }
}
