/** The health messages as values, their wire form, and what reading does to a message already in hand.
    `ProcessInfo` is nested and repeated in `HealthUpdate`, which is nested and optional in `StatusResponse`. */
module HubMessages {
  import opened Prelude
  import opened Wire
  import opened FieldLoop
  import opened MessageFields

  // ---- ProcessInfo ----

  datatype ProcessInfo = ProcessInfo(name: bytes, pid: int32, memMb: bits64, cpuPercent: bits64, unknown: seq<UnknownField>)

  const NO_PROCESS := ProcessInfo([], 0, 0, 0, [])

  function ReadProcessInfoField(opt: Options, m: ProcessInfo, tag: Tag, b: bytes): (o: Option<(ProcessInfo, bytes)>)
    ensures o.Some? ==> |o.value.1| <= |b|
  {
    if tag.no == 1 then
      var (v, rest) :- ReadBytes(b);
      Some((m.(name := v), rest))
    else if tag.no == 2 then
      var (v, rest) :- ReadInt32(b);
      Some((m.(pid := v), rest))
    else if tag.no == 3 then
      var (v, rest) :- ReadDouble(b);
      Some((m.(memMb := v), rest))
    else if tag.no == 4 then
      var (v, rest) :- ReadDouble(b);
      Some((m.(cpuPercent := v), rest))
    else
      var (us, rest) :- ReadUnknown(opt, tag, b);
      Some((m.(unknown := m.unknown + us), rest))
  }

  ghost function ProcessInfoField(opt: Options): (f: FieldReader<ProcessInfo>)
    ensures Consumes(f)
  {
    (m, tag, b) => ReadProcessInfoField(opt, m, tag, b)
  }

  function WriteProcessInfo(opt: Options, p: ProcessInfo): bytes {
    WriteString(1, p.name) + WriteInt32(2, p.pid) + WriteDouble(3, p.memMb) + WriteDouble(4, p.cpuPercent)
    + Unknowns(opt, p.unknown)
  }

  /** "Last One Wins", field by field: a written field replaces the one in hand, an omitted default leaves it. */
  function MergeProcessInfo(opt: Options, m: ProcessInfo, p: ProcessInfo): ProcessInfo {
    ProcessInfo(
      if p.name == [] then m.name else p.name,
      if p.pid == 0 then m.pid else p.pid,
      if IsZero(p.memMb) then m.memMb else p.memMb,
      if IsZero(p.cpuPercent) then m.cpuPercent else p.cpuPercent,
      m.unknown + Surviving(opt, p.unknown))
  }

  /** The lengths the writer prefixes fit in a uint32. */
  predicate ProcessLengthsFit(p: ProcessInfo) {
    |p.name| < 0x1_0000_0000
  }

  /** They do, and the unknown fields fit the options. */
  ghost predicate FitProcessInfo(opt: Options, p: ProcessInfo) {
    ProcessLengthsFit(p) && UnknownsFit(opt, p.unknown, 4)
  }

  lemma ProcessInfoLocal(opt: Options)
    ensures Local(ProcessInfoField(opt))
  {
    forall m: ProcessInfo, tag: Tag, b: bytes, c: bytes | ReadProcessInfoField(opt, m, tag, b).Some?
      ensures ReadProcessInfoField(opt, m, tag, b + c)
           == Some((ReadProcessInfoField(opt, m, tag, b).value.0, ReadProcessInfoField(opt, m, tag, b).value.1 + c))
    {
      if tag.no == 1 {
        ReadBytesLocal(b, c);
      } else if tag.no == 2 {
        ReadVarintLocal(b, 10, c);
      } else if tag.no == 3 || tag.no == 4 {
        ReadFixedLocal(8, b, c);
      } else {
        ReadUnknownLocal(opt, tag, b, c);
      }
    }
  }

  function AddProcessInfoUnknown(m: ProcessInfo, us: seq<UnknownField>): ProcessInfo {
    m.(unknown := m.unknown + us)
  }

  lemma ProcessDefaultArm(opt: Options)
    ensures DefaultArm(opt, ProcessInfoField(opt), 4, AddProcessInfoUnknown)
  {
    forall m: ProcessInfo, us, vs
      ensures AddProcessInfoUnknown(AddProcessInfoUnknown(m, us), vs) == AddProcessInfoUnknown(m, us + vs)
    {
      assert m.unknown + us + vs == m.unknown + (us + vs);
    }
    forall m: ProcessInfo
      ensures AddProcessInfoUnknown(m, []) == m
    {
      assert m.unknown + [] == m.unknown;
    }
  }

  lemma ReadsProcessUnknowns(opt: Options, m: ProcessInfo, us: seq<UnknownField>)
    requires UnknownsFit(opt, us, 4)
    ensures Reads(ProcessInfoField(opt), m, Unknowns(opt, us), m.(unknown := m.unknown + Surviving(opt, us)))
  {
    ProcessInfoLocal(opt);
    ProcessDefaultArm(opt);
    ReadsUnknowns(opt, ProcessInfoField(opt), 4, AddProcessInfoUnknown, m, us);
  }

  lemma ReadsNameAndPid(opt: Options, m: ProcessInfo, name: bytes, pid: int32) returns (m1: ProcessInfo, m2: ProcessInfo)
    requires |name| < 0x1_0000_0000
    ensures Reads(ProcessInfoField(opt), m, WriteString(1, name), m1) && Reads(ProcessInfoField(opt), m1, WriteInt32(2, pid), m2)
    ensures m2 == m.(name := if name == [] then m.name else name, pid := if pid == 0 then m.pid else pid)
  {
    m1 := if name == [] then m else m.(name := name);
    m2 := if pid == 0 then m1 else m1.(pid := pid);
    ReadsString(ProcessInfoField(opt), m, 1, name, m1);
    ReadsInt32(ProcessInfoField(opt), m1, 2, pid, m2);
  }

  lemma ReadsMemoryAndCpu(opt: Options, m: ProcessInfo, mem: bits64, cpu: bits64) returns (m1: ProcessInfo, m2: ProcessInfo)
    ensures Reads(ProcessInfoField(opt), m, WriteDouble(3, mem), m1) && Reads(ProcessInfoField(opt), m1, WriteDouble(4, cpu), m2)
    ensures m2 == m.(memMb := if IsZero(mem) then m.memMb else mem, cpuPercent := if IsZero(cpu) then m.cpuPercent else cpu)
  {
    m1 := if IsZero(mem) then m else m.(memMb := mem);
    m2 := if IsZero(cpu) then m1 else m1.(cpuPercent := cpu);
    ReadsDouble(ProcessInfoField(opt), m, 3, mem, m1);
    ReadsDouble(ProcessInfoField(opt), m1, 4, cpu, m2);
  }

  /** Reading a written process into the one in hand merges the two. */
  lemma ReadsProcessInfo(opt: Options, m: ProcessInfo, p: ProcessInfo)
    requires FitProcessInfo(opt, p)
    ensures Reads(ProcessInfoField(opt), m, WriteProcessInfo(opt, p), MergeProcessInfo(opt, m, p))
  {
    ProcessInfoLocal(opt);
    var m1, m2 := ReadsNameAndPid(opt, m, p.name, p.pid);
    var m3, m4 := ReadsMemoryAndCpu(opt, m2, p.memMb, p.cpuPercent);
    ReadsProcessUnknowns(opt, m4, p.unknown);
    ReadsFive(ProcessInfoField(opt), m, WriteString(1, p.name), m1, WriteInt32(2, p.pid), m2, WriteDouble(3, p.memMb), m3,
              WriteDouble(4, p.cpuPercent), m4, Unknowns(opt, p.unknown), MergeProcessInfo(opt, m, p));
  }

  /** What the receiver holds: zeros lose their sign, and unknown fields survive when both sides keep them. */
  function ReceivedProcess(opt: Options, p: ProcessInfo): ProcessInfo {
    p.(memMb := PositiveZero(p.memMb), cpuPercent := PositiveZero(p.cpuPercent), unknown := Surviving(opt, p.unknown))
  }

  // ---- HealthUpdate ----

  datatype HealthUpdate = HealthUpdate(
    cpuUsage: bits64, memoryUsage: bits64, goroutines: int32, heavyProcesses: seq<ProcessInfo>, timestamp: bytes,
    unknown: seq<UnknownField>)

  const NO_HEALTH := HealthUpdate(0, 0, 0, [], [], [])

  ghost function ReadHealthField(opt: Options, m: HealthUpdate, tag: Tag, b: bytes): (o: Option<(HealthUpdate, bytes)>)
    ensures o.Some? ==> |o.value.1| <= |b|
  {
    if tag.no == 1 then
      var (v, rest) :- ReadDouble(b);
      Some((m.(cpuUsage := v), rest))
    else if tag.no == 2 then
      var (v, rest) :- ReadDouble(b);
      Some((m.(memoryUsage := v), rest))
    else if tag.no == 3 then
      var (v, rest) :- ReadInt32(b);
      Some((m.(goroutines := v), rest))
    else if tag.no == 4 then
      var (p, rest) :- ReadNested(ProcessInfoField(opt), NO_PROCESS, b);
      Some((m.(heavyProcesses := m.heavyProcesses + [p]), rest))
    else if tag.no == 5 then
      var (v, rest) :- ReadBytes(b);
      Some((m.(timestamp := v), rest))
    else
      var (us, rest) :- ReadUnknown(opt, tag, b);
      Some((m.(unknown := m.unknown + us), rest))
  }

  ghost function HealthField(opt: Options): (f: FieldReader<HealthUpdate>)
    ensures Consumes(f)
  {
    (m, tag, b) => ReadHealthField(opt, m, tag, b)
  }

  function WriteOneProcess(opt: Options, p: ProcessInfo): bytes {
    WriteTag(4, LENGTH_DELIMITED) + Delimited(WriteProcessInfo(opt, p))
  }

  function WriteProcesses(opt: Options, ps: seq<ProcessInfo>): bytes {
    if ps == [] then []
    else WriteOneProcess(opt, ps[0]) + WriteProcesses(opt, ps[1..])
  }

  function WriteHealth(opt: Options, h: HealthUpdate): bytes {
    WriteDouble(1, h.cpuUsage) + WriteDouble(2, h.memoryUsage) + WriteInt32(3, h.goroutines)
    + WriteProcesses(opt, h.heavyProcesses) + WriteString(5, h.timestamp) + Unknowns(opt, h.unknown)
  }

  function ReceivedProcesses(opt: Options, ps: seq<ProcessInfo>): (r: seq<ProcessInfo>)
    ensures |r| == |ps| && forall i | 0 <= i < |ps| :: r[i] == ReceivedProcess(opt, ps[i])
  {
    if ps == [] then [] else [ReceivedProcess(opt, ps[0])] + ReceivedProcesses(opt, ps[1..])
  }

  /** A written scalar replaces the one in hand; repeated fields concatenate. */
  function MergeHealth(opt: Options, m: HealthUpdate, h: HealthUpdate): HealthUpdate {
    HealthUpdate(
      if IsZero(h.cpuUsage) then m.cpuUsage else h.cpuUsage,
      if IsZero(h.memoryUsage) then m.memoryUsage else h.memoryUsage,
      if h.goroutines == 0 then m.goroutines else h.goroutines,
      m.heavyProcesses + ReceivedProcesses(opt, h.heavyProcesses),
      if h.timestamp == [] then m.timestamp else h.timestamp,
      m.unknown + Surviving(opt, h.unknown))
  }

  predicate HealthLengthsFit(opt: Options, h: HealthUpdate) {
    && |h.timestamp| < 0x1_0000_0000
    && (forall p <- h.heavyProcesses :: ProcessLengthsFit(p) && |WriteProcessInfo(opt, p)| < 0x1_0000_0000)
  }

  ghost predicate FitHealth(opt: Options, h: HealthUpdate) {
    HealthLengthsFit(opt, h) && (forall p <- h.heavyProcesses :: FitProcessInfo(opt, p)) && UnknownsFit(opt, h.unknown, 5)
  }

  lemma HealthLocal(opt: Options)
    ensures Local(HealthField(opt))
  {
    forall m: HealthUpdate, tag: Tag, b: bytes, c: bytes | ReadHealthField(opt, m, tag, b).Some?
      ensures ReadHealthField(opt, m, tag, b + c)
           == Some((ReadHealthField(opt, m, tag, b).value.0, ReadHealthField(opt, m, tag, b).value.1 + c))
    {
      HealthFieldLocal(opt, m, tag, b, c);
    }
  }

  lemma HealthFieldLocal(opt: Options, m: HealthUpdate, tag: Tag, b: bytes, c: bytes)
    requires ReadHealthField(opt, m, tag, b).Some?
    ensures ReadHealthField(opt, m, tag, b + c)
         == Some((ReadHealthField(opt, m, tag, b).value.0, ReadHealthField(opt, m, tag, b).value.1 + c))
  {
    if tag.no == 1 || tag.no == 2 {
      ReadFixedLocal(8, b, c);
    } else if tag.no == 3 {
      ReadVarintLocal(b, 10, c);
    } else if tag.no == 4 {
      ProcessInfoLocal(opt);
      ReadNestedLocal(ProcessInfoField(opt), NO_PROCESS, b, c);
    } else if tag.no == 5 {
      ReadBytesLocal(b, c);
    } else {
      ReadUnknownLocal(opt, tag, b, c);
    }
  }

  function AddHealthUnknown(m: HealthUpdate, us: seq<UnknownField>): HealthUpdate {
    m.(unknown := m.unknown + us)
  }

  lemma HealthDefaultArm(opt: Options)
    ensures DefaultArm(opt, HealthField(opt), 5, AddHealthUnknown)
  {
    forall m: HealthUpdate, us, vs
      ensures AddHealthUnknown(AddHealthUnknown(m, us), vs) == AddHealthUnknown(m, us + vs)
    {
      assert m.unknown + us + vs == m.unknown + (us + vs);
    }
    forall m: HealthUpdate
      ensures AddHealthUnknown(m, []) == m
    {
      assert m.unknown + [] == m.unknown;
    }
  }

  lemma ReadsHealthUnknowns(opt: Options, m: HealthUpdate, us: seq<UnknownField>)
    requires UnknownsFit(opt, us, 5)
    ensures Reads(HealthField(opt), m, Unknowns(opt, us), m.(unknown := m.unknown + Surviving(opt, us)))
  {
    HealthLocal(opt);
    HealthDefaultArm(opt);
    ReadsUnknowns(opt, HealthField(opt), 5, AddHealthUnknown, m, us);
  }

  function AddProcesses(m: HealthUpdate, ps: seq<ProcessInfo>): HealthUpdate {
    m.(heavyProcesses := m.heavyProcesses + ps)
  }

  lemma ReadsOneProcess(opt: Options, m: HealthUpdate, p: ProcessInfo)
    requires FitProcessInfo(opt, p) && |WriteProcessInfo(opt, p)| < 0x1_0000_0000
    ensures Reads(HealthField(opt), m, WriteOneProcess(opt, p),
                  AddProcesses(m, [ReceivedProcess(opt, p)]))
  {
    hide WriteProcessInfo, ReadFields, ReadTag, ReadBytes, ReadInt32, ReadDouble, ReadUnknown;
    ReadsProcessInfo(opt, NO_PROCESS, p);
    assert MergeProcessInfo(opt, NO_PROCESS, p) == ReceivedProcess(opt, p);
    ReadsNested(HealthField(opt), m, 4, ProcessInfoField(opt), NO_PROCESS, WriteProcessInfo(opt, p), ReceivedProcess(opt, p),
                AddProcesses(m, [ReceivedProcess(opt, p)]));
  }

  lemma OneThenTheRest(opt: Options, m: HealthUpdate, ps: seq<ProcessInfo>)
    requires ps != []
    ensures (AddProcesses(AddProcesses(m, [ReceivedProcess(opt, ps[0])]), ReceivedProcesses(opt, ps[1..]))
             == AddProcesses(m, ReceivedProcesses(opt, ps)))
  {
    assert m.heavyProcesses + [ReceivedProcess(opt, ps[0])] + ReceivedProcesses(opt, ps[1..])
        == m.heavyProcesses + ReceivedProcesses(opt, ps);
  }

  lemma NoneToRead(opt: Options, m: HealthUpdate)
    ensures Reads(HealthField(opt), m, WriteProcesses(opt, []), AddProcesses(m, ReceivedProcesses(opt, [])))
  {
    hide ReadTag, ReadHealthField;
    assert m.heavyProcesses + [] == m.heavyProcesses;
  }

  lemma {:induction false} ReadsProcesses(opt: Options, m: HealthUpdate, ps: seq<ProcessInfo>)
    requires forall p <- ps :: FitProcessInfo(opt, p) && |WriteProcessInfo(opt, p)| < 0x1_0000_0000
    ensures Reads(HealthField(opt), m, WriteProcesses(opt, ps), AddProcesses(m, ReceivedProcesses(opt, ps)))
    decreases |ps|
  {
    hide Reads, WriteOneProcess, FitProcessInfo, WriteProcessInfo, AddProcesses, ReceivedProcesses, ReceivedProcess, HealthField;
    if ps == [] {
      NoneToRead(opt, m);
    } else {
      var m' := AddProcesses(m, [ReceivedProcess(opt, ps[0])]);
      OneThenTheRest(opt, m, ps);
      HealthLocal(opt);
      ReadsOneProcess(opt, m, ps[0]);
      ReadsProcesses(opt, m', ps[1..]);
      ReadsThen(HealthField(opt), m, WriteOneProcess(opt, ps[0]), m',
                WriteProcesses(opt, ps[1..]), AddProcesses(m, ReceivedProcesses(opt, ps)));
    }
  }

  lemma ReadsUsage(opt: Options, m: HealthUpdate, cpu: bits64, mem: bits64) returns (m1: HealthUpdate, m2: HealthUpdate)
    ensures Reads(HealthField(opt), m, WriteDouble(1, cpu), m1) && Reads(HealthField(opt), m1, WriteDouble(2, mem), m2)
    ensures m2 == m.(cpuUsage := if IsZero(cpu) then m.cpuUsage else cpu, memoryUsage := if IsZero(mem) then m.memoryUsage else mem)
  {
    m1 := if IsZero(cpu) then m else m.(cpuUsage := cpu);
    m2 := if IsZero(mem) then m1 else m1.(memoryUsage := mem);
    ReadsDouble(HealthField(opt), m, 1, cpu, m1);
    ReadsDouble(HealthField(opt), m1, 2, mem, m2);
  }

  lemma ReadsGoroutines(opt: Options, m: HealthUpdate, v: int32)
    ensures Reads(HealthField(opt), m, WriteInt32(3, v), m.(goroutines := if v == 0 then m.goroutines else v))
  {
    ReadsInt32(HealthField(opt), m, 3, v, m.(goroutines := if v == 0 then m.goroutines else v));
  }

  lemma ReadsTimestamp(opt: Options, m: HealthUpdate, s: bytes)
    requires |s| < 0x1_0000_0000
    ensures Reads(HealthField(opt), m, WriteString(5, s), m.(timestamp := if s == [] then m.timestamp else s))
  {
    ReadsString(HealthField(opt), m, 5, s, m.(timestamp := if s == [] then m.timestamp else s));
  }

  lemma ReadsHealth(opt: Options, m: HealthUpdate, h: HealthUpdate)
    requires FitHealth(opt, h)
    ensures Reads(HealthField(opt), m, WriteHealth(opt, h), MergeHealth(opt, m, h))
  {
    HealthLocal(opt);
    var f := HealthField(opt);
    var m1, m2 := ReadsUsage(opt, m, h.cpuUsage, h.memoryUsage);
    var m3 := m2.(goroutines := if h.goroutines == 0 then m2.goroutines else h.goroutines);
    var m4 := m3.(heavyProcesses := m3.heavyProcesses + ReceivedProcesses(opt, h.heavyProcesses));
    var m5 := m4.(timestamp := if h.timestamp == [] then m4.timestamp else h.timestamp);
    ReadsGoroutines(opt, m2, h.goroutines);
    ReadsProcesses(opt, m3, h.heavyProcesses);
    ReadsTimestamp(opt, m4, h.timestamp);
    ReadsHealthUnknowns(opt, m5, h.unknown);
    var b1, b2, b3, b4, b5 := WriteDouble(1, h.cpuUsage), WriteDouble(2, h.memoryUsage), WriteInt32(3, h.goroutines),
                              WriteProcesses(opt, h.heavyProcesses), WriteString(5, h.timestamp);
    ReadsFive(f, m, b1, m1, b2, m2, b3, m3, b4, m4, b5, m5);
    ReadsThen(f, m, b1 + b2 + b3 + b4 + b5, m5, Unknowns(opt, h.unknown), MergeHealth(opt, m, h));
  }

  function ReceivedHealth(opt: Options, h: HealthUpdate): HealthUpdate {
    h.(cpuUsage := PositiveZero(h.cpuUsage), memoryUsage := PositiveZero(h.memoryUsage),
       heavyProcesses := ReceivedProcesses(opt, h.heavyProcesses), unknown := Surviving(opt, h.unknown))
  }

  // ---- StatusResponse ----

  datatype StatusResponse = StatusResponse(status: bytes, version: bytes, health: Option<HealthUpdate>, unknown: seq<UnknownField>)

  const NO_STATUS := StatusResponse([], [], None, [])

  /** A second `health` field is read into the health already in hand (`target`), not into a fresh one. */
  ghost function ReadStatusField(opt: Options, m: StatusResponse, tag: Tag, b: bytes): (o: Option<(StatusResponse, bytes)>)
    ensures o.Some? ==> |o.value.1| <= |b|
  {
    if tag.no == 1 then
      var (v, rest) :- ReadBytes(b);
      Some((m.(status := v), rest))
    else if tag.no == 2 then
      var (v, rest) :- ReadBytes(b);
      Some((m.(version := v), rest))
    else if tag.no == 3 then
      var (h, rest) :- ReadNested(HealthField(opt), m.health.GetOr(NO_HEALTH), b);
      Some((m.(health := Some(h)), rest))
    else
      var (us, rest) :- ReadUnknown(opt, tag, b);
      Some((m.(unknown := m.unknown + us), rest))
  }

  ghost function StatusField(opt: Options): (f: FieldReader<StatusResponse>)
    ensures Consumes(f)
  {
    (m, tag, b) => ReadStatusField(opt, m, tag, b)
  }

  function WriteOptionalHealth(opt: Options, h: Option<HealthUpdate>): bytes {
    if h.None? then [] else WriteTag(3, LENGTH_DELIMITED) + Delimited(WriteHealth(opt, h.value))
  }

  function WriteStatus(opt: Options, s: StatusResponse): bytes {
    WriteString(1, s.status) + WriteString(2, s.version) + WriteOptionalHealth(opt, s.health) + Unknowns(opt, s.unknown)
  }

  /** Presence of `health` is kept, and two healths merge recursively. */
  function MergeOptionalHealth(opt: Options, m: Option<HealthUpdate>, h: Option<HealthUpdate>): Option<HealthUpdate> {
    if h.None? then m
    else if m.None? then Some(ReceivedHealth(opt, h.value))
    else Some(MergeHealth(opt, m.value, h.value))
  }

  function MergeStatus(opt: Options, m: StatusResponse, s: StatusResponse): StatusResponse {
    StatusResponse(
      if s.status == [] then m.status else s.status,
      if s.version == [] then m.version else s.version,
      MergeOptionalHealth(opt, m.health, s.health),
      m.unknown + Surviving(opt, s.unknown))
  }

  predicate StatusLengthsFit(opt: Options, s: StatusResponse) {
    && |s.status| < 0x1_0000_0000 && |s.version| < 0x1_0000_0000
    && (s.health.Some? ==> HealthLengthsFit(opt, s.health.value) && |WriteHealth(opt, s.health.value)| < 0x1_0000_0000)
  }

  ghost predicate FitStatus(opt: Options, s: StatusResponse) {
    StatusLengthsFit(opt, s) && (s.health.Some? ==> FitHealth(opt, s.health.value)) && UnknownsFit(opt, s.unknown, 3)
  }

  lemma StatusFieldLocal(opt: Options, m: StatusResponse, tag: Tag, b: bytes, c: bytes)
    requires ReadStatusField(opt, m, tag, b).Some?
    ensures ReadStatusField(opt, m, tag, b + c)
         == Some((ReadStatusField(opt, m, tag, b).value.0, ReadStatusField(opt, m, tag, b).value.1 + c))
  {
    if tag.no == 1 || tag.no == 2 {
      ReadBytesLocal(b, c);
    } else if tag.no == 3 {
      HealthLocal(opt);
      ReadNestedLocal(HealthField(opt), m.health.GetOr(NO_HEALTH), b, c);
    } else {
      ReadUnknownLocal(opt, tag, b, c);
    }
  }

  lemma StatusLocal(opt: Options)
    ensures Local(StatusField(opt))
  {
    forall m: StatusResponse, tag: Tag, b: bytes, c: bytes | ReadStatusField(opt, m, tag, b).Some?
      ensures ReadStatusField(opt, m, tag, b + c)
           == Some((ReadStatusField(opt, m, tag, b).value.0, ReadStatusField(opt, m, tag, b).value.1 + c))
    {
      StatusFieldLocal(opt, m, tag, b, c);
    }
  }

  function AddStatusUnknown(m: StatusResponse, us: seq<UnknownField>): StatusResponse {
    m.(unknown := m.unknown + us)
  }

  lemma StatusDefaultArm(opt: Options)
    ensures DefaultArm(opt, StatusField(opt), 3, AddStatusUnknown)
  {
    forall m: StatusResponse, us, vs
      ensures AddStatusUnknown(AddStatusUnknown(m, us), vs) == AddStatusUnknown(m, us + vs)
    {
      assert m.unknown + us + vs == m.unknown + (us + vs);
    }
    forall m: StatusResponse
      ensures AddStatusUnknown(m, []) == m
    {
      assert m.unknown + [] == m.unknown;
    }
  }

  lemma ReadsStatusUnknowns(opt: Options, m: StatusResponse, us: seq<UnknownField>)
    requires UnknownsFit(opt, us, 3)
    ensures Reads(StatusField(opt), m, Unknowns(opt, us), m.(unknown := m.unknown + Surviving(opt, us)))
  {
    StatusLocal(opt);
    StatusDefaultArm(opt);
    ReadsUnknowns(opt, StatusField(opt), 3, AddStatusUnknown, m, us);
  }

  lemma ReadsStatusAndVersion(opt: Options, m: StatusResponse, s: bytes, v: bytes) returns (m1: StatusResponse, m2: StatusResponse)
    requires |s| < 0x1_0000_0000 && |v| < 0x1_0000_0000
    ensures Reads(StatusField(opt), m, WriteString(1, s), m1) && Reads(StatusField(opt), m1, WriteString(2, v), m2)
    ensures m2 == m.(status := if s == [] then m.status else s, version := if v == [] then m.version else v)
  {
    m1 := if s == [] then m else m.(status := s);
    m2 := if v == [] then m1 else m1.(version := v);
    ReadsString(StatusField(opt), m, 1, s, m1);
    ReadsString(StatusField(opt), m1, 2, v, m2);
  }

  lemma MergeIntoNoHealth(opt: Options, h: HealthUpdate)
    ensures MergeHealth(opt, NO_HEALTH, h) == ReceivedHealth(opt, h)
  {
    hide ReceivedProcesses;
    assert [] + ReceivedProcesses(opt, h.heavyProcesses) == ReceivedProcesses(opt, h.heavyProcesses);
  }

  lemma ReadsPresentHealth(opt: Options, m: StatusResponse, h: HealthUpdate)
    requires FitHealth(opt, h) && |WriteHealth(opt, h)| < 0x1_0000_0000
    ensures Reads(StatusField(opt), m, WriteTag(3, LENGTH_DELIMITED) + Delimited(WriteHealth(opt, h)),
                  m.(health := Some(MergeHealth(opt, m.health.GetOr(NO_HEALTH), h))))
  {
    hide WriteHealth, ReadFields, ReadTag, ReadBytes, ReadUnknown;
    var target := m.health.GetOr(NO_HEALTH);
    var merged := MergeHealth(opt, target, h);
    ReadsHealth(opt, target, h);
    ReadsNested(StatusField(opt), m, 3, HealthField(opt), target, WriteHealth(opt, h), merged, m.(health := Some(merged)));
  }

  lemma ReadsOptionalHealth(opt: Options, m: StatusResponse, h: Option<HealthUpdate>)
    requires h.Some? ==> FitHealth(opt, h.value) && |WriteHealth(opt, h.value)| < 0x1_0000_0000
    ensures Reads(StatusField(opt), m, WriteOptionalHealth(opt, h), m.(health := MergeOptionalHealth(opt, m.health, h)))
  {
    if h.Some? {
      MergeIntoNoHealth(opt, h.value);
      ReadsPresentHealth(opt, m, h.value);
    }
  }

  lemma ReadsStatus(opt: Options, m: StatusResponse, s: StatusResponse)
    requires FitStatus(opt, s)
    ensures Reads(StatusField(opt), m, WriteStatus(opt, s), MergeStatus(opt, m, s))
  {
    StatusLocal(opt);
    var f := StatusField(opt);
    var m1, m2 := ReadsStatusAndVersion(opt, m, s.status, s.version);
    var m3 := m2.(health := MergeOptionalHealth(opt, m2.health, s.health));
    ReadsOptionalHealth(opt, m2, s.health);
    ReadsStatusUnknowns(opt, m3, s.unknown);
    var b1, b2, b3 := WriteString(1, s.status), WriteString(2, s.version), WriteOptionalHealth(opt, s.health);
    ReadsThen(f, m, b1, m1, b2, m2);
    ReadsThen(f, m, b1 + b2, m2, b3, m3);
    ReadsThen(f, m, b1 + b2 + b3, m3, Unknowns(opt, s.unknown), MergeStatus(opt, m, s));
  }
}
