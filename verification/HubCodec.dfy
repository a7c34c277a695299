/** The generated readers and writers as they run: a reader whose position advances, a writer whose buffer
    grows, and one loop per message. Each is tied to the functions the laws are about. A thrown error is `None`
    (or `ok == false`), and then the state is unspecified. */
module HubCodec {
  import opened Prelude
  import opened Wire
  import opened FieldLoop
  import opened MessageFields
  import opened HubMessages
  import opened MemoryMessages

  class BinaryReader {
    const buf: bytes
    var pos: nat

    ghost predicate Valid()
      reads this
    {
      pos <= |buf|
    }

    ghost function Rest(): (b: bytes)
      requires Valid()
      reads this
      ensures |b| == |buf| - pos
    {
      buf[pos..]
    }

    /** The reader did what the function says: it failed, or it holds the value and the bytes after it are left. */
    ghost predicate Took<T(!new)>(spec: Option<(T, bytes)>, o: Option<T>)
      requires Valid()
      reads this
    {
      if spec.None? then o.None? else o == Some(spec.value.0) && Rest() == spec.value.1
    }

    constructor (buf: bytes)
      ensures Valid() && this.buf == buf && Rest() == buf
    {
      this.buf := buf;
      pos := 0;
    }

    method TagOf() returns (o: Option<Tag>)
      requires Valid()
      modifies this
      ensures Valid() && Took(ReadTag(old(Rest())), o)
      ensures o.Some? ==> pos > old(pos)
    {
      var t :- ReadTag(buf[pos..]);
      pos := |buf| - |t.1|;
      o := Some(t.0);
    }

    method Uint32() returns (o: Option<uint32>)
      requires Valid()
      modifies this
      ensures Valid() && Took(ReadUint32(old(Rest())), o)
      ensures o.Some? ==> pos > old(pos)
    {
      hide ReadVarint;
      var t :- ReadUint32(buf[pos..]);
      pos := |buf| - |t.1|;
      o := Some(t.0);
    }

    method Int32() returns (o: Option<int32>)
      requires Valid()
      modifies this
      ensures Valid() && Took(ReadInt32(old(Rest())), o)
      ensures o.Some? ==> pos > old(pos)
    {
      var u :- Uint32();
      o := Some(ToInt32(u));
    }

    method Double() returns (o: Option<bits64>)
      requires Valid()
      modifies this
      ensures Valid() && Took(ReadDouble(old(Rest())), o)
      ensures o.Some? ==> pos > old(pos)
    {
      var t :- ReadDouble(buf[pos..]);
      pos := pos + 8;
      o := Some(t.0);
    }

    method Float() returns (o: Option<bits32>)
      requires Valid()
      modifies this
      ensures Valid() && Took(ReadFloat(old(Rest())), o)
      ensures o.Some? ==> pos > old(pos)
    {
      var t :- ReadFloat(buf[pos..]);
      pos := pos + 4;
      o := Some(t.0);
    }

    method Bytes() returns (o: Option<bytes>)
      requires Valid()
      modifies this
      ensures Valid() && Took(ReadBytes(old(Rest())), o)
      ensures o.Some? ==> pos > old(pos)
    {
      var len :- Uint32();
      if pos + len > |buf| {
        return None;
      }
      assert buf[pos..][..len] == buf[pos..pos + len];
      o := Some(buf[pos..pos + len]);
      pos := pos + len;
    }

    /** The `default` arm: throw, or skip the value and perhaps remember it. */
    method Unknown(opt: Options, tag: Tag) returns (o: Option<seq<UnknownField>>)
      requires Valid()
      modifies this
      ensures Valid() && Took(ReadUnknown(opt, tag, old(Rest())), o)
      ensures o.Some? ==> pos >= old(pos)
    {
      var t :- ReadUnknown(opt, tag, buf[pos..]);
      pos := |buf| - |t.1|;
      o := Some(t.0);
    }
  }

  method ReadProcessInfoCase(r: BinaryReader, opt: Options, m: ProcessInfo, tag: Tag) returns (o: Option<ProcessInfo>)
    requires r.Valid()
    modifies r
    ensures r.Valid() && r.Took(ReadProcessInfoField(opt, m, tag, old(r.Rest())), o)
    ensures o.Some? ==> r.pos >= old(r.pos)
  {
    hide ReadBytes, ReadInt32, ReadDouble, ReadUnknown;
    if tag.no == 1 {
      var v :- r.Bytes();
      o := Some(m.(name := v));
    } else if tag.no == 2 {
      var v :- r.Int32();
      o := Some(m.(pid := v));
    } else if tag.no == 3 {
      var v :- r.Double();
      o := Some(m.(memMb := v));
    } else if tag.no == 4 {
      var v :- r.Double();
      o := Some(m.(cpuPercent := v));
    } else {
      var us :- r.Unknown(opt, tag);
      o := Some(m.(unknown := m.unknown + us));
    }
  }

  method ReadProcessInfo(r: BinaryReader, length: uint32, opt: Options, target: ProcessInfo) returns (o: Option<ProcessInfo>)
    requires r.Valid()
    modifies r
    ensures r.Valid()
    ensures r.Took(ReadFields(ProcessInfoField(opt), target, old(r.Rest()), |old(r.Rest())| - length), o)
    ensures o.Some? ==> r.pos >= old(r.pos)
  {
    hide ReadTag, ReadProcessInfoField;
    var message, end := target, r.pos + length;
    ghost var f, stop := ProcessInfoField(opt), |r.Rest()| - length;
    while r.pos < end
      invariant r.Valid() && r.pos >= old(r.pos)
      invariant ReadFields(f, target, old(r.Rest()), stop) == ReadFields(f, message, r.Rest(), stop)
      decreases |r.buf| - r.pos
    {
      var tag :- r.TagOf();
      message :- ReadProcessInfoCase(r, opt, message, tag);
    }
    o := Some(message);
  }

  method ReadHealthUpdateCase(r: BinaryReader, opt: Options, m: HealthUpdate, tag: Tag) returns (o: Option<HealthUpdate>)
    requires r.Valid()
    modifies r
    ensures r.Valid() && r.Took(ReadHealthField(opt, m, tag, old(r.Rest())), o)
    ensures o.Some? ==> r.pos >= old(r.pos)
  {
    hide ReadBytes, ReadInt32, ReadUint32, ReadDouble, ReadUnknown, ReadFields;
    if tag.no == 1 {
      var v :- r.Double();
      o := Some(m.(cpuUsage := v));
    } else if tag.no == 2 {
      var v :- r.Double();
      o := Some(m.(memoryUsage := v));
    } else if tag.no == 3 {
      var v :- r.Int32();
      o := Some(m.(goroutines := v));
    } else if tag.no == 4 {
      var n :- r.Uint32();
      var p :- ReadProcessInfo(r, n, opt, NO_PROCESS);
      o := Some(m.(heavyProcesses := m.heavyProcesses + [p]));
    } else if tag.no == 5 {
      var v :- r.Bytes();
      o := Some(m.(timestamp := v));
    } else {
      var us :- r.Unknown(opt, tag);
      o := Some(m.(unknown := m.unknown + us));
    }
  }

  method ReadHealthUpdate(r: BinaryReader, length: uint32, opt: Options, target: HealthUpdate) returns (o: Option<HealthUpdate>)
    requires r.Valid()
    modifies r
    ensures r.Valid()
    ensures r.Took(ReadFields(HealthField(opt), target, old(r.Rest()), |old(r.Rest())| - length), o)
    ensures o.Some? ==> r.pos >= old(r.pos)
  {
    hide ReadTag, ReadHealthField;
    var message, end := target, r.pos + length;
    ghost var f, stop := HealthField(opt), |r.Rest()| - length;
    while r.pos < end
      invariant r.Valid() && r.pos >= old(r.pos)
      invariant ReadFields(f, target, old(r.Rest()), stop) == ReadFields(f, message, r.Rest(), stop)
      decreases |r.buf| - r.pos
    {
      var tag :- r.TagOf();
      message :- ReadHealthUpdateCase(r, opt, message, tag);
    }
    o := Some(message);
  }

  method ReadStatusResponseCase(r: BinaryReader, opt: Options, m: StatusResponse, tag: Tag) returns (o: Option<StatusResponse>)
    requires r.Valid()
    modifies r
    ensures r.Valid() && r.Took(ReadStatusField(opt, m, tag, old(r.Rest())), o)
    ensures o.Some? ==> r.pos >= old(r.pos)
  {
    hide ReadBytes, ReadUint32, ReadUnknown, ReadFields;
    if tag.no == 1 {
      var v :- r.Bytes();
      o := Some(m.(status := v));
    } else if tag.no == 2 {
      var v :- r.Bytes();
      o := Some(m.(version := v));
    } else if tag.no == 3 {
      var n :- r.Uint32();
      var h :- ReadHealthUpdate(r, n, opt, m.health.GetOr(NO_HEALTH));
      o := Some(m.(health := Some(h)));
    } else {
      var us :- r.Unknown(opt, tag);
      o := Some(m.(unknown := m.unknown + us));
    }
  }

  method ReadStatusResponse(r: BinaryReader, length: uint32, opt: Options, target: StatusResponse) returns (o: Option<StatusResponse>)
    requires r.Valid()
    modifies r
    ensures r.Valid()
    ensures r.Took(ReadFields(StatusField(opt), target, old(r.Rest()), |old(r.Rest())| - length), o)
    ensures o.Some? ==> r.pos >= old(r.pos)
  {
    hide ReadTag, ReadStatusField;
    var message, end := target, r.pos + length;
    ghost var f, stop := StatusField(opt), |r.Rest()| - length;
    while r.pos < end
      invariant r.Valid() && r.pos >= old(r.pos)
      invariant ReadFields(f, target, old(r.Rest()), stop) == ReadFields(f, message, r.Rest(), stop)
      decreases |r.buf| - r.pos
    {
      var tag :- r.TagOf();
      message :- ReadStatusResponseCase(r, opt, message, tag);
    }
    o := Some(message);
  }

  /** `reader.int32() + reader.pos` bounds the float loop, so a length of 2^31 or more ends it at once. */
  method ReadEmbedding(r: BinaryReader, wire: nat, acc: seq<bits32>) returns (o: Option<seq<bits32>>)
    requires r.Valid()
    modifies r
    ensures r.Valid() && r.Took(ReadEmbeddingField(acc, wire, old(r.Rest())), o)
    ensures o.Some? ==> r.pos >= old(r.pos)
  {
    if wire == LENGTH_DELIMITED {
      var n :- r.Int32();
      var embedding, e := acc, n + r.pos;
      ghost var rest, stop := r.Rest(), |r.Rest()| - n;
      while r.pos < e
        invariant r.Valid() && r.pos >= old(r.pos)
        invariant ReadPacked(acc, rest, stop) == ReadPacked(embedding, r.Rest(), stop)
        decreases |r.buf| - r.pos
      {
        var v :- r.Float();
        embedding := embedding + [v];
      }
      o := Some(embedding);
    } else {
      var v :- r.Float();
      o := Some(acc + [v]);
    }
  }

  method ReadMemoryEntryCase(r: BinaryReader, opt: Options, m: MemoryEntry, tag: Tag) returns (o: Option<MemoryEntry>)
    requires r.Valid()
    modifies r
    ensures r.Valid() && r.Took(ReadMemoryField(opt, m, tag, old(r.Rest())), o)
    ensures o.Some? ==> r.pos >= old(r.pos)
  {
    hide ReadBytes, ReadEmbeddingField, ReadUnknown;
    if 1 <= tag.no <= 6 {
      var v :- r.Bytes();
      o := Some(WithString(m, tag.no, v));
    } else if tag.no == 7 {
      var fs :- ReadEmbedding(r, tag.wire, m.embedding);
      o := Some(m.(embedding := fs));
    } else {
      var us :- r.Unknown(opt, tag);
      o := Some(m.(unknown := m.unknown + us));
    }
  }

  method ReadMemoryEntry(r: BinaryReader, length: uint32, opt: Options, target: MemoryEntry) returns (o: Option<MemoryEntry>)
    requires r.Valid()
    modifies r
    ensures r.Valid()
    ensures r.Took(ReadFields(MemoryField(opt), target, old(r.Rest()), |old(r.Rest())| - length), o)
  {
    hide ReadTag, ReadMemoryField;
    var message, end := target, r.pos + length;
    ghost var f, stop := MemoryField(opt), |r.Rest()| - length;
    while r.pos < end
      invariant r.Valid()
      invariant ReadFields(f, target, old(r.Rest()), stop) == ReadFields(f, message, r.Rest(), stop)
      decreases |r.buf| - r.pos
    {
      var tag :- r.TagOf();
      message :- ReadMemoryEntryCase(r, opt, message, tag);
    }
    o := Some(message);
  }

  class BinaryWriter {
    var out: bytes
    var forks: seq<bytes>

    constructor ()
      ensures out == [] && forks == []
    {
      out := [];
      forks := [];
    }

    method Raw(b: bytes)
      modifies this
      ensures out == old(out) + b && forks == old(forks)
    {
      out := out + b;
    }

    /** Starts a chunk of its own; `Join` ends it. */
    method Fork()
      modifies this
      ensures out == [] && forks == old(forks) + [old(out)]
    {
      forks := forks + [out];
      out := [];
    }

    /** Prefixes the chunk with its length; the length must be a uint32. */
    method Join() returns (ok: bool)
      requires forks != []
      modifies this
      ensures ok <==> |old(out)| < 0x1_0000_0000
      ensures ok ==> out == old(forks)[|old(forks)| - 1] + Delimited(old(out)) && forks == old(forks)[..|old(forks)| - 1]
    {
      var chunk := out;
      out := forks[|forks| - 1];
      forks := forks[..|forks| - 1];
      ok := |chunk| < 0x1_0000_0000;
      if ok {
        out := out + Delimited(chunk);
      }
    }

    method String(no: nat, s: bytes) returns (ok: bool)
      modifies this
      ensures ok <==> |s| < 0x1_0000_0000
      ensures ok ==> out == old(out) + WriteString(no, s) && forks == old(forks)
    {
      ok := |s| < 0x1_0000_0000;
      if ok && s != [] {
        out := out + (WriteTag(no, LENGTH_DELIMITED) + Delimited(s));
      }
    }

    method Double(no: nat, d: bits64)
      modifies this
      ensures out == old(out) + WriteDouble(no, d) && forks == old(forks)
    {
      if !IsZero(d) {
        out := out + (WriteTag(no, BIT64) + Fixed(8, d));
      }
    }

    method Int32(no: nat, v: int32)
      modifies this
      ensures out == old(out) + WriteInt32(no, v) && forks == old(forks)
    {
      if v != 0 {
        out := out + (WriteTag(no, VARINT) + Int32Varint(v));
      }
    }

    method Unknown(opt: Options, us: seq<UnknownField>)
      modifies this
      ensures out == old(out) + Unknowns(opt, us) && forks == old(forks)
    {
      if opt.write {
        var i := 0;
        while i < |us|
          invariant 0 <= i <= |us| && forks == old(forks)
          invariant out + WriteUnknown(us[i..]) == old(out) + WriteUnknown(us)
        {
          assert us[i..][1..] == us[i + 1..];
          out := out + (WriteTag(us[i].no, us[i].wire) + us[i].data);
          i := i + 1;
        }
      }
    }
  }

  method WriteProcess(w: BinaryWriter, opt: Options, m: ProcessInfo) returns (ok: bool)
    modifies w
    ensures ok <==> ProcessLengthsFit(m)
    ensures ok ==> w.out == old(w.out) + WriteProcessInfo(opt, m) && w.forks == old(w.forks)
  {
    hide WriteString, WriteInt32, WriteDouble, Unknowns;
    ok := w.String(1, m.name);
    if !ok {
      return;
    }
    w.Int32(2, m.pid);
    w.Double(3, m.memMb);
    w.Double(4, m.cpuPercent);
    w.Unknown(opt, m.unknown);
  }

  method WriteProcessList(w: BinaryWriter, opt: Options, ps: seq<ProcessInfo>) returns (ok: bool)
    modifies w
    ensures ok <==> forall p <- ps :: ProcessLengthsFit(p) && |WriteProcessInfo(opt, p)| < 0x1_0000_0000
    ensures ok ==> w.out == old(w.out) + WriteProcesses(opt, ps) && w.forks == old(w.forks)
  {
    hide WriteProcessInfo, WriteTag, ProcessLengthsFit, Delimited;
    var i := 0;
    while i < |ps|
      invariant 0 <= i <= |ps| && w.forks == old(w.forks)
      invariant forall k | 0 <= k < i :: ProcessLengthsFit(ps[k]) && |WriteProcessInfo(opt, ps[k])| < 0x1_0000_0000
      invariant w.out + WriteProcesses(opt, ps[i..]) == old(w.out) + WriteProcesses(opt, ps)
    {
      assert ps[i..][1..] == ps[i + 1..] && ps[i] in ps;
      ghost var before := w.out;
      w.Raw(WriteTag(4, LENGTH_DELIMITED));
      w.Fork();
      ok := WriteProcess(w, opt, ps[i]);
      if !ok {
        return;
      }
      ok := w.Join();
      if !ok {
        return;
      }
      assert [] + WriteProcessInfo(opt, ps[i]) == WriteProcessInfo(opt, ps[i]);
      assert w.out == before + WriteOneProcess(opt, ps[i]);
      i := i + 1;
    }
    ok := true;
  }

  method WriteHealthUpdate(w: BinaryWriter, opt: Options, m: HealthUpdate) returns (ok: bool)
    modifies w
    ensures ok <==> HealthLengthsFit(opt, m)
    ensures ok ==> w.out == old(w.out) + WriteHealth(opt, m) && w.forks == old(w.forks)
  {
    hide WriteString, WriteInt32, WriteDouble, Unknowns, WriteProcesses;
    w.Double(1, m.cpuUsage);
    w.Double(2, m.memoryUsage);
    w.Int32(3, m.goroutines);
    ok := WriteProcessList(w, opt, m.heavyProcesses);
    if !ok {
      return;
    }
    ok := w.String(5, m.timestamp);
    if !ok {
      return;
    }
    w.Unknown(opt, m.unknown);
  }

  method WriteStatusResponse(w: BinaryWriter, opt: Options, m: StatusResponse) returns (ok: bool)
    modifies w
    ensures ok <==> StatusLengthsFit(opt, m)
    ensures ok ==> w.out == old(w.out) + WriteStatus(opt, m) && w.forks == old(w.forks)
  {
    hide WriteString, WriteHealth, Unknowns, WriteTag;
    ok := w.String(1, m.status);
    if !ok {
      return;
    }
    ok := w.String(2, m.version);
    if !ok {
      return;
    }
    if m.health.Some? {
      w.Raw(WriteTag(3, LENGTH_DELIMITED));
      w.Fork();
      ok := WriteHealthUpdate(w, opt, m.health.value);
      if !ok {
        return;
      }
      ok := w.Join();
      if !ok {
        return;
      }
    }
    w.Unknown(opt, m.unknown);
  }

  method WritePacked(w: BinaryWriter, fs: seq<bits32>)
    modifies w
    ensures w.out == old(w.out) + WriteFloats(fs) && w.forks == old(w.forks)
  {
    hide Fixed;
    var i := 0;
    while i < |fs|
      invariant 0 <= i <= |fs| && w.forks == old(w.forks)
      invariant w.out + WriteFloats(fs[i..]) == old(w.out) + WriteFloats(fs)
    {
      assert fs[i..][1..] == fs[i + 1..];
      w.Raw(Fixed(4, fs[i]));
      i := i + 1;
    }
  }

  method WriteMemoryEntry(w: BinaryWriter, opt: Options, m: MemoryEntry) returns (ok: bool)
    modifies w
    ensures ok <==> MemoryLengthsFit(m)
    ensures ok ==> w.out == old(w.out) + WriteMemory(opt, m) && w.forks == old(w.forks)
  {
    hide WriteStrings, Unknowns, WriteTag, WriteFloats, Delimited;
    ok := WriteEntryStrings(w, m);
    if !ok {
      return;
    }
    if m.embedding != [] {
      w.Raw(WriteTag(7, LENGTH_DELIMITED));
      w.Fork();
      WritePacked(w, m.embedding);
      assert [] + WriteFloats(m.embedding) == WriteFloats(m.embedding);
      ok := w.Join();
      if !ok {
        return;
      }
    }
    w.Unknown(opt, m.unknown);
  }

  method WriteEntryStrings(w: BinaryWriter, m: MemoryEntry) returns (ok: bool)
    modifies w
    ensures ok <==> StringLengthsFit(m)
    ensures ok ==> w.out == old(w.out) + WriteStrings(m) && w.forks == old(w.forks)
  {
    hide WriteString;
    ok := w.String(1, m.id);
    if !ok {
      return;
    }
    ok := w.String(2, m.agentId);
    if !ok {
      return;
    }
    ok := w.String(3, m.objective);
    if !ok {
      return;
    }
    ok := w.String(4, m.action);
    if !ok {
      return;
    }
    ok := w.String(5, m.result);
    if !ok {
      return;
    }
    ok := w.String(6, m.timestamp);
  }
}
