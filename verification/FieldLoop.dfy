/** The loop every generated message reader runs: read a tag, hand the field to the message's own
    `switch`, until the reader has reached the message's end. The laws below hold for any message whose
    field readers look at no byte beyond what they consume. */
module FieldLoop {
  import opened Prelude
  import opened Wire

  type FieldReader<!M> = (M, Tag, bytes) -> Option<(M, bytes)>

  ghost predicate Consumes<M(!new)>(field: FieldReader<M>) {
    forall m: M, tag: Tag, b: bytes :: field(m, tag, b).Some? ==> |field(m, tag, b).value.1| <= |b|
  }

  /** What a field reader yields does not depend on the bytes it leaves. */
  ghost predicate Local<M(!new)>(field: FieldReader<M>) {
    forall m: M, tag: Tag, b: bytes, c: bytes :: field(m, tag, b).Some? ==>
      field(m, tag, b + c) == Some((field(m, tag, b).value.0, field(m, tag, b).value.1 + c))
  }

  /** Reads fields into `m` until at most `stop` bytes are left. A message whose announced length runs past
      the buffer has a negative `stop`, so its loop ends in a failed tag read; a field may also run past
      `stop`, and then the message ends where the field did. */
  ghost function ReadFields<M(!new)>(field: FieldReader<M>, m: M, b: bytes, stop: int): (o: Option<(M, bytes)>)
    requires Consumes(field)
    ensures o.Some? ==> |o.value.1| <= |b| && |o.value.1| <= stop
    decreases |b|
  {
    if |b| <= stop then Some((m, b))
    else
      var (tag, rest) :- ReadTag(b);
      var (m', rest') :- field(m, tag, rest);
      ReadFields(field, m', rest', stop)
  }

  /** Reading all of `a` into `m` succeeds and yields `m'`. */
  ghost predicate Reads<M(!new)>(field: FieldReader<M>, m: M, a: bytes, m': M)
    requires Consumes(field)
  {
    ReadFields(field, m, a, 0) == Some((m', []))
  }

  lemma {:induction false} ReadFieldsLocal<M(!new)>(field: FieldReader<M>, m: M, b: bytes, stop: int, c: bytes)
    requires Consumes(field) && Local(field)
    requires ReadFields(field, m, b, stop).Some?
    ensures var (m', rest) := ReadFields(field, m, b, stop).value;
            ReadFields(field, m, b + c, stop + |c|) == Some((m', rest + c))
    decreases |b|
  {
    if |b| > stop {
      ReadTagLocal(b, c);
      var (tag, rest) := ReadTag(b).value;
      var (m', rest') := field(m, tag, rest).value;
      assert field(m, tag, rest + c) == Some((m', rest' + c));
      ReadFieldsLocal(field, m', rest', stop, c);
    }
  }

  /** Concatenation: once a first byte string reads completely, whatever follows it is read as if into the
      message the first one produced. `a` and `b` are arbitrary bytes, not just written messages. */
  lemma {:induction false} ReadFieldsConcat<M(!new)>(field: FieldReader<M>, m: M, a: bytes, m': M, b: bytes, stop: nat)
    requires Consumes(field) && Local(field)
    requires Reads(field, m, a, m') && stop <= |b|
    ensures ReadFields(field, m, a + b, stop) == ReadFields(field, m', b, stop)
    decreases |a|
  {
    if a == [] {
      assert a + b == b;
    } else {
      ReadTagLocal(a, b);
      var (tag, rest) := ReadTag(a).value;
      var (m1, rest') := field(m, tag, rest).value;
      assert field(m, tag, rest + b) == Some((m1, rest' + b));
      ReadFieldsConcat(field, m1, rest', m', b, stop);
    }
  }

  lemma ReadsThen<M(!new)>(field: FieldReader<M>, m: M, a: bytes, m1: M, b: bytes, m2: M)
    requires Consumes(field) && Local(field)
    requires Reads(field, m, a, m1) && Reads(field, m1, b, m2)
    ensures Reads(field, m, a + b, m2)
  {
    ReadFieldsConcat(field, m, a, m1, b, 0);
  }

  lemma ReadsFive<M(!new)>(field: FieldReader<M>, m0: M, b1: bytes, m1: M, b2: bytes, m2: M, b3: bytes, m3: M,
                           b4: bytes, m4: M, b5: bytes, m5: M)
    requires Consumes(field) && Local(field)
    requires Reads(field, m0, b1, m1) && Reads(field, m1, b2, m2) && Reads(field, m2, b3, m3)
    requires Reads(field, m3, b4, m4) && Reads(field, m4, b5, m5)
    ensures Reads(field, m0, b1 + b2 + b3 + b4 + b5, m5)
  {
    ReadsThen(field, m0, b1, m1, b2, m2);
    ReadsThen(field, m0, b1 + b2, m2, b3, m3);
    ReadsThen(field, m0, b1 + b2 + b3, m3, b4, m4);
    ReadsThen(field, m0, b1 + b2 + b3 + b4, m4, b5, m5);
  }

  /** One written field: its tag, then a payload that the message's `switch` consumes exactly. */
  lemma ReadsOne<M(!new)>(field: FieldReader<M>, m: M, no: nat, wire: nat, payload: bytes, m': M)
    requires Consumes(field) && ValidTag(no, wire)
    requires field(m, Tag(no, wire), payload) == Some((m', []))
    ensures Reads(field, m, WriteTag(no, wire) + payload, m')
  {
    TagRoundTrip(no, wire, payload);
  }

  lemma ReadFails<M(!new)>(field: FieldReader<M>, m: M, no: nat, wire: nat, payload: bytes)
    requires Consumes(field) && ValidTag(no, wire)
    requires field(m, Tag(no, wire), payload).None?
    ensures ReadFields(field, m, WriteTag(no, wire) + payload, 0).None?
  {
    TagRoundTrip(no, wire, payload);
  }

  /** A length-delimited sub-message, read by its own loop into `target`. */
  ghost function ReadNested<M(!new)>(field: FieldReader<M>, target: M, b: bytes): (o: Option<(M, bytes)>)
    requires Consumes(field)
    ensures o.Some? ==> |o.value.1| <= |b|
  {
    var (n, rest) :- ReadUint32(b);
    ReadFields(field, target, rest, |rest| - n)
  }

  lemma ReadNestedLocal<M(!new)>(field: FieldReader<M>, target: M, b: bytes, c: bytes)
    requires Consumes(field) && Local(field)
    requires ReadNested(field, target, b).Some?
    ensures var (m, rest) := ReadNested(field, target, b).value;
            ReadNested(field, target, b + c) == Some((m, rest + c))
  {
    hide ReadTag;
    ReadVarintLocal(b, 10, c);
    var (n, rest) := ReadUint32(b).value;
    ReadFieldsLocal(field, target, rest, |rest| - n, c);
    assert |rest + c| - n == |rest| - n + |c|;
  }

  /** The nested loop stops exactly where the announced length ends. */
  lemma ReadNestedExact<M(!new)>(field: FieldReader<M>, target: M, w: bytes, m: M)
    requires Consumes(field) && Reads(field, target, w, m) && |w| < 0x1_0000_0000
    ensures ReadNested(field, target, Delimited(w)) == Some((m, []))
  {
    Uint32RoundTrip(|w|, w);
  }

  /** One length-delimited sub-message field, when the message's `switch` stores what the nested loop yields. */
  lemma ReadsNested<M(!new), N(!new)>(field: FieldReader<M>, m: M, no: nat, nested: FieldReader<N>, target: N, w: bytes, n: N, m': M)
    requires Consumes(field) && Consumes(nested) && 1 <= no < 0x2000_0000
    requires Reads(nested, target, w, n) && |w| < 0x1_0000_0000
    requires forall b :: ReadNested(nested, target, b) == Some((n, [])) ==> field(m, Tag(no, LENGTH_DELIMITED), b) == Some((m', []))
    ensures Reads(field, m, WriteTag(no, LENGTH_DELIMITED) + Delimited(w), m')
  {
    ReadNestedExact(nested, target, w, n);
    ReadsOne(field, m, no, LENGTH_DELIMITED, Delimited(w), m');
  }

  // ---- Two readers that differ only in what they remember ----

  function Image<M, N>(forget: M -> N, o: Option<(M, bytes)>): Option<(N, bytes)> {
    if o.None? then None else Some((forget(o.value.0), o.value.1))
  }

  /** `g` does to the remembered part what `f` does to the whole. */
  ghost predicate Agree<M(!new), N(!new)>(f: FieldReader<M>, g: FieldReader<N>, forget: M -> N) {
    forall m: M, tag: Tag, b: bytes :: Image(forget, f(m, tag, b)) == g(forget(m), tag, b)
  }

  lemma {:induction false} ReadFieldsAgree<M(!new), N(!new)>(f: FieldReader<M>, g: FieldReader<N>, forget: M -> N, m: M, b: bytes, stop: int)
    requires Consumes(f) && Consumes(g) && Agree(f, g, forget)
    ensures Image(forget, ReadFields(f, m, b, stop)) == ReadFields(g, forget(m), b, stop)
    decreases |b|
  {
    if |b| > stop && ReadTag(b).Some? {
      var (tag, rest) := ReadTag(b).value;
      assert Image(forget, f(m, tag, rest)) == g(forget(m), tag, rest);
      if f(m, tag, rest).Some? {
        var (m', rest') := f(m, tag, rest).value;
        ReadFieldsAgree(f, g, forget, m', rest', stop);
      }
    }
  }

  lemma ReadNestedAgree<M(!new), N(!new)>(f: FieldReader<M>, g: FieldReader<N>, forget: M -> N, target: M, b: bytes)
    requires Consumes(f) && Consumes(g) && Agree(f, g, forget)
    ensures Image(forget, ReadNested(f, target, b)) == ReadNested(g, forget(target), b)
  {
    hide ReadTag;
    if ReadUint32(b).Some? {
      var (n, rest) := ReadUint32(b).value;
      ReadFieldsAgree(f, g, forget, target, rest, |rest| - n);
    }
  }
}
