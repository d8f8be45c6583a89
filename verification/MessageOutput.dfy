/** The encoder of the message codec: an output stream that writes, or only measures, and the passes over a
    message that use it. */
module MessageOutput {
  import opened Varint
  import opened MessageCodec

  // ---- what can be encoded ------------------------------------------------------------------

  /** A value of the right shape, with its integers in range and its sizes within the address space. How
      many bytes or elements fit is for the encoder to check. */
  ghost predicate Typed(kind: Kind, v: Value)
    decreases kind
  {
    match kind
    case Bytes(_) => v.Data? && |v.bytes| < TWO_32
    case Text(_) => v.Data? && |v.bytes| < TWO_32 && forall i :: 0 <= i < |v.bytes| ==> v.bytes[i] != 0
    case FixedBytes(size) => v.Data? && |v.bytes| == size < TWO_32
    case Nested(schema) =>
      && v.Sub? && |v.slots| == |schema| && |Encode(schema, v.slots)| < TWO_32
      && forall k :: 0 <= k < |schema| ==> TypedSlot(schema[k], v.slots[k])
    case _ => Storable(kind, v)
  }

  ghost predicate TypedSlot(f: Field, s: Slot)
    decreases f
  {
    match f.rule
    case Singular => s.One? && Typed(f.kind, s.value) && !f.kind.Nested?
    case Optional => s.Maybe? && (s.has ==> Typed(f.kind, s.value))
    case Repeated(_) =>
      && s.Many? && (forall i :: 0 <= i < |s.values| ==> Typed(f.kind, s.values[i]))
      && (Packable(f.kind) ==> AllStorable(f.kind, s.values) && |Packed(f.kind, s.values)| < TWO_32)
    case OneOf(_) => s.Choice? && (s.chosen ==> Typed(f.kind, s.value))
  }

  /** Everything that is present fits its buffer, at every level. */
  ghost predicate Encodable(kind: Kind, v: Value)
    decreases kind
  {
    && Storable(kind, v)
    && match kind
       case Nested(schema) => forall k :: 0 <= k < |schema| ==> EncodableSlot(schema[k], v.slots[k])
       case _ => true
  }

  ghost predicate EncodableSlot(f: Field, s: Slot)
    decreases f
  {
    && Fits(f, s)
    && match f.rule
       case Singular => IsZero(f.kind, s.value) || Encodable(f.kind, s.value)
       case Optional => s.has ==> Encodable(f.kind, s.value)
       case Repeated(_) => forall i :: 0 <= i < |s.values| ==> Encodable(f.kind, s.values[i])
       case OneOf(_) => s.chosen ==> Encodable(f.kind, s.value)
  }

  // ---- the stream -----------------------------------------------------------------------------

  /** The buffer after `bytes` were written, or only counted. */
  function Extended(out: seq<byte>, bytes: seq<byte>, sizing: bool): seq<byte> {
    if sizing then out else out + bytes
  }

  lemma ExtendMore(out: seq<byte>, a: seq<byte>, b: seq<byte>, sizing: bool)
    ensures Extended(Extended(out, a, sizing), b, sizing) == Extended(out, a + b, sizing)
  {
    assert out + a + b == out + (a + b);
  }

  lemma ExtendNothing(out: seq<byte>, sizing: bool)
    ensures Extended(out, [], sizing) == out
  {
    assert out + [] == out;
  }

  /** Bytes go to a buffer of `maxSize` bytes, or are only counted. */
  class OStream {
    const sizing: bool
    const maxSize: nat
    var written: nat
    var out: seq<byte>

    ghost predicate Valid()
      reads this
    {
      !sizing ==> |out| == written <= maxSize
    }

    constructor (sizing: bool, maxSize: nat)
      ensures Valid() && this.sizing == sizing && this.maxSize == maxSize && written == 0 && out == []
    {
      this.sizing, this.maxSize, written, out := sizing, maxSize, 0, [];
    }

    /** `bytes` were appended, or counted; or they did not fit. */
    twostate predicate Appended(new bytes: seq<byte>, ok: bool)
      reads this
    {
      && Valid()
      && (ok <==> sizing || old(written) + |bytes| <= maxSize)
      && (ok ==> written == old(written) + |bytes| && out == Extended(old(out), bytes, sizing))
    }

    method Write(data: seq<byte>) returns (ok: bool)
      requires Valid()
      modifies this
      ensures Appended(data, ok)
    {
      if |data| > 0 && !sizing {
        if written + |data| > maxSize {
          return false;
        }
        out := out + data;
      }
      written := written + |data|;
      ok := true;
    }

    /** Counts bytes without having them. */
    method Count(n: nat)
      requires Valid() && sizing
      modifies this
      ensures Valid() && written == old(written) + n && out == old(out)
    {
      written := written + n;
    }

    method EncodeVarint(value: nat) returns (ok: bool)
      requires Valid() && value < TWO_64
      modifies this
      ensures Appended(Base128(value), ok)
    {
      hide Base128;
      if value <= 0x7F {
        OneGroup(value);
        ok := Write([value]);
        return;
      }
      assert value == value % TWO_32 + value / TWO_32 * TWO_32;
      var buffer, size := EncodeVarint32(value % TWO_32, value / TWO_32);
      ok := Write(buffer[..size]);
    }

    method EncodeTag(wireType: nat, tag: nat) returns (ok: bool)
      requires Valid() && wireType < 8 && tag < MAX_TAG
      modifies this
      ensures Appended(Base128(tag * 8 + wireType), ok)
    {
      ok := EncodeVarint(tag * 8 + wireType);
    }

    method EncodeString(data: seq<byte>) returns (ok: bool)
      requires Valid() && |data| < TWO_64
      modifies this
      ensures Appended(WithLength(data), ok)
    {
      hide Base128;
      ok := EncodeVarint(|data|);
      if ok {
        ok := Write(data);
      }
    }
  }

  // ---- values, fields, messages ------------------------------------------------------------------

  /** How one encoding step ended: it appended `bytes`, or `possible` was false, or there was no room. */
  twostate predicate Outcome(stream: OStream, new bytes: seq<byte>, ok: bool, possible: bool)
    reads stream
  {
    && stream.Valid()
    && (ok ==> possible && stream.Appended(bytes, true))
    && (!ok ==> !possible || (!stream.sizing && old(stream.written) + |bytes| > stream.maxSize))
  }

  /** One value that is not a message. */
  method EncodeScalar(stream: OStream, kind: Kind, v: Value) returns (ok: bool)
    requires stream.Valid() && !kind.Nested? && Typed(kind, v)
    modifies stream
    ensures Outcome(stream, if Storable(kind, v) then EncodeValue(kind, v) else [], ok, Storable(kind, v))
  {
    hide Base128, ZigZag, LittleEndian;
    match kind
    case Unsigned(_) => ok := stream.EncodeVarint(v.n);
    case Signed(_) => ok := stream.EncodeVarint(Pattern(v.n));
    case ZigZagged(_) => ok := stream.EncodeVarint(ZigZag(v.n));
    case Boolean => ok := stream.EncodeVarint(v.n);
    case Fixed32 => ok := stream.Write(LittleEndian(v.n, 4));
    case Fixed64 => ok := stream.Write(LittleEndian(v.n, 8));
    case FixedBytes(_) => ok := stream.EncodeString(v.bytes);
    case Bytes(capacity) =>
      if |v.bytes| > capacity {
        return false;
      }
      ok := stream.EncodeString(v.bytes);
    case Text(capacity) =>
      if |v.bytes| > capacity {
        return false;
      }
      ok := stream.EncodeString(v.bytes);
  }

  /** One value of any kind. */
  method EncodeAny(stream: OStream, kind: Kind, v: Value) returns (ok: bool)
    requires stream.Valid() && Typed(kind, v) && Sane(kind)
    modifies stream
    ensures Outcome(stream, if Storable(kind, v) then EncodeValue(kind, v) else [], ok, Encodable(kind, v))
    decreases kind, 0
  {
    match kind
    case Nested(schema) =>
      NestedValue(schema, v);
      ok := EncodeSubmessage(stream, schema, v.slots);
    case _ =>
      ok := EncodeScalar(stream, kind, v);
  }

  /** The tags of the schema are in range, at every level. */
  predicate Sane(kind: Kind)
    decreases kind
  {
    match kind
    case Nested(schema) => forall k :: 0 <= k < |schema| ==> SaneField(schema[k])
    case _ => true
  }

  predicate SaneField(f: Field)
    decreases f
  {
    0 < f.tag < MAX_TAG && Sane(f.kind)
  }

  lemma NestedValue(schema: seq<Field>, v: Value)
    requires Typed(Nested(schema), v)
    ensures Storable(Nested(schema), v) && EncodeValue(Nested(schema), v) == WithLength(Encode(schema, v.slots))
    ensures |Encode(schema, v.slots)| < TWO_32
    ensures Encodable(Nested(schema), v) <==> forall k :: 0 <= k < |schema| ==> EncodableSlot(schema[k], v.slots[k])
  {
  }

  /** A tag and its value. */
  method EncodeBasicField(stream: OStream, f: Field, v: Value) returns (ok: bool)
    requires stream.Valid() && Typed(f.kind, v) && SaneField(f)
    modifies stream
    ensures Outcome(stream, if Storable(f.kind, v) then RecordBytes(ValueRecord(f, v)) else [], ok, Encodable(f.kind, v))
    decreases f, 1
  {
    hide Base128, EncodeValue, Storable, Typed, Encodable, WireType, RecordBytes, ValueRecord;
    EncodableIsStorable(f.kind, v);
    RecordIs(f, v);
    ok := stream.EncodeTag(WireType(f.kind), f.tag);
    if ok {
      ok := EncodeAny(stream, f.kind, v);
    }
  }

  lemma RecordIs(f: Field, v: Value)
    ensures WireType(f.kind) < 8
    ensures Storable(f.kind, v) ==>
              RecordBytes(ValueRecord(f, v)) == Base128(f.tag * 8 + WireType(f.kind)) + EncodeValue(f.kind, v)
  {
  }

  lemma EncodableIsStorable(kind: Kind, v: Value)
    ensures Encodable(kind, v) ==> Storable(kind, v)
  {
  }

  /** A nested message: measured first, then written behind its length. The two passes agree. */
  method EncodeSubmessage(stream: OStream, schema: seq<Field>, slots: seq<Slot>) returns (ok: bool)
    requires stream.Valid() && |schema| == |slots| && |Encode(schema, slots)| < TWO_32
    requires forall k :: 0 <= k < |schema| ==> TypedSlot(schema[k], slots[k]) && SaneField(schema[k])
    modifies stream
    ensures Outcome(stream, WithLength(Encode(schema, slots)), ok,
                    forall k :: 0 <= k < |schema| ==> EncodableSlot(schema[k], slots[k]))
    decreases schema, 2
  {
    hide Base128, Encode, TypedSlot, SaneField, EncodableSlot;
    var sizes := new OStream(true, 0);
    ok := EncodeMessage(sizes, schema, slots);
    if !ok {
      return;
    }
    var size := sizes.written;
    ok := stream.EncodeVarint(size);
    if !ok {
      return;
    }
    if stream.sizing {
      stream.Count(size);
      return;
    }
    if stream.written + size > stream.maxSize {
      return false;
    }
    var substream := new OStream(false, size);
    ok := EncodeMessage(substream, schema, slots);
    stream.written, stream.out := stream.written + substream.written, stream.out + substream.out;
    ok := ok && substream.written == size;
  }

  /** All fields of a message, in schema order. */
  method EncodeMessage(stream: OStream, schema: seq<Field>, slots: seq<Slot>) returns (ok: bool)
    requires stream.Valid() && |schema| == |slots|
    requires forall k :: 0 <= k < |schema| ==> TypedSlot(schema[k], slots[k]) && SaneField(schema[k])
    modifies stream
    ensures Outcome(stream, Encode(schema, slots), ok, forall k :: 0 <= k < |schema| ==> EncodableSlot(schema[k], slots[k]))
    decreases schema, 1
  {
    hide TypedSlot, SaneField, EncodableSlot, FieldRecords, Joined, RecordsOf, Extended;
    ok := true;
    NoFields(schema, slots);
    ghost var done: seq<byte> := [];
    ghost var before := stream.out;
    ExtendNothing(before, stream.sizing);
    for k := 0 to |schema|
      invariant done == Joined(RecordsOf(schema, slots, k)) && stream.Valid()
      invariant stream.written == old(stream.written) + |done| && stream.out == Extended(before, done, stream.sizing)
      invariant forall j :: 0 <= j < k ==> EncodableSlot(schema[j], slots[j])
    {
      ghost var more;
      ok, more := EncodeNext(stream, schema, slots, k);
      if !ok {
        return;
      }
      ExtendMore(before, done, more, stream.sizing);
      done := done + more;
    }
  }

  /** The field at `k`, behind those before it. */
  method EncodeNext(stream: OStream, schema: seq<Field>, slots: seq<Slot>, k: nat) returns (ok: bool, ghost more: seq<byte>)
    requires stream.Valid() && k < |schema| == |slots| && TypedSlot(schema[k], slots[k]) && SaneField(schema[k])
    modifies stream
    ensures stream.Valid()
    ensures ok ==>
              && EncodableSlot(schema[k], slots[k]) && stream.Appended(more, true)
              && Joined(RecordsOf(schema, slots, k + 1)) == Joined(RecordsOf(schema, slots, k)) + more
    ensures !ok && EncodableSlot(schema[k], slots[k]) ==>
              && !stream.sizing
              && old(stream.written) + |Encode(schema, slots)| > stream.maxSize + |Joined(RecordsOf(schema, slots, k))|
    decreases schema, 0
  {
    hide TypedSlot, SaneField, EncodableSlot, FieldRecords, Joined, RecordsOf, Encode, Extended;
    OneMoreField(schema, slots, k);
    EncodingGrows(schema, slots, k + 1);
    more := Joined(FieldRecords(schema[k], slots[k]));
    ok := EncodeField(stream, schema[k], slots[k]);
  }

  lemma NoFields(schema: seq<Field>, slots: seq<Slot>)
    requires |schema| == |slots|
    ensures Joined(RecordsOf(schema, slots, 0)) == []
  {
  }

  lemma {:induction false} JoinedAppend(a: seq<Record>, b: seq<Record>)
    ensures Joined(a + b) == Joined(a) + Joined(b)
    decreases |b|
  {
    hide RecordBytes;
    if b == [] {
      assert a + b == a;
    } else {
      var n := |b| - 1;
      assert (a + b)[..|a + b| - 1] == a + b[..n];
      JoinedAppend(a, b[..n]);
    }
  }

  lemma OneMoreField(schema: seq<Field>, slots: seq<Slot>, k: nat)
    requires k < |schema| == |slots|
    ensures Joined(RecordsOf(schema, slots, k + 1)) ==
            Joined(RecordsOf(schema, slots, k)) + Joined(FieldRecords(schema[k], slots[k]))
  {
    JoinedAppend(RecordsOf(schema, slots, k), FieldRecords(schema[k], slots[k]));
  }

  lemma {:induction false} EncodingGrows(schema: seq<Field>, slots: seq<Slot>, k: nat)
    requires k <= |schema| == |slots|
    ensures |Joined(RecordsOf(schema, slots, k))| <= |Encode(schema, slots)|
    decreases |schema| - k
  {
    if k < |schema| {
      OneMoreField(schema, slots, k);
      EncodingGrows(schema, slots, k + 1);
    }
  }

  /** One field: nothing if it is absent or zero, one record, or the elements of an array. */
  method EncodeField(stream: OStream, f: Field, s: Slot) returns (ok: bool)
    requires stream.Valid() && TypedSlot(f, s) && SaneField(f)
    modifies stream
    ensures Outcome(stream, Joined(FieldRecords(f, s)), ok, EncodableSlot(f, s))
    decreases f, 4
  {
    hide Typed, Storable, Encodable, EncodeValue, Packed, RecordBytes, ElementRecords;
    if f.rule.Repeated? {
      ok := EncodeArray(stream, f, s);
      return;
    }
    PresenceFacts(f, s);
    if (f.rule.OneOf? && !s.chosen) || (f.rule.Optional? && !s.has) || (f.rule.Singular? && IsZero(f.kind, s.value)) {
      return true;
    }
    ok := EncodeBasicField(stream, f, s.value);
  }

  /** When a field is present as one value, it is one record, or it does not fit. */
  lemma PresenceFacts(f: Field, s: Slot)
    requires TypedSlot(f, s) && !f.rule.Repeated?
    ensures Storable(f.kind, s.value) && Present(f, s) ==>
              && Joined(FieldRecords(f, s)) == RecordBytes(ValueRecord(f, s.value))
              && |EncodeValue(f.kind, s.value)| <= |Joined(FieldRecords(f, s))|
    ensures !Present(f, s) ==> EncodableSlot(f, s) && Joined(FieldRecords(f, s)) == []
    ensures Present(f, s) ==> (EncodableSlot(f, s) <==> Encodable(f.kind, s.value))
    ensures Present(f, s) ==> Typed(f.kind, s.value)
    ensures Present(f, s) && !Storable(f.kind, s.value) ==> Joined(FieldRecords(f, s)) == []
  {
    hide EncodeValue;
    if Fits(f, s) && Present(f, s) {
      var r := ValueRecord(f, s.value);
      assert FieldRecords(f, s) == [r];
      assert [r][..0] == [] && Joined([r][..0]) == [];
    }
  }

  predicate Present(f: Field, s: Slot)
    requires SlotOf(f, s) && !f.rule.Repeated?
  {
    match f.rule
    case Singular => !IsZero(f.kind, s.value)
    case Optional => s.has
    case OneOf(_) => s.chosen
  }

  // ---- arrays ---------------------------------------------------------------------------------------

  method EncodeArray(stream: OStream, f: Field, s: Slot) returns (ok: bool)
    requires stream.Valid() && f.rule.Repeated? && TypedSlot(f, s) && SaneField(f)
    modifies stream
    ensures Outcome(stream, Joined(FieldRecords(f, s)), ok, EncodableSlot(f, s))
    decreases f, 3
  {
    hide Typed, Storable, Encodable, EncodeValue, Packed, RecordBytes, ElementRecords;
    if |s.values| == 0 {
      return true;
    }
    if |s.values| > f.rule.most {
      return false;
    }
    ArrayFacts(f, s);
    if Packable(f.kind) {
      ok := EncodePacked(stream, f, s.values);
    } else {
      ok := EncodeElements(stream, f, s.values);
    }
  }

  lemma ArrayFacts(f: Field, s: Slot)
    requires f.rule.Repeated? && TypedSlot(f, s) && 0 < |s.values| <= f.rule.most
    ensures Packable(f.kind) ==>
              && AllStorable(f.kind, s.values) && EncodableSlot(f, s)
              && Joined(FieldRecords(f, s)) == RecordBytes(Record(f.tag, WT_STRING, WithLength(Packed(f.kind, s.values))))
    ensures !Packable(f.kind) && AllStorable(f.kind, s.values) ==>
              Joined(FieldRecords(f, s)) == Joined(ElementRecords(f, s.values))
    ensures EncodableSlot(f, s) <==> forall i :: 0 <= i < |s.values| ==> Encodable(f.kind, s.values[i])
    ensures EncodableSlot(f, s) ==> AllStorable(f.kind, s.values)
  {
    hide EncodeValue, Packed, ElementRecords, RecordBytes;
    if AllStorable(f.kind, s.values) && Packable(f.kind) {
      var r := Record(f.tag, WT_STRING, WithLength(Packed(f.kind, s.values)));
      assert FieldRecords(f, s) == [r];
      assert [r][..0] == [] && Joined([r][..0]) == [];
    }
  }

  /** Numbers back to back behind one tag: measured first unless they have a fixed size. */
  method EncodePacked(stream: OStream, f: Field, vs: seq<Value>) returns (ok: bool)
    requires stream.Valid() && Packable(f.kind) && SaneField(f) && AllStorable(f.kind, vs)
    requires |Packed(f.kind, vs)| < TWO_32
    modifies stream
    ensures Outcome(stream, RecordBytes(Record(f.tag, WT_STRING, WithLength(Packed(f.kind, vs)))), ok, true)
    decreases f, 1
  {
    hide Base128, EncodeValue, Packed, Storable;
    ok := stream.EncodeTag(WT_STRING, f.tag);
    if !ok {
      return;
    }
    var size := PackedSize(f.kind, vs);
    ok := stream.EncodeVarint(size);
    if !ok {
      return;
    }
    if stream.sizing {
      stream.Count(size);
      return;
    }
    ok := WritePacked(stream, f.kind, vs);
  }

  method PackedSize(kind: Kind, vs: seq<Value>) returns (size: nat)
    requires Packable(kind) && AllStorable(kind, vs)
    ensures size == |Packed(kind, vs)|
  {
    hide EncodeValue, Packed, Storable;
    if kind == Fixed32 {
      FixedSize(kind, vs, 4);
      return 4 * |vs|;
    }
    if kind == Fixed64 {
      FixedSize(kind, vs, 8);
      return 8 * |vs|;
    }
    var sizes := new OStream(true, 0);
    var _ := WritePacked(sizes, kind, vs);
    size := sizes.written;
  }

  lemma {:induction false} FixedSize(kind: Kind, vs: seq<Value>, size: nat)
    requires AllStorable(kind, vs) && ((kind == Fixed32 && size == 4) || (kind == Fixed64 && size == 8))
    ensures |Packed(kind, vs)| == size * |vs|
    decreases |vs|
  {
    if vs != [] {
      FixedSize(kind, vs[..|vs| - 1], size);
    }
  }

  method WritePacked(stream: OStream, kind: Kind, vs: seq<Value>) returns (ok: bool)
    requires stream.Valid() && Packable(kind) && AllStorable(kind, vs)
    modifies stream
    ensures Outcome(stream, Packed(kind, vs), ok, true)
  {
    hide EncodeValue, Packed, Storable, Typed, AllStorable, WireType, Extended;
    ok := true;
    PackedNothing(kind);
    PackedGrows(kind, vs, 0);
    assert vs[..0] == [];
    ghost var done: seq<byte> := [];
    ghost var before := stream.out;
    ExtendNothing(before, stream.sizing);
    for i := 0 to |vs|
      invariant AllStorable(kind, vs[..i]) && done == Packed(kind, vs[..i]) && stream.Valid()
      invariant stream.written == old(stream.written) + |done| && stream.out == Extended(before, done, stream.sizing)
    {
      ghost var more;
      ok, more := WriteElement(stream, kind, vs, i);
      if !ok {
        return;
      }
      ExtendMore(before, done, more, stream.sizing);
      done := done + more;
    }
    assert vs[..|vs|] == vs;
  }

  method WriteElement(stream: OStream, kind: Kind, vs: seq<Value>, i: nat) returns (ok: bool, ghost more: seq<byte>)
    requires stream.Valid() && Packable(kind) && AllStorable(kind, vs) && i < |vs| && AllStorable(kind, vs[..i])
    modifies stream
    ensures stream.Valid() && AllStorable(kind, vs[..i + 1])
    ensures ok ==> stream.Appended(more, true) && Packed(kind, vs[..i + 1]) == Packed(kind, vs[..i]) + more
    ensures !ok ==>
              !stream.sizing && old(stream.written) + |Packed(kind, vs)| > stream.maxSize + |Packed(kind, vs[..i])|
  {
    hide EncodeValue, Packed, Storable, Typed, AllStorable, WireType, Extended;
    PackedOneMore(kind, vs, i);
    PackedGrows(kind, vs, i + 1);
    NumberTyped(kind, vs, i);
    more := EncodeValue(kind, vs[i]);
    ok := EncodeScalar(stream, kind, vs[i]);
  }

  lemma NumberTyped(kind: Kind, vs: seq<Value>, i: nat)
    requires Packable(kind) && i < |vs| && AllStorable(kind, vs)
    ensures Storable(kind, vs[i]) && Typed(kind, vs[i]) && !kind.Nested?
  {
  }

  lemma PackedNothing(kind: Kind)
    ensures Packed(kind, []) == []
  {
  }

  lemma PackedOneMore(kind: Kind, vs: seq<Value>, i: nat)
    requires i < |vs| && AllStorable(kind, vs)
    ensures AllStorable(kind, vs[..i + 1]) && AllStorable(kind, vs[..i]) && Storable(kind, vs[i])
    ensures Packed(kind, vs[..i + 1]) == Packed(kind, vs[..i]) + EncodeValue(kind, vs[i])
  {
    assert vs[..i + 1][..i] == vs[..i];
  }

  lemma {:induction false} PackedGrows(kind: Kind, vs: seq<Value>, i: nat)
    requires i <= |vs| && AllStorable(kind, vs)
    ensures AllStorable(kind, vs[..i]) && |Packed(kind, vs[..i])| <= |Packed(kind, vs)|
    decreases |vs| - i
  {
    hide Packed, EncodeValue, Storable;
    if i < |vs| {
      PackedOneMore(kind, vs, i);
      PackedGrows(kind, vs, i + 1);
    } else {
      assert vs[..i] == vs;
    }
  }

  /** Strings, byte arrays and messages: one record each. */
  method EncodeElements(stream: OStream, f: Field, vs: seq<Value>) returns (ok: bool)
    requires stream.Valid() && SaneField(f) && forall i :: 0 <= i < |vs| ==> Typed(f.kind, vs[i])
    modifies stream
    ensures Outcome(stream, if AllStorable(f.kind, vs) then Joined(ElementRecords(f, vs)) else [], ok,
                    forall i :: 0 <= i < |vs| ==> Encodable(f.kind, vs[i]))
    decreases f, 2, 1
  {
    hide EncodeValue, Storable, Typed, Encodable, RecordBytes, ElementRecords, AllStorable, Joined, SaneField, Extended;
    ok := true;
    ElementsNothing(f);
    assert vs[..0] == [];
    ghost var done: seq<byte> := [];
    ghost var before := stream.out;
    ExtendNothing(before, stream.sizing);
    for i := 0 to |vs|
      invariant AllStorable(f.kind, vs[..i]) && done == Joined(ElementRecords(f, vs[..i]))
      invariant stream.Valid()
      invariant stream.written == old(stream.written) + |done| && stream.out == Extended(before, done, stream.sizing)
      invariant forall j :: 0 <= j < i ==> Encodable(f.kind, vs[j])
    {
      ghost var more;
      ok, more := EncodeElement(stream, f, vs, i);
      if !ok {
        NotAll(f.kind, vs, i);
        return;
      }
      ExtendMore(before, done, more, stream.sizing);
      done := done + more;
    }
    assert vs[..|vs|] == vs;
  }

  /** The element at `i`, behind those before it. */
  method EncodeElement(stream: OStream, f: Field, vs: seq<Value>, i: nat) returns (ok: bool, ghost more: seq<byte>)
    requires stream.Valid() && SaneField(f) && i < |vs| && Typed(f.kind, vs[i]) && AllStorable(f.kind, vs[..i])
    modifies stream
    ensures stream.Valid()
    ensures ok ==>
              && Encodable(f.kind, vs[i]) && AllStorable(f.kind, vs[..i + 1]) && stream.Appended(more, true)
              && Joined(ElementRecords(f, vs[..i + 1])) == Joined(ElementRecords(f, vs[..i])) + more
    ensures !ok && AllStorable(f.kind, vs) && Encodable(f.kind, vs[i]) ==>
              && !stream.sizing
              && old(stream.written) + |Joined(ElementRecords(f, vs))|
                 > stream.maxSize + |Joined(ElementRecords(f, vs[..i]))|
    decreases f, 2, 0
  {
    hide EncodeValue, Storable, Typed, Encodable, RecordBytes, ElementRecords, AllStorable, Joined, SaneField, Extended;
    EncodableIsStorable(f.kind, vs[i]);
    ElementStep(f, vs, i);
    more := [];
    ok := EncodeBasicField(stream, f, vs[i]);
    if ok {
      more := RecordBytes(ValueRecord(f, vs[i]));
    }
  }

  /** The records of one more element; and the records of a part are no longer than those of the whole. */
  lemma ElementStep(f: Field, vs: seq<Value>, i: nat)
    requires i < |vs|
    ensures AllStorable(f.kind, vs[..i]) && Storable(f.kind, vs[i]) ==>
              && AllStorable(f.kind, vs[..i + 1])
              && Joined(ElementRecords(f, vs[..i + 1])) ==
                 Joined(ElementRecords(f, vs[..i])) + RecordBytes(ValueRecord(f, vs[i]))
    ensures AllStorable(f.kind, vs) ==>
              && AllStorable(f.kind, vs[..i + 1])
              && |Joined(ElementRecords(f, vs[..i + 1]))| <= |Joined(ElementRecords(f, vs))|
  {
    hide EncodeValue, Storable, RecordBytes, ElementRecords, Joined;
    if AllStorable(f.kind, vs[..i]) && Storable(f.kind, vs[i]) {
      PrefixStorable(f.kind, vs, i);
      ElementsOneMore(f, vs[..i + 1], i);
      assert vs[..i + 1][..i + 1] == vs[..i + 1] && vs[..i + 1][..i] == vs[..i];
    }
    if AllStorable(f.kind, vs) {
      ElementsGrow(f, vs, i + 1);
    }
  }

  lemma ElementsNothing(f: Field)
    ensures AllStorable(f.kind, []) && Joined(ElementRecords(f, [])) == []
  {
  }

  lemma NotAll(kind: Kind, vs: seq<Value>, i: nat)
    requires i < |vs|
    ensures (forall j :: 0 <= j < |vs| ==> Encodable(kind, vs[j])) ==> Encodable(kind, vs[i]) && AllStorable(kind, vs)
  {
  }

  lemma PrefixStorable(kind: Kind, vs: seq<Value>, i: nat)
    requires i < |vs| && AllStorable(kind, vs[..i]) && Storable(kind, vs[i])
    ensures AllStorable(kind, vs[..i + 1])
  {
    var p := vs[..i + 1];
    forall j | 0 <= j < |p| ensures Storable(kind, p[j]) {
      if j < i {
        assert p[j] == vs[..i][j];
      }
    }
  }

  lemma ElementsOneMore(f: Field, vs: seq<Value>, i: nat)
    requires i < |vs| && AllStorable(f.kind, vs)
    ensures AllStorable(f.kind, vs[..i + 1]) && AllStorable(f.kind, vs[..i])
    ensures Joined(ElementRecords(f, vs[..i + 1])) ==
            Joined(ElementRecords(f, vs[..i])) + RecordBytes(ValueRecord(f, vs[i]))
  {
    hide EncodeValue, RecordBytes;
    assert vs[..i + 1][..i] == vs[..i];
    var rs := ElementRecords(f, vs[..i + 1]);
    assert rs[..|rs| - 1] == ElementRecords(f, vs[..i]);
  }

  lemma {:induction false} ElementsGrow(f: Field, vs: seq<Value>, i: nat)
    requires i <= |vs| && AllStorable(f.kind, vs)
    ensures AllStorable(f.kind, vs[..i]) && |Joined(ElementRecords(f, vs[..i]))| <= |Joined(ElementRecords(f, vs))|
    decreases |vs| - i
  {
    hide EncodeValue, RecordBytes, ElementRecords, Joined, Storable;
    if i < |vs| {
      ElementsOneMore(f, vs, i);
      ElementsGrow(f, vs, i + 1);
    } else {
      assert vs[..i] == vs;
    }
  }
}
