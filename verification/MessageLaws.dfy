/** Decoding inverts encoding: the laws of the message codec. */
module MessageLaws {
  import opened Varint
  import opened MessageCodec

  // ---- a decoder looks no further than it reads -------------------------------------------

  lemma {:induction false} LenLocal(s: seq<byte>, rest: seq<byte>)
    requires Len(s) > 0
    ensures Len(s + rest) == Len(s)
    decreases |s|
  {
    if s[0] >= 128 {
      assert (s + rest)[1..] == s[1..] + rest;
      LenLocal(s[1..], rest);
    }
  }

  lemma ParseLocal(s: seq<byte>, rest: seq<byte>)
    ensures Parse64(s).Some? ==> Parse64(s + rest) == Parse64(s)
    ensures Parse32(s).Some? ==> Parse32(s + rest) == Parse32(s)
  {
    var n := Len(s);
    if n > 0 {
      LenLocal(s, rest);
      assert (s + rest)[..n] == s[..n];
      LowPrefix(s, s + rest, n);
      assert forall j :: 0 <= j < n ==> (s + rest)[j] == s[j];
    }
  }

  lemma SliceLocal(s: seq<byte>, rest: seq<byte>, i: nat, j: nat)
    requires i <= j <= |s|
    ensures (s + rest)[i..j] == s[i..j]
  {
  }

  lemma ReadLengthLocal(s: seq<byte>, rest: seq<byte>)
    requires ReadLength(s).Got?
    ensures ReadLength(s + rest) == ReadLength(s)
    ensures var n, at := ReadLength(s).value, ReadLength(s).size; (s + rest)[at..at + n] == s[at..at + n]
  {
    ParseLocal(s, rest);
    SliceLocal(s, rest, ReadLength(s).size, ReadLength(s).size + ReadLength(s).value);
  }

  lemma DecodeValueLocal(kind: Kind, base: Value, s: seq<byte>, rest: seq<byte>)
    requires DecodeValue(kind, base, s).Got?
    ensures DecodeValue(kind, base, s + rest) == DecodeValue(kind, base, s)
  {
    hide Parse64, Parse32, DecodeSlots, FromLittleEndian, ReadLength, Zero;
    ParseLocal(s, rest);
    if WireType(kind) == WT_STRING {
      ReadLengthLocal(s, rest);
    }
    if |s| >= 4 { SliceLocal(s, rest, 0, 4); }
    if |s| >= 8 { SliceLocal(s, rest, 0, 8); }
  }

  lemma DecodeSlotLocal(f: Field, slot: Slot, wt: nat, s: seq<byte>, rest: seq<byte>)
    requires DecodeSlot(f, slot, wt, s).Got?
    ensures DecodeSlot(f, slot, wt, s + rest) == DecodeSlot(f, slot, wt, s)
  {
    hide DecodeValue, DecodePacked, ReadLength, Zero;
    if f.rule.Repeated? && wt == WT_STRING && Packable(f.kind) {
      ReadLengthLocal(s, rest);
    } else {
      var base := match f.rule
        case Repeated(_) => Zero(f.kind)
        case OneOf(_) => (if slot.chosen then slot.value else Zero(f.kind))
        case _ => slot.value;
      DecodeValueLocal(f.kind, base, s, rest);
    }
  }

  lemma SkipLocal(wt: nat, s: seq<byte>, rest: seq<byte>)
    requires Skip(wt, s).Got?
    ensures Skip(wt, s + rest) == Skip(wt, s)
  {
    hide ReadLength;
    if wt == WT_VARINT {
      LenLocal(s, rest);
    } else if wt == WT_STRING {
      ReadLengthLocal(s, rest);
    }
  }

  /** What one field decodes to depends only on the bytes it takes. */
  lemma DecodeFieldLocal(schema: seq<Field>, slots: seq<Slot>, tag: nat, wt: nat, s: seq<byte>, rest: seq<byte>)
    requires |schema| == |slots| && DecodeField(schema, slots, tag, wt, s).Got?
    ensures DecodeField(schema, slots, tag, wt, s + rest) == DecodeField(schema, slots, tag, wt, s)
  {
    hide DecodeSlot, Skip, Store;
    var k := FieldWith(schema, tag);
    if k < 0 {
      SkipLocal(wt, s, rest);
    } else {
      DecodeSlotLocal(schema[k], slots[k], wt, s, rest);
    }
  }

  // ---- whatever the input, what is accepted fits the struct ---------------------------------------------

  /** A value as a struct member of this kind can hold it, whatever its bytes. */
  predicate FitsMember(kind: Kind, v: Value) {
    match kind
    case Unsigned(bits) => Width(bits) && v.Num? && 0 <= v.n < Pow2(bits)
    case Signed(bits) => Width(bits) && v.Num? && InSigned(v.n, bits)
    case ZigZagged(bits) => Width(bits) && v.Num? && InSigned(v.n, bits)
    case Boolean => v.Num? && (v.n == 0 || v.n == 1)
    case Fixed32 => v.Num? && 0 <= v.n < 0x1_0000_0000
    case Fixed64 => v.Num? && 0 <= v.n < 0x1_0000_0000_0000_0000
    case Bytes(capacity) => v.Data? && |v.bytes| <= capacity
    case Text(capacity) => v.Data? && |v.bytes| <= capacity
    case FixedBytes(size) => v.Data? && |v.bytes| == size
    case Nested(schema) => v.Sub? && |v.slots| == |schema|
  }

  lemma {:induction false} LittleEndianFits(s: seq<byte>)
    requires |s| <= 8
    ensures FromLittleEndian(s) < Pow256(|s|)
    decreases |s|
  {
    if s != [] {
      LittleEndianFits(s[1..]);
    }
  }

  /** No bytes make the decoder store a value that its member cannot hold: numbers out of range, strings beyond
      their buffer and byte arrays of another size are refused. */
  lemma AcceptedFits(kind: Kind, base: Value, s: seq<byte>)
    requires DecodeValue(kind, base, s).Got?
    ensures FitsMember(kind, DecodeValue(kind, base, s).value)
  {
    hide Parse64, Parse32, ReadLength, DecodeSlots, FromLittleEndian, Zero;
    match kind {
      case Fixed32 => Pow256Values(); LittleEndianFits(s[..4]);
      case Fixed64 => Pow256Values(); LittleEndianFits(s[..8]);
      case FixedBytes(size) => assert |Zero(kind).bytes| == size by { ZeroSize(kind); }
      case _ =>
    }
  }

  lemma ZeroSize(kind: Kind)
    requires kind.FixedBytes?
    ensures Zero(kind).Data? && |Zero(kind).bytes| == kind.size
  {
  }

  /** A record is accepted only with the wire type of its field, or packed for an array of numbers; and an array
      never outgrows its capacity. */
  lemma AcceptedSlot(f: Field, slot: Slot, wt: nat, s: seq<byte>)
    requires DecodeSlot(f, slot, wt, s).Got?
    ensures wt == WireType(f.kind) || (f.rule.Repeated? && Packable(f.kind) && wt == 2)
    ensures f.rule.Repeated? && |slot.values| <= f.rule.most ==> |DecodeSlot(f, slot, wt, s).value.values| <= f.rule.most
  {
    hide DecodeValue, DecodePacked, ReadLength, Zero;
    if f.rule.Repeated? && wt == WT_STRING && Packable(f.kind) && |slot.values| <= f.rule.most {
      var r := ReadLength(s);
      PackedBounded(f.kind, slot.values, f.rule.most, s[r.size..r.size + r.value]);
    }
  }

  lemma {:induction false} PackedBounded(kind: Kind, values: seq<Value>, most: nat, s: seq<byte>)
    requires DecodePacked(kind, values, most, s).Some? && |values| <= most
    ensures |DecodePacked(kind, values, most, s).value| <= most
    decreases |s|
  {
    hide DecodeValue, Zero;
    if s != [] {
      var d := DecodeValue(kind, Zero(kind), s);
      PackedBounded(kind, values + [d.value], most, s[d.size..]);
    }
  }

  // ---- record by record --------------------------------------------------------------------------

  /** The slots after one whole record. */
  function Apply(schema: seq<Field>, slots: seq<Slot>, r: Record): (o: Option<seq<Slot>>)
    requires |schema| == |slots|
    ensures o.Some? ==> |o.value| == |slots|
  {
    match DecodeField(schema, slots, r.tag, r.wireType, r.content)
    case Failed => None
    case Got(slots', n) => if n == |r.content| then Some(slots') else None
  }

  function Applied(schema: seq<Field>, slots: seq<Slot>, rs: seq<Record>): (o: Option<seq<Slot>>)
    requires |schema| == |slots|
    ensures o.Some? ==> |o.value| == |slots|
  {
    if rs == [] then Some(slots)
    else
      match Applied(schema, slots, rs[..|rs| - 1])
      case None => None
      case Some(slots') => Apply(schema, slots', rs[|rs| - 1])
  }

  predicate ProperTag(r: Record) {
    0 < r.tag < MAX_TAG && r.wireType < 8
  }

  lemma DecodeStep(schema: seq<Field>, slots: seq<Slot>, s: seq<byte>, t: nat, rest: seq<byte>, slots': seq<Slot>, tail: seq<byte>)
    requires |schema| == |slots| == |slots'| && Parse32(s).Some? && Parse32(s).value.value == t
    requires s[Parse32(s).value.size..] == rest
    requires DecodeField(schema, slots, t / 8, t % 8, rest).Got? && DecodeField(schema, slots, t / 8, t % 8, rest).value == slots'
    requires s[Parse32(s).value.size + DecodeField(schema, slots, t / 8, t % 8, rest).size..] == tail
    ensures DecodeSlots(schema, slots, s) == DecodeSlots(schema, slots', tail)
  {
    hide DecodeField, Parse32, DecodeSlot, DecodeValue, DecodePacked, FieldWith, Store, Skip, Parse64, Len, Low;
    assert s != [];
  }

  /** A record at the head of the input is consumed whole. */
  lemma DecodeRecord(schema: seq<Field>, slots: seq<Slot>, r: Record, rest: seq<byte>)
    requires |schema| == |slots| && ProperTag(r) && Apply(schema, slots, r).Some?
    ensures DecodeSlots(schema, slots, RecordBytes(r) + rest) == DecodeSlots(schema, Apply(schema, slots, r).value, rest)
  {
    hide DecodeField, DecodeSlots, Parse32, Base128;
    var t := r.tag * 8 + r.wireType;
    var head := Base128(t);
    var s := RecordBytes(r) + rest;
    assert s == head + (r.content + rest);
    RoundTrip32(t, r.content + rest);
    assert s[|head|..] == r.content + rest;
    DecodeFieldLocal(schema, slots, r.tag, r.wireType, r.content, rest);
    assert s[|head| + |r.content|..] == rest;
    DecodeStep(schema, slots, s, t, r.content + rest, Apply(schema, slots, r).value, rest);
  }

  lemma {:induction false} DecodeRecords(schema: seq<Field>, slots: seq<Slot>, rs: seq<Record>, rest: seq<byte>)
    requires |schema| == |slots| && Applied(schema, slots, rs).Some?
    requires forall i :: 0 <= i < |rs| ==> ProperTag(rs[i])
    ensures DecodeSlots(schema, slots, Joined(rs) + rest) == DecodeSlots(schema, Applied(schema, slots, rs).value, rest)
    decreases |rs|
  {
    hide DecodeSlots, Apply, RecordBytes;
    if rs == [] {
      assert Joined(rs) + rest == rest;
    } else {
      var n := |rs| - 1;
      assert Joined(rs) + rest == Joined(rs[..n]) + (RecordBytes(rs[n]) + rest);
      DecodeRecords(schema, slots, rs[..n], RecordBytes(rs[n]) + rest);
      DecodeRecord(schema, Applied(schema, slots, rs[..n]).value, rs[n], rest);
    }
  }

  /** The records of fields the schema has. */
  function Known(schema: seq<Field>, rs: seq<Record>): seq<Record> {
    if rs == [] then []
    else
      Known(schema, rs[..|rs| - 1]) + (if FieldWith(schema, rs[|rs| - 1].tag) >= 0 then [rs[|rs| - 1]] else [])
  }

  /** A record that can be skipped whole without knowing its field. */
  predicate Skippable(r: Record) {
    Skip(r.wireType, r.content) == Got((), |r.content|)
  }

  /** Unknown fields change nothing. */
  lemma {:induction false} UnknownIgnored(schema: seq<Field>, slots: seq<Slot>, rs: seq<Record>)
    requires |schema| == |slots|
    requires forall i :: 0 <= i < |rs| ==> ProperTag(rs[i]) && (FieldWith(schema, rs[i].tag) < 0 ==> Skippable(rs[i]))
    ensures Applied(schema, slots, rs) == Applied(schema, slots, Known(schema, rs))
    decreases |rs|
  {
    hide Skip, Store, DecodeSlot;
    if rs != [] {
      var n := |rs| - 1;
      var known := Known(schema, rs[..n]);
      UnknownIgnored(schema, slots, rs[..n]);
      if FieldWith(schema, rs[n].tag) >= 0 {
        assert Known(schema, rs)[..|known|] == known;
      } else {
        assert Known(schema, rs) == known;
      }
    }
  }

  // ---- values ----------------------------------------------------------------------------------------

  lemma {:induction false} LittleEndianRoundTrip(n: nat, size: nat)
    requires size <= 8 && n < Pow256(size)
    ensures FromLittleEndian(LittleEndian(n, size)) == n
    decreases size
  {
    if size > 0 {
      var s := LittleEndian(n, size);
      assert s[1..] == LittleEndian(n / 256, size - 1);
      LittleEndianRoundTrip(n / 256, size - 1);
    }
  }

  function Pow256(n: nat): nat {
    if n == 0 then 1 else 256 * Pow256(n - 1)
  }

  lemma Pow256Values()
    ensures Pow256(4) == TWO_32 && Pow256(8) == TWO_64
  {
    assert Pow256(4) == 256 * Pow256(3) == 256 * 256 * Pow256(2);
    assert Pow256(8) == 256 * Pow256(7) == 256 * 256 * Pow256(6);
    assert Pow256(6) == 256 * Pow256(5) == 256 * 256 * Pow256(4);
  }

  /** The form of a record on the wire: the tag above three bits of wire type, and then a base-128 number, four or
      eight bytes with the low one first, or a length and that many bytes. Negative numbers go as their 64-bit
      complement, and zigzag numbers alternate. */
  lemma WireForms(f: Field, v: Value)
    requires Storable(f.kind, v)
    ensures match f.kind
            case Unsigned(_) => RecordBytes(ValueRecord(f, v)) == Base128(f.tag * 8 + 0) + Base128(v.n)
            case Signed(_) =>
              RecordBytes(ValueRecord(f, v)) == Base128(f.tag * 8 + 0) + Base128(if v.n < 0 then 0x1_0000_0000_0000_0000 + v.n else v.n)
            case ZigZagged(_) =>
              RecordBytes(ValueRecord(f, v)) == Base128(f.tag * 8 + 0) + Base128(if v.n < 0 then -2 * v.n - 1 else 2 * v.n)
            case Boolean => RecordBytes(ValueRecord(f, v)) == Base128(f.tag * 8 + 0) + [v.n]
            case Fixed32 =>
              && RecordBytes(ValueRecord(f, v)) == Base128(f.tag * 8 + 5) + LittleEndian(v.n, 4)
              && FromLittleEndian(LittleEndian(v.n, 4)) == v.n
            case Fixed64 =>
              && RecordBytes(ValueRecord(f, v)) == Base128(f.tag * 8 + 1) + LittleEndian(v.n, 8)
              && FromLittleEndian(LittleEndian(v.n, 8)) == v.n
            case Nested(schema) =>
              var b := Encode(schema, v.slots); RecordBytes(ValueRecord(f, v)) == Base128(f.tag * 8 + 2) + (Base128(|b|) + b)
            case _ => RecordBytes(ValueRecord(f, v)) == Base128(f.tag * 8 + 2) + (Base128(|v.bytes|) + v.bytes)
    ensures Base128(150) == [0x96, 0x01] && FromLittleEndian([1, 2, 3, 4]) == 0x0403_0201
  {
    hide Base128, LittleEndian, ZigZag, Joined, RecordsOf;
    Number150();
    LowExample();
    match f.kind {
      case ZigZagged(bits) => ZigZagMeans(v.n);
      case Boolean => SmallNumber(v.n);
      case Fixed32 =>
        Pow256Values();
        LittleEndianRoundTrip(v.n, 4);
        assert RecordBytes(ValueRecord(f, v)) == Base128(f.tag * 8 + 5) + LittleEndian(v.n, 4);
      case Fixed64 =>
        Pow256Values();
        LittleEndianRoundTrip(v.n, 8);
        assert RecordBytes(ValueRecord(f, v)) == Base128(f.tag * 8 + 1) + LittleEndian(v.n, 8);
      case _ =>
    }
  }

  lemma SmallNumber(n: nat)
    requires n < 128
    ensures Base128(n) == [n]
  {
  }

  lemma LowExample()
    ensures FromLittleEndian([1, 2, 3, 4]) == 0x0403_0201
  {
    var s: seq<byte> := [1, 2, 3, 4];
    assert s[1..] == [2, 3, 4] && s[1..][1..] == [3, 4] && s[1..][1..][1..] == [4] && s[1..][1..][1..][1..] == [];
  }

  lemma Number150()
    ensures Base128(150) == [0x96, 0x01]
  {
  }

  lemma LengthRoundTrip(b: seq<byte>)
    requires |b| < TWO_32
    ensures var s := WithLength(b); var at := |Base128(|b|)|;
            ReadLength(s) == Got(|b|, at) && at + |b| == |s| && s[at..at + |b|] == b
  {
    hide Parse32, Base128;
    RoundTrip32(|b|, b);
  }

  lemma SignedRoundTrip(x: int, bits: nat)
    requires Width(bits) && InSigned(x, bits)
    ensures Int64(x) && ToSigned(Pattern(x), if bits == 64 then 64 else 32) == x
  {
    if bits != 64 {
      assert -0x8000_0000 <= x < 0x8000_0000;
      if x < 0 {
        LowWord(x);
      }
    }
  }

  lemma NumberRoundTrip(kind: Kind, v: Value)
    requires Storable(kind, v) && WireType(kind) != WT_STRING
    ensures DecodeValue(kind, Zero(kind), EncodeValue(kind, v)) == Got(v, |EncodeValue(kind, v)|)
    ensures |EncodeValue(kind, v)| > 0
  {
    hide Parse64, Parse32, Base128, FromLittleEndian, LittleEndian, ToSigned;
    var s := EncodeValue(kind, v);
    assert s + [] == s;
    match kind
    case Unsigned(_) =>
      RoundTrip64(v.n, []);
    case Signed(bits) =>
      SignedRoundTrip(v.n, bits);
      RoundTrip64(Pattern(v.n), []);
    case ZigZagged(bits) =>
      ZigZagBijection(v.n, 0);
      RoundTrip64(ZigZag(v.n), []);
    case Boolean =>
      RoundTrip32(v.n, []);
    case Fixed32 =>
      Pow256Values();
      LittleEndianRoundTrip(v.n, 4);
      assert s[..4] == s;
    case Fixed64 =>
      Pow256Values();
      LittleEndianRoundTrip(v.n, 8);
      assert s[..8] == s;
  }

  lemma BytesRoundTrip(kind: Kind, v: Value)
    requires Storable(kind, v) && (kind.Bytes? || kind.Text? || kind.FixedBytes?)
    requires kind.FixedBytes? ==> kind.size > 0
    requires |EncodeValue(kind, v)| < TWO_32
    ensures DecodeValue(kind, Zero(kind), EncodeValue(kind, v)) == Got(v, |EncodeValue(kind, v)|)
  {
    hide ReadLength, WithLength;
    LengthLonger(v.bytes);
    LengthRoundTrip(v.bytes);
  }

  lemma LengthLonger(b: seq<byte>)
    ensures |WithLength(b)| > |b|
  {
  }

  predicate WellFormedKind(kind: Kind) {
    match kind
    case Nested(schema) => WellFormed(schema)
    case FixedBytes(size) => size > 0
    case _ => true
  }

  ghost predicate CanonicalSlots(schema: seq<Field>, slots: seq<Slot>) {
    Canonical(Nested(schema), Sub(slots))
  }

  lemma FieldIsFound(schema: seq<Field>, k: nat)
    requires WellFormed(schema) && k < |schema|
    ensures FieldWith(schema, schema[k].tag) == k && 0 < schema[k].tag < MAX_TAG && WellFormedKind(schema[k].kind)
  {
    var j := FieldWith(schema, schema[k].tag);
    assert j >= 0 && schema[j].tag == schema[k].tag;
    assert WellFormedField(schema[k]);
  }

  lemma SlotCanonical(schema: seq<Field>, slots: seq<Slot>, k: nat)
    requires CanonicalSlots(schema, slots) && k < |schema|
    ensures |slots| == |schema| && CanonicalSlot(schema[k], slots[k])
  {
  }

  lemma OneChosen(schema: seq<Field>, slots: seq<Slot>, j: nat, k: nat)
    requires CanonicalSlots(schema, slots) && j < k < |schema| == |slots|
    ensures !BothChosen(schema[j], slots[j], schema[k], slots[k])
  {
  }

  lemma StorableIfCanonical(kind: Kind, v: Value)
    requires Canonical(kind, v)
    ensures Storable(kind, v)
  {
  }

  /** Packed elements come back one after the other. */
  lemma {:induction false} PackedRoundTrip(kind: Kind, pre: seq<Value>, vs: seq<Value>, most: nat, rest: seq<byte>)
    requires Packable(kind) && |pre| + |vs| <= most
    requires AllStorable(kind, vs)
    ensures DecodePacked(kind, pre, most, Packed(kind, vs) + rest) == DecodePacked(kind, pre + vs, most, rest)
    decreases |vs|
  {
    hide DecodeValue, EncodeValue, Storable;
    if vs == [] {
      assert Packed(kind, vs) + rest == rest && pre + vs == pre;
    } else {
      var n := |vs| - 1;
      var e := EncodeValue(kind, vs[n]);
      assert Packed(kind, vs) + rest == Packed(kind, vs[..n]) + (e + rest);
      PackedRoundTrip(kind, pre, vs[..n], most, e + rest);
      NumberRoundTrip(kind, vs[n]);
      DecodeValueLocal(kind, Zero(kind), e, rest);
      assert (e + rest)[|e|..] == rest;
      assert pre + vs[..n] + [vs[n]] == pre + vs;
    }
  }

  // ---- what may arrive for a message ---------------------------------------------------------------

  /** The records with this tag, in order. */
  function OfTag(rs: seq<Record>, tag: nat): (r: seq<Record>)
    ensures forall i :: 0 <= i < |r| ==> r[i].tag == tag
  {
    if rs == [] then []
    else OfTag(rs[..|rs| - 1], tag) + (if rs[|rs| - 1].tag == tag then [rs[|rs| - 1]] else [])
  }

  function Flat<T>(parts: seq<seq<T>>): seq<T> {
    if parts == [] then [] else Flat(parts[..|parts| - 1]) + parts[|parts| - 1]
  }

  /** The bytes `c` carry the value `v`; a nested message may do so in any of its spellings. */
  ghost predicate Carries(kind: Kind, v: Value, c: seq<byte>)
    decreases kind, 0
  {
    && Storable(kind, v)
    && match kind
       case Nested(schema) => exists rs :: c == WithLength(Joined(rs)) && Spells(schema, v.slots, rs)
       case _ => c == EncodeValue(kind, v)
  }

  ghost predicate CarriesOne(f: Field, v: Value, r: Record)
    decreases f, 0
  {
    r.wireType == WireType(f.kind) && Carries(f.kind, v, r.content)
  }

  /** One record carries some consecutive elements of an array: packed, or a single one. */
  ghost predicate CarriesPart(f: Field, part: seq<Value>, r: Record)
    decreases f, 1
  {
    || (Packable(f.kind) && r.wireType == WT_STRING && AllStorable(f.kind, part)
        && r.content == WithLength(Packed(f.kind, part)))
    || (|part| == 1 && CarriesOne(f, part[0], r))
  }

  ghost predicate CarriesParts(f: Field, parts: seq<seq<Value>>, ks: seq<Record>)
    decreases f, 2
  {
    |parts| == |ks| && forall i :: 0 <= i < |ks| ==> CarriesPart(f, parts[i], ks[i])
  }

  /** The occurrences of a field that holds one value carry that value: the last of a number or a string, after
      any that can be read, and the records of a message spread over all of them. */
  ghost predicate CarriesLast(f: Field, v: Value, ks: seq<Record>)
    decreases f, 1
  {
    && ks != [] && Storable(f.kind, v) && (forall i :: 0 <= i < |ks| ==> ks[i].wireType == WireType(f.kind))
    && match f.kind
       case Nested(schema) => exists runs :: MessageRuns(runs, ks) && Spells(schema, v.slots, Flat(runs))
       case _ =>
         && Carries(f.kind, v, ks[|ks| - 1].content)
         && forall i :: 0 <= i < |ks| - 1 ==> Decodable(f.kind, ks[i].content)
  }

  predicate MessageRuns(runs: seq<seq<Record>>, ks: seq<Record>) {
    |runs| == |ks| && forall i :: 0 <= i < |ks| ==> ks[i].content == WithLength(Joined(runs[i]))
  }

  predicate Decodable(kind: Kind, c: seq<byte>) {
    var d := DecodeValue(kind, Zero(kind), c);
    d.Got? && d.size == |c|
  }

  /** `ks` are all the records of field `f`, and they carry its slot. */
  ghost predicate SpellsField(f: Field, s: Slot, ks: seq<Record>)
    decreases f, 3
  {
    match f.rule
    case Singular => s.One? && if ks == [] then s == DefaultSlot(f) else CarriesLast(f, s.value, ks)
    case Optional => s.Maybe? && if s.has then CarriesLast(f, s.value, ks) else ks == []
    case OneOf(_) => s.Choice? && if s.chosen then CarriesLast(f, s.value, ks) else ks == []
    case Repeated(_) => s.Many? && exists parts :: CarriesParts(f, parts, ks) && Flat(parts) == s.values
  }

  /** The records spell the message: at every level its fields come in any order, with any fields the schema
      does not know in between, a field that holds one value comes as often as it likes, and numbers of an array
      come packed or not, in as many records as they like. */
  ghost predicate Spells(schema: seq<Field>, slots: seq<Slot>, rs: seq<Record>)
    decreases schema, 0
  {
    && |slots| == |schema|
    && (forall i :: 0 <= i < |rs| ==> ProperTag(rs[i]) && (FieldWith(schema, rs[i].tag) < 0 ==> Skippable(rs[i])))
    && forall k :: 0 <= k < |schema| ==> SpellsField(schema[k], slots[k], OfTag(rs, schema[k].tag))
  }

  // ---- fields, record by record ---------------------------------------------------------------------

  /** The parts in which the records of an array bring its elements. */
  ghost function PartsOf(f: Field, s: Slot, ks: seq<Record>): (parts: seq<seq<Value>>)
    requires f.rule.Repeated? && SpellsField(f, s, ks)
    ensures CarriesParts(f, parts, ks) && Flat(parts) == s.values
  {
    var parts :| CarriesParts(f, parts, ks) && Flat(parts) == s.values;
    parts
  }

  /** The runs of records in which the occurrences of a message bring its fields. */
  ghost function RunsOf(f: Field, v: Value, ks: seq<Record>): (runs: seq<seq<Record>>)
    requires f.kind.Nested? && CarriesLast(f, v, ks)
    ensures MessageRuns(runs, ks) && Spells(f.kind.schema, v.slots, Flat(runs))
  {
    var runs :| MessageRuns(runs, ks) && Spells(f.kind.schema, v.slots, Flat(runs));
    runs
  }

  /** The slot of a field when `j` of its records have arrived. */
  ghost function Partial(f: Field, s: Slot, ks: seq<Record>, j: nat): Slot
    requires SpellsField(f, s, ks) && j <= |ks|
    decreases f, 1
  {
    if f.rule.Repeated? then Many(Flat(PartsOf(f, s, ks)[..j]))
    else if j == 0 then DefaultSlot(f)
    else if j == |ks| then s
    else Taken(f, PartialValue(f, s.value, ks, j))
  }

  /** The value of a field when some of its occurrences have arrived: the last of them, or what a message has
      been brought by all of them. */
  ghost function PartialValue(f: Field, v: Value, ks: seq<Record>, j: nat): Value
    requires CarriesLast(f, v, ks) && 0 < j < |ks|
    decreases f, 0
  {
    match f.kind
    case Nested(schema) =>
      var runs := RunsOf(f, v, ks);
      FlatPrefix(runs, j);
      Sub(Progress(schema, v.slots, Flat(runs), |Flat(runs[..j])|))
    case _ => DecodeValue(f.kind, Zero(f.kind), ks[j - 1].content).value
  }

  /** The slot of a field that has come. */
  function Taken(f: Field, v: Value): Slot {
    match f.rule
    case Singular => One(v)
    case Optional => Maybe(true, v)
    case OneOf(_) => Choice(true, v)
    case Repeated(_) => Many([v])
  }

  /** The value the next occurrence of a field is decoded over. */
  function BaseOf(f: Field, slot: Slot): Value
    requires SlotOf(f, slot)
  {
    match f.rule
    case OneOf(_) => if slot.chosen then slot.value else Zero(f.kind)
    case Repeated(_) => Zero(f.kind)
    case _ => slot.value
  }

  lemma DecodedOver(f: Field, slot: Slot, wt: nat, s: seq<byte>)
    requires !f.rule.Repeated? && SlotOf(f, slot)
    ensures DecodeSlot(f, slot, wt, s) ==
            if wt != WireType(f.kind) then Failed
            else match DecodeValue(f.kind, BaseOf(f, slot), s) case Failed => Failed case Got(v, n) => Got(Taken(f, v), n)
  {
    hide DecodeValue, Zero;
  }

  /** A number or a string is decoded without regard to what was there. */
  lemma BaseFree(kind: Kind, u: Value, v: Value, s: seq<byte>)
    requires !kind.Nested?
    ensures DecodeValue(kind, u, s) == DecodeValue(kind, v, s)
  {
    hide Parse64, Parse32, ReadLength, Zero, FromLittleEndian;
  }

  /** A message is decoded over the struct that was there. */
  lemma MessageOver(schema: seq<Field>, slots: seq<Slot>, b: seq<byte>)
    requires |slots| == |schema| && |b| < TWO_32
    ensures DecodeValue(Nested(schema), Sub(slots), WithLength(b)) ==
            match DecodeSlots(schema, slots, b) case None => Failed case Some(s) => Got(Sub(s), |WithLength(b)|)
  {
    hide ReadLength, WithLength, DecodeSlots, Zero;
    LengthLonger(b);
    LengthRoundTrip(b);
  }

  lemma PartialEnds(f: Field, s: Slot, ks: seq<Record>)
    requires SpellsField(f, s, ks) && CanonicalSlot(f, s)
    ensures Partial(f, s, ks, 0) == DefaultSlot(f) && Partial(f, s, ks, |ks|) == s
  {
    hide Carries, Canonical, Storable, EncodeValue;
    if f.rule.Repeated? {
      var parts := PartsOf(f, s, ks);
      assert parts[..0] == [] && parts[..|ks|] == parts;
    }
  }

  lemma {:induction false} FlatPrefix<T>(parts: seq<seq<T>>, j: nat)
    requires j < |parts|
    ensures Flat(parts[..j + 1]) == Flat(parts[..j]) + parts[j] && Flat(parts[..j + 1]) <= Flat(parts)
    decreases |parts|
  {
    var n := |parts| - 1;
    assert parts[..j + 1][..j] == parts[..j];
    if j < n {
      FlatPrefix(parts[..n], j);
      assert parts[..n][..j + 1] == parts[..j + 1];
    } else {
      assert parts[..j + 1] == parts;
    }
  }

  /** A record of an array appends the elements it carries. */
  lemma PartArrives(f: Field, pre: seq<Value>, part: seq<Value>, r: Record)
    requires f.rule.Repeated? && CarriesPart(f, part, r) && WellFormedKind(f.kind) && |r.content| < TWO_32
    requires |pre| + |part| <= f.rule.most && forall i :: 0 <= i < |part| ==> Canonical(f.kind, part[i])
    ensures DecodeSlot(f, Many(pre), r.wireType, r.content) == Got(Many(pre + part), |r.content|)
    decreases f, 0
  {
    hide DecodeValue, DecodePacked, EncodeValue, Carries, Canonical, WellFormedKind, Storable, Packed, ReadLength, WithLength, Spells;
    if |part| == 1 && CarriesOne(f, part[0], r) {
      ValueRoundTrip(f.kind, part[0], r.content);
      assert pre + [part[0]] == pre + part;
    } else {
      var b := Packed(f.kind, part);
      LengthLonger(b);
      LengthRoundTrip(b);
      PackedRoundTrip(f.kind, pre, part, f.rule.most, []);
      assert b + [] == b;
      PackedNothing(f.kind, pre + part, f.rule.most);
    }
  }

  lemma PackedNothing(kind: Kind, vs: seq<Value>, most: nat)
    ensures DecodePacked(kind, vs, most, []) == Some(vs)
  {
  }

  /** An occurrence of a number or a string replaces what came before it. */
  lemma ScalarArrives(f: Field, s: Slot, ks: seq<Record>, j: nat)
    requires !f.rule.Repeated? && !f.kind.Nested? && SpellsField(f, s, ks) && CanonicalSlot(f, s) && WellFormedKind(f.kind)
    requires j < |ks| && |ks[j].content| < TWO_32
    ensures DecodeSlot(f, Partial(f, s, ks, j), ks[j].wireType, ks[j].content) == Got(Partial(f, s, ks, j + 1), |ks[j].content|)
    decreases f, 0
  {
    hide DecodeSlot, DecodeValue, DecodePacked, EncodeValue, Carries, Canonical, WellFormedKind, Storable, Zero, Spells, Progress;
    var before, c := Partial(f, s, ks, j), ks[j].content;
    DecodedOver(f, before, ks[j].wireType, c);
    BaseFree(f.kind, BaseOf(f, before), Zero(f.kind), c);
    if j + 1 == |ks| {
      ValueRoundTrip(f.kind, s.value, c);
    } else {
      assert Decodable(f.kind, c);
    }
  }

  /** An occurrence of a message brings it the records it carries. */
  lemma MessagePartArrives(f: Field, s: Slot, ks: seq<Record>, j: nat)
    requires !f.rule.Repeated? && f.kind.Nested? && SpellsField(f, s, ks) && CanonicalSlot(f, s) && WellFormedKind(f.kind)
    requires j < |ks| && |ks[j].content| < TWO_32
    ensures DecodeSlot(f, Partial(f, s, ks, j), ks[j].wireType, ks[j].content) == Got(Partial(f, s, ks, j + 1), |ks[j].content|)
    decreases f, 0
  {
    hide DecodeSlot, DecodeValue, DecodeSlots, Spells, SpellsField, CarriesLast, Canonical, WellFormed, Joined, WithLength, Progress, Flat, Partial, CanonicalSlot;
    HeldValue(f, s, ks);
    var schema, v := f.kind.schema, s.value;
    var runs := RunsOf(f, v, ks);
    var rs: seq<Record>, n, m := Flat(runs), |Flat(runs[..j])|, |Flat(runs[..j + 1])|;
    FlatPrefix(runs, j);
    assert rs[n..m] == runs[j];
    LengthLonger(Joined(runs[j]));
    forall i | n <= i < m ensures |rs[i].content| < TWO_32 {
      ContentsFit(runs[j], i - n);
      assert rs[i] == runs[j][i - n];
    }
    MessageArrives(schema, v.slots, rs, n, m);
    RunDecodes(schema, v.slots, rs, n, m);
    MessageOver(schema, Progress(schema, v.slots, rs, n), Joined(runs[j]));
    MessagePartial(f, s, ks, j);
    MessagePartial(f, s, ks, j + 1);
    DecodedOver(f, Partial(f, s, ks, j), ks[j].wireType, ks[j].content);
    CarriesMessage(f, v, ks, j);
  }

  /** What the slot of a message holds when some of its occurrences have arrived. */
  lemma MessagePartial(f: Field, s: Slot, ks: seq<Record>, j: nat)
    requires !f.rule.Repeated? && f.kind.Nested? && SpellsField(f, s, ks) && CanonicalSlot(f, s) && ks != []
    requires j <= |ks|
    ensures SlotOf(f, s) && CarriesLast(f, s.value, ks) && s.value.Sub?
    ensures var runs := RunsOf(f, s.value, ks);
            && |Flat(runs[..j])| <= |Flat(runs)| && SlotOf(f, Partial(f, s, ks, j))
            && BaseOf(f, Partial(f, s, ks, j)) == Sub(Progress(f.kind.schema, s.value.slots, Flat(runs), |Flat(runs[..j])|))
            && (j > 0 ==> Partial(f, s, ks, j) == Taken(f, BaseOf(f, Partial(f, s, ks, j))))
  {
    hide Spells, CarriesLast, Canonical, Progress, Flat, SpellsField, CanonicalSlot;
    HeldValue(f, s, ks);
    var schema, slots := f.kind.schema, s.value.slots;
    var runs := RunsOf(f, s.value, ks);
    if j < |ks| {
      FlatPrefix(runs, j);
    }
    if j == 0 {
      assert runs[..0] == [];
      NothingStrung(runs[..0]);
      NothingArrived(schema, slots, Flat(runs));
      assert Zero(f.kind).slots == Defaults(schema);
      assert BaseOf(f, DefaultSlot(f)) == Zero(f.kind);
      assert Partial(f, s, ks, 0) == DefaultSlot(f);
    } else if j == |ks| {
      assert runs[..j] == runs;
      EverythingArrived(schema, slots, Flat(runs));
      assert s.value == Sub(slots);
      assert Partial(f, s, ks, j) == s;
    } else {
      assert BaseOf(f, Partial(f, s, ks, j)) == PartialValue(f, s.value, ks, j);
      assert PartialValue(f, s.value, ks, j) == Sub(Progress(schema, slots, Flat(runs), |Flat(runs[..j])|));
    }
  }

  lemma NothingStrung(runs: seq<seq<Record>>)
    requires runs == []
    ensures |Flat(runs)| == 0
  {
  }

  lemma CarriesMessage(f: Field, v: Value, ks: seq<Record>, j: nat)
    requires f.kind.Nested? && CarriesLast(f, v, ks) && j < |ks|
    ensures ks[j].wireType == WireType(f.kind) && ks[j].content == WithLength(Joined(RunsOf(f, v, ks)[j]))
  {
    hide Spells, WithLength, Joined;
  }

  /** A field that has come holds a value. */
  lemma HeldValue(f: Field, s: Slot, ks: seq<Record>)
    requires !f.rule.Repeated? && SpellsField(f, s, ks) && CanonicalSlot(f, s) && ks != []
    ensures SlotOf(f, s) && CarriesLast(f, s.value, ks) && Canonical(f.kind, s.value) && s == Taken(f, s.value)
    ensures f.kind.Nested? ==> s.value.Sub? && CanonicalSlots(f.kind.schema, s.value.slots)
  {
    hide CarriesLast, Canonical;
    if f.kind.Nested? {
      StorableIfCanonical(f.kind, s.value);
      assert s.value == Sub(s.value.slots);
    }
  }

  /** The bytes of some consecutive records, decoded over what came before them. */
  lemma RunDecodes(schema: seq<Field>, slots: seq<Slot>, rs: seq<Record>, n: nat, m: nat)
    requires Spells(schema, slots, rs) && n <= m <= |rs|
    requires Applied(schema, Progress(schema, slots, rs, n), rs[n..m]) == Some(Progress(schema, slots, rs, m))
    ensures DecodeSlots(schema, Progress(schema, slots, rs, n), Joined(rs[n..m])) == Some(Progress(schema, slots, rs, m))
  {
    hide DecodeSlots, Joined, Progress, Applied, SpellsField;
    DecodeRecords(schema, Progress(schema, slots, rs, n), rs[n..m], []);
    assert Joined(rs[n..m]) + [] == Joined(rs[n..m]);
    NothingLeft(schema, Progress(schema, slots, rs, m));
  }

  /** Each record of a field brings its slot one step further. */
  lemma FieldArrives(f: Field, s: Slot, ks: seq<Record>, j: nat)
    requires SpellsField(f, s, ks) && CanonicalSlot(f, s) && WellFormedKind(f.kind)
    requires j < |ks| && |ks[j].content| < TWO_32
    ensures DecodeSlot(f, Partial(f, s, ks, j), ks[j].wireType, ks[j].content) == Got(Partial(f, s, ks, j + 1), |ks[j].content|)
    decreases f, 1
  {
    hide DecodeSlot, Carries, Canonical, WellFormedKind, Storable, CarriesPart, CarriesLast, Flat;
    if f.rule.Repeated? {
      var parts := PartsOf(f, s, ks);
      var pre, part := Flat(parts[..j]), parts[j];
      FlatPrefix(parts, j);
      assert pre + part <= s.values;
      forall i | 0 <= i < |part| ensures Canonical(f.kind, part[i]) {
        assert part[i] == (pre + part)[|pre| + i] == s.values[|pre| + i];
      }
      PartArrives(f, pre, part, ks[j]);
    } else if f.kind.Nested? {
      MessagePartArrives(f, s, ks, j);
    } else {
      ScalarArrives(f, s, ks, j);
    }
  }

  // ---- messages, record by record --------------------------------------------------------------------

  /** The struct when the first `n` records have arrived. */
  ghost function Progress(schema: seq<Field>, slots: seq<Slot>, rs: seq<Record>, n: nat): (r: seq<Slot>)
    requires Spells(schema, slots, rs) && n <= |rs|
    ensures |r| == |schema|
    decreases schema, 1
  {
    seq(|schema|, k requires 0 <= k < |schema| => ProgressOf(schema, slots, rs, n, k))
  }

  ghost function ProgressOf(schema: seq<Field>, slots: seq<Slot>, rs: seq<Record>, n: nat, k: nat): Slot
    requires Spells(schema, slots, rs) && n <= |rs| && k < |schema|
    decreases schema, 0
  {
    OfTagPrefix(rs, schema[k].tag, n);
    Partial(schema[k], slots[k], OfTag(rs, schema[k].tag), |OfTag(rs[..n], schema[k].tag)|)
  }

  lemma {:induction false} OfTagPrefix(rs: seq<Record>, tag: nat, n: nat)
    requires n <= |rs|
    ensures OfTag(rs[..n], tag) <= OfTag(rs, tag)
    ensures n < |rs| ==> OfTag(rs[..n + 1], tag) == OfTag(rs[..n], tag) + (if rs[n].tag == tag then [rs[n]] else [])
    decreases |rs|
  {
    if n == |rs| {
      assert rs[..n] == rs;
    } else {
      assert rs[..n + 1][..n] == rs[..n];
      var m := |rs| - 1;
      OfTagPrefix(rs[..m], tag, n);
      assert rs[..m][..n] == rs[..n];
    }
  }

  /** A record of a field the schema does not have changes nothing. */
  lemma UnknownArrives(schema: seq<Field>, slots: seq<Slot>, rs: seq<Record>, n: nat)
    requires Spells(schema, slots, rs) && n < |rs| && FieldWith(schema, rs[n].tag) < 0
    ensures Apply(schema, Progress(schema, slots, rs, n), rs[n]) == Some(Progress(schema, slots, rs, n + 1))
  {
    hide SpellsField, Partial, Skip, OfTag;
    forall k | 0 <= k < |schema|
      ensures ProgressOf(schema, slots, rs, n, k) == ProgressOf(schema, slots, rs, n + 1, k)
    {
      OfTagPrefix(rs, schema[k].tag, n);
    }
    assert Progress(schema, slots, rs, n) == Progress(schema, slots, rs, n + 1);
  }

  /** A record of a field the schema has advances that field and no other. */
  lemma KnownArrives(schema: seq<Field>, slots: seq<Slot>, rs: seq<Record>, n: nat)
    requires Spells(schema, slots, rs) && CanonicalSlots(schema, slots) && WellFormed(schema)
    requires n < |rs| && FieldWith(schema, rs[n].tag) >= 0 && |rs[n].content| < TWO_32
    ensures Apply(schema, Progress(schema, slots, rs, n), rs[n]) == Some(Progress(schema, slots, rs, n + 1))
    decreases schema, 0
  {
    hide SpellsField, CanonicalSlot, WellFormed, DecodeSlot, OfTag, Partial, Store, ProgressOf;
    var k := FieldWith(schema, rs[n].tag);
    var ks := OfTag(rs, schema[k].tag);
    var j := |OfTag(rs[..n], schema[k].tag)|;
    FieldIsFound(schema, k);
    SlotCanonical(schema, slots, k);
    OfTagPrefix(rs, schema[k].tag, n);
    OfTagPrefix(rs, schema[k].tag, n + 1);
    assert ks[j] == rs[n] by { assert OfTag(rs[..n + 1], schema[k].tag)[j] == rs[n]; }
    FieldArrives(schema[k], slots[k], ks, j);
    ProgressAt(schema, slots, rs, n, k);
    ProgressAt(schema, slots, rs, n + 1, k);
    StoreProgress(schema, slots, rs, n, k);
  }

  lemma ProgressAt(schema: seq<Field>, slots: seq<Slot>, rs: seq<Record>, n: nat, k: nat)
    requires Spells(schema, slots, rs) && n <= |rs| && k < |schema|
    ensures |OfTag(rs[..n], schema[k].tag)| <= |OfTag(rs, schema[k].tag)|
    ensures Progress(schema, slots, rs, n)[k] ==
            Partial(schema[k], slots[k], OfTag(rs, schema[k].tag), |OfTag(rs[..n], schema[k].tag)|)
  {
    OfTagPrefix(rs, schema[k].tag, n);
  }

  /** Storing it leaves the other fields as they were: in a oneof, the others have not been chosen. */
  lemma StoreProgress(schema: seq<Field>, slots: seq<Slot>, rs: seq<Record>, n: nat, k: nat)
    requires Spells(schema, slots, rs) && CanonicalSlots(schema, slots) && WellFormed(schema)
    requires n < |rs| && k == FieldWith(schema, rs[n].tag)
    ensures Store(schema, Progress(schema, slots, rs, n), k, Progress(schema, slots, rs, n + 1)[k]) ==
            Progress(schema, slots, rs, n + 1)
  {
    hide Canonical, WellFormed, OfTag, Partial, Progress, Spells, CanonicalSlot;
    var before, after := Progress(schema, slots, rs, n), Progress(schema, slots, rs, n + 1);
    var stored := Store(schema, before, k, after[k]);
    forall i | 0 <= i < |schema| ensures stored[i] == after[i] {
      if i != k {
        TagsDiffer(schema, i, k);
        OfTagPrefix(rs, schema[i].tag, n);
        ProgressAt(schema, slots, rs, n, i);
        ProgressAt(schema, slots, rs, n + 1, i);
        assert before[i] == after[i];
        if schema[k].rule.OneOf? && schema[i].rule == schema[k].rule {
          OthersUnchosen(schema, slots, rs, n, k, i);
        }
      }
    }
  }

  lemma TagsDiffer(schema: seq<Field>, i: nat, k: nat)
    requires WellFormed(schema) && i < |schema| && k < |schema| && i != k
    ensures schema[i].tag != schema[k].tag
  {
  }

  /** While a member of a oneof arrives, the other members are at their defaults. */
  lemma OthersUnchosen(schema: seq<Field>, slots: seq<Slot>, rs: seq<Record>, n: nat, k: nat, i: nat)
    requires Spells(schema, slots, rs) && CanonicalSlots(schema, slots) && WellFormed(schema)
    requires n < |rs| && k == FieldWith(schema, rs[n].tag) && i < |schema| && i != k
    requires schema[k].rule.OneOf? && schema[i].rule == schema[k].rule
    ensures Progress(schema, slots, rs, n)[i] == Choice(false, Zero(schema[i].kind))
  {
    hide Canonical, WellFormed, Carries, CarriesLast, PartialValue, OfTag, Progress, Zero;
    OfTagPrefix(rs, schema[k].tag, n);
    OfTagPrefix(rs, schema[k].tag, n + 1);
    assert |OfTag(rs, schema[k].tag)| > 0;
    assert SpellsField(schema[k], slots[k], OfTag(rs, schema[k].tag));
    assert slots[k].Choice? && slots[k].chosen;
    if i < k { OneChosen(schema, slots, i, k); } else { OneChosen(schema, slots, k, i); }
    assert SpellsField(schema[i], slots[i], OfTag(rs, schema[i].tag));
    ProgressAt(schema, slots, rs, n, i);
  }

  lemma {:induction false} MessageArrives(schema: seq<Field>, slots: seq<Slot>, rs: seq<Record>, m: nat, n: nat)
    requires Spells(schema, slots, rs) && CanonicalSlots(schema, slots) && WellFormed(schema)
    requires m <= n <= |rs| && forall i :: m <= i < n ==> |rs[i].content| < TWO_32
    ensures Applied(schema, Progress(schema, slots, rs, m), rs[m..n]) == Some(Progress(schema, slots, rs, n))
    decreases schema, 1, n
  {
    hide SpellsField, Canonical, WellFormed, Apply, OfTag, Partial, Progress;
    if m < n {
      var i := n - 1;
      MessageArrives(schema, slots, rs, m, i);
      assert rs[m..n][..i - m] == rs[m..i] && rs[m..n][i - m] == rs[i];
      if FieldWith(schema, rs[i].tag) < 0 {
        UnknownArrives(schema, slots, rs, i);
      } else {
        KnownArrives(schema, slots, rs, i);
      }
    }
  }

  lemma NothingArrived(schema: seq<Field>, slots: seq<Slot>, rs: seq<Record>)
    requires Spells(schema, slots, rs) && CanonicalSlots(schema, slots)
    ensures Progress(schema, slots, rs, 0) == Defaults(schema)
  {
    hide SpellsField, CanonicalSlot, Partial;
    forall k | 0 <= k < |schema| ensures Progress(schema, slots, rs, 0)[k] == DefaultSlot(schema[k]) {
      SlotCanonical(schema, slots, k);
      PartialEnds(schema[k], slots[k], OfTag(rs, schema[k].tag));
      assert OfTag(rs[..0], schema[k].tag) == [];
    }
  }

  lemma EverythingArrived(schema: seq<Field>, slots: seq<Slot>, rs: seq<Record>)
    requires Spells(schema, slots, rs) && CanonicalSlots(schema, slots)
    ensures Progress(schema, slots, rs, |rs|) == slots
  {
    hide SpellsField, CanonicalSlot, Partial;
    assert rs[..|rs|] == rs;
    forall k | 0 <= k < |schema| ensures Progress(schema, slots, rs, |rs|)[k] == slots[k] {
      SlotCanonical(schema, slots, k);
      PartialEnds(schema[k], slots[k], OfTag(rs, schema[k].tag));
    }
  }

  lemma NothingLeft(schema: seq<Field>, slots: seq<Slot>)
    requires |schema| == |slots|
    ensures DecodeSlots(schema, slots, []) == Some(slots)
  {
  }

  /** No record is longer than the message. */
  lemma {:induction false} ContentsFit(rs: seq<Record>, i: nat)
    requires i < |rs|
    ensures |rs[i].content| <= |Joined(rs)|
    decreases |rs|
  {
    if i < |rs| - 1 {
      ContentsFit(rs[..|rs| - 1], i);
    }
  }

  /** Every spelling of a message decodes to it: at any depth the order of fields, the fields of a newer schema,
      earlier occurrences of a field, a message in several pieces, and the packing of arrays make no
      difference. */
  lemma {:induction false} SpellingDecodes(schema: seq<Field>, slots: seq<Slot>, rs: seq<Record>)
    requires Spells(schema, slots, rs) && CanonicalSlots(schema, slots) && WellFormed(schema) && |Joined(rs)| < TWO_32
    ensures Decode(schema, Joined(rs)) == Some(slots)
    decreases schema, 2
  {
    hide SpellsField, Canonical, WellFormed, Applied, Joined, DecodeSlots, Progress;
    forall i | 0 <= i < |rs| ensures |rs[i].content| < TWO_32 {
      ContentsFit(rs, i);
    }
    MessageArrives(schema, slots, rs, 0, |rs|);
    assert rs[0..|rs|] == rs;
    RunDecodes(schema, slots, rs, 0, |rs|);
    NothingArrived(schema, slots, rs);
    EverythingArrived(schema, slots, rs);
  }

  lemma NestedRoundTrip(schema: seq<Field>, v: Value, c: seq<byte>)
    requires Canonical(Nested(schema), v) && WellFormed(schema) && Carries(Nested(schema), v, c) && |c| < TWO_32
    ensures DecodeValue(Nested(schema), Zero(Nested(schema)), c) == Got(v, |c|) && |c| > 0
    decreases schema, 3
  {
    hide ReadLength, WithLength, DecodeSlots, Canonical, Spells, Joined;
    var rs :| c == WithLength(Joined(rs)) && Spells(schema, v.slots, rs);
    LengthLonger(Joined(rs));
    LengthRoundTrip(Joined(rs));
    SpellingDecodes(schema, v.slots, rs);
  }

  /** Every value comes back, nested messages included. */
  lemma {:induction false} ValueRoundTrip(kind: Kind, v: Value, c: seq<byte>)
    requires Canonical(kind, v) && WellFormedKind(kind) && Carries(kind, v, c) && |c| < TWO_32
    ensures DecodeValue(kind, Zero(kind), c) == Got(v, |c|) && |c| > 0
    decreases kind, 0
  {
    match kind
    case Nested(schema) => NestedRoundTrip(schema, v, c);
    case Bytes(_) => BytesRoundTrip(kind, v);
    case Text(_) => BytesRoundTrip(kind, v);
    case FixedBytes(_) => BytesRoundTrip(kind, v);
    case _ => NumberRoundTrip(kind, v);
  }

  // ---- what the encoder writes is a spelling ------------------------------------------------------------

  lemma {:induction false} RecordsProper(schema: seq<Field>, slots: seq<Slot>, n: nat)
    requires WellFormed(schema) && n <= |schema| == |slots|
    ensures forall i :: 0 <= i < |RecordsOf(schema, slots, n)| ==>
              ProperTag(RecordsOf(schema, slots, n)[i]) && FieldWith(schema, RecordsOf(schema, slots, n)[i].tag) >= 0
    decreases n
  {
    hide FieldRecords, WellFormed;
    if n > 0 {
      RecordsProper(schema, slots, n - 1);
      FieldIsFound(schema, n - 1);
      TagsOfField(schema[n - 1], slots[n - 1]);
    }
  }

  lemma TagsOfField(f: Field, s: Slot)
    ensures forall i :: 0 <= i < |FieldRecords(f, s)| ==> FieldRecords(f, s)[i].tag == f.tag && FieldRecords(f, s)[i].wireType < 8
  {
    if Fits(f, s) && f.rule.Repeated? && !Packable(f.kind) {
      ElementTags(f, s.values);
    }
  }

  lemma {:induction false} ElementTags(f: Field, vs: seq<Value>)
    requires AllStorable(f.kind, vs)
    ensures forall i :: 0 <= i < |ElementRecords(f, vs)| ==>
              ElementRecords(f, vs)[i].tag == f.tag && ElementRecords(f, vs)[i].wireType < 8
    decreases |vs|
  {
    hide EncodeValue, Storable;
    if vs != [] {
      ElementTags(f, vs[..|vs| - 1]);
    }
  }

  lemma {:induction false} OfTagAppend(a: seq<Record>, b: seq<Record>, tag: nat)
    ensures OfTag(a + b, tag) == OfTag(a, tag) + OfTag(b, tag)
    decreases |b|
  {
    if b == [] {
      assert a + b == a;
    } else {
      var n := |b| - 1;
      assert (a + b)[..|a + b| - 1] == a + b[..n];
      OfTagAppend(a, b[..n], tag);
    }
  }

  lemma {:induction false} OfTagUniform(rs: seq<Record>, own: nat, tag: nat)
    requires forall i :: 0 <= i < |rs| ==> rs[i].tag == own
    ensures OfTag(rs, tag) == if tag == own then rs else []
    decreases |rs|
  {
    if rs != [] {
      OfTagUniform(rs[..|rs| - 1], own, tag);
    }
  }

  /** The encoder writes the records of field `k` and no others with its tag. */
  lemma {:induction false} WrittenOfTag(schema: seq<Field>, slots: seq<Slot>, n: nat, k: nat)
    requires WellFormed(schema) && n <= |schema| == |slots| && k < |schema|
    ensures OfTag(RecordsOf(schema, slots, n), schema[k].tag) == if k < n then FieldRecords(schema[k], slots[k]) else []
    decreases n
  {
    hide FieldRecords, WellFormed, RecordsOf, OfTag;
    LastField(schema, slots, n);
    if n == 0 {
      OfTagUniform([], 0, schema[k].tag);
    } else {
      var i := n - 1;
      WrittenOfTag(schema, slots, i, k);
      OfTagAppend(RecordsOf(schema, slots, i), FieldRecords(schema[i], slots[i]), schema[k].tag);
      TagsOfField(schema[i], slots[i]);
      OfTagUniform(FieldRecords(schema[i], slots[i]), schema[i].tag, schema[k].tag);
      if k != i {
        TagsDiffer(schema, k, i);
      }
    }
  }

  lemma LastField(schema: seq<Field>, slots: seq<Slot>, n: nat)
    requires n <= |schema| == |slots|
    ensures RecordsOf(schema, slots, n) ==
            if n == 0 then [] else RecordsOf(schema, slots, n - 1) + FieldRecords(schema[n - 1], slots[n - 1])
  {
  }

  lemma {:induction false} ElementsAt(f: Field, vs: seq<Value>)
    requires AllStorable(f.kind, vs)
    ensures |ElementRecords(f, vs)| == |vs|
    ensures forall i :: 0 <= i < |vs| ==> ElementRecords(f, vs)[i] == ValueRecord(f, vs[i])
    decreases |vs|
  {
    hide EncodeValue, Storable;
    if vs != [] {
      ElementsAt(f, vs[..|vs| - 1]);
    }
  }

  function Singles(vs: seq<Value>): (parts: seq<seq<Value>>)
    ensures |parts| == |vs| && forall i :: 0 <= i < |vs| ==> parts[i] == [vs[i]]
  {
    seq(|vs|, i requires 0 <= i < |vs| => [vs[i]])
  }

  lemma {:induction false} FlatSingles(vs: seq<Value>)
    ensures Flat(Singles(vs)) == vs
  {
    if vs != [] {
      var n := |vs| - 1;
      assert Singles(vs)[..n] == Singles(vs[..n]);
      FlatSingles(vs[..n]);
    }
  }

  lemma {:induction false} EncodedCarries(kind: Kind, v: Value)
    requires Canonical(kind, v) && WellFormedKind(kind)
    ensures Carries(kind, v, EncodeValue(kind, v))
    decreases kind, 0
  {
    hide Spells;
    if kind.Nested? {
      EncodedSpells(kind.schema, v.slots);
      var rs := RecordsOf(kind.schema, v.slots, |kind.schema|);
      assert EncodeValue(kind, v) == WithLength(Joined(rs)) && Spells(kind.schema, v.slots, rs);
    }
  }

  lemma OnceIsLast(f: Field, v: Value, r: Record)
    requires CarriesOne(f, v, r)
    ensures CarriesLast(f, v, [r])
  {
    hide Spells, WithLength, Joined;
    if f.kind.Nested? {
      var rs :| r.content == WithLength(Joined(rs)) && Spells(f.kind.schema, v.slots, rs);
      assert Flat([rs]) == rs;
      assert MessageRuns([rs], [r]);
    }
  }

  lemma FieldSpelled(f: Field, s: Slot)
    requires CanonicalSlot(f, s) && WellFormedKind(f.kind)
    ensures SpellsField(f, s, FieldRecords(f, s))
    decreases f, 1
  {
    hide Canonical, Carries, EncodeValue, WellFormedKind, Storable;
    if f.rule.Repeated? {
      ArraySpelled(f, s);
    } else if FieldRecords(f, s) == [] {
      AbsentIsDefault(f, s);
    } else {
      EncodedCarries(f.kind, s.value);
      assert FieldRecords(f, s) == [ValueRecord(f, s.value)];
      OnceIsLast(f, s.value, ValueRecord(f, s.value));
    }
  }

  /** A field at its default is not written, but for a singular byte array of fixed size, which has no empty form. */
  lemma DefaultsSilent(f: Field)
    ensures FieldRecords(f, DefaultSlot(f)) == [] <==>
              !(f.rule.Singular? && Fits(f, DefaultSlot(f)) && (f.kind.Nested? || (f.kind.FixedBytes? && f.kind.size > 0)))
  {
    hide EncodeValue;
  }

  /** Fields are written in the order of the schema: with its tags in order, so are those of the records. */
  lemma {:induction false} WrittenInOrder(schema: seq<Field>, slots: seq<Slot>, n: nat)
    requires n <= |schema| == |slots| && forall j, k :: 0 <= j < k < |schema| ==> schema[j].tag < schema[k].tag
    ensures var rs := RecordsOf(schema, slots, n);
            && (forall i :: 0 <= i < |rs| ==> n > 0 && rs[i].tag <= schema[n - 1].tag)
            && forall i, j :: 0 <= i < j < |rs| ==> rs[i].tag <= rs[j].tag
    decreases n
  {
    hide FieldRecords, RecordsOf;
    LastField(schema, slots, n);
    if n > 0 {
      WrittenInOrder(schema, slots, n - 1);
      TagsOfField(schema[n - 1], slots[n - 1]);
    }
  }

  /** A field the encoder writes nothing for is one at its default. */
  lemma AbsentIsDefault(f: Field, s: Slot)
    requires CanonicalSlot(f, s) && !f.rule.Repeated? && FieldRecords(f, s) == [] && WellFormedKind(f.kind)
    ensures s == DefaultSlot(f)
  {
    hide EncodeValue;
  }

  lemma ArraySpelled(f: Field, s: Slot)
    requires f.rule.Repeated? && CanonicalSlot(f, s) && WellFormedKind(f.kind)
    ensures SpellsField(f, s, FieldRecords(f, s))
    decreases f, 0
  {
    hide Canonical, Carries, EncodeValue, WellFormedKind, Storable, Packed;
    var vs, ks := s.values, FieldRecords(f, s);
    forall i | 0 <= i < |vs| ensures Canonical(f.kind, vs[i]) && Storable(f.kind, vs[i]) && Carries(f.kind, vs[i], EncodeValue(f.kind, vs[i])) {
      StorableIfCanonical(f.kind, vs[i]);
      EncodedCarries(f.kind, vs[i]);
    }
    if vs == [] {
      assert CarriesParts(f, [], ks) && Flat([]) == vs;
    } else if Packable(f.kind) {
      var parts := [vs];
      assert parts[..0] == [];
      assert CarriesPart(f, parts[0], ks[0]);
      assert CarriesParts(f, parts, ks) && Flat(parts) == vs;
    } else {
      ElementsAt(f, vs);
      FlatSingles(vs);
      forall i | 0 <= i < |vs| ensures CarriesPart(f, Singles(vs)[i], ks[i]) {
        assert ks[i] == ValueRecord(f, vs[i]);
      }
      assert CarriesParts(f, Singles(vs), ks) && Flat(Singles(vs)) == vs;
    }
  }

  /** What the encoder writes spells the message. */
  lemma EncodedSpells(schema: seq<Field>, slots: seq<Slot>)
    requires CanonicalSlots(schema, slots) && WellFormed(schema)
    ensures |slots| == |schema| && Spells(schema, slots, RecordsOf(schema, slots, |schema|))
    decreases schema, 1
  {
    hide SpellsField, WellFormed, FieldRecords, RecordsOf, CanonicalSlot;
    RecordsProper(schema, slots, |schema|);
    forall k | 0 <= k < |schema|
      ensures SpellsField(schema[k], slots[k], OfTag(RecordsOf(schema, slots, |schema|), schema[k].tag))
    {
      FieldIsFound(schema, k);
      SlotCanonical(schema, slots, k);
      WrittenOfTag(schema, slots, |schema|, k);
      FieldSpelled(schema[k], slots[k]);
    }
  }

  /** Decoding inverts encoding. */
  lemma MessageRoundTrip(schema: seq<Field>, slots: seq<Slot>)
    requires CanonicalSlots(schema, slots) && WellFormed(schema) && |slots| == |schema| && |Encode(schema, slots)| < TWO_32
    ensures Decode(schema, Encode(schema, slots)) == Some(slots)
  {
    hide Canonical, WellFormed, Spells, RecordsOf, Decode;
    EncodedSpells(schema, slots);
    SpellingDecodes(schema, slots, RecordsOf(schema, slots, |schema|));
  }
}
