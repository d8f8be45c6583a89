/** Protocol Buffers messages as the embedded codec reads and writes them: singular, optional, repeated,
    oneof and nested fields over a schema.

    The functions say what the bytes mean; the streams that consume and produce them are in the modules
    `MessageInput` and `MessageOutput`. */
module MessageCodec {
  import opened Varint

  /** How the value of a field is stored and encoded. `bits` is the width of the integer in the message
      struct; the capacities are those of the fixed buffers. */
  datatype Kind =
    | Unsigned(bits: nat)
    | Signed(bits: nat)
    | ZigZagged(bits: nat)
    | Boolean
    | Fixed32
    | Fixed64
    | Bytes(capacity: nat)
    | Text(capacity: nat)
    | FixedBytes(size: nat)
    | Nested(schema: seq<Field>)

  datatype Rule = Singular | Optional | Repeated(most: nat) | OneOf(group: nat)

  datatype Field = Field(tag: nat, kind: Kind, rule: Rule)

  datatype Value = Num(n: int) | Data(bytes: seq<byte>) | Sub(slots: seq<Slot>)

  /** One field of a message struct. `Choice` is a member of a oneof: at most one of a group is chosen. */
  datatype Slot = One(value: Value) | Maybe(has: bool, value: Value) | Many(values: seq<Value>) | Choice(chosen: bool, value: Value)

  const WT_VARINT: nat := 0
  const WT_64BIT: nat := 1
  const WT_STRING: nat := 2
  const WT_32BIT: nat := 5
  const MAX_TAG: nat := 0x2000_0000

  function WireType(kind: Kind): nat {
    match kind
    case Fixed32 => WT_32BIT
    case Fixed64 => WT_64BIT
    case Bytes(_) => WT_STRING
    case Text(_) => WT_STRING
    case FixedBytes(_) => WT_STRING
    case Nested(_) => WT_STRING
    case _ => WT_VARINT
  }

  predicate Packable(kind: Kind) {
    WireType(kind) != WT_STRING
  }

  predicate Width(bits: nat) {
    bits == 8 || bits == 16 || bits == 32 || bits == 64
  }

  function Pow2(bits: nat): (r: nat)
    requires Width(bits)
    ensures 0x100 <= r <= TWO_64 && r % 2 == 0
  {
    if bits == 8 then 0x100 else if bits == 16 then 0x1_0000 else if bits == 32 then TWO_32 else TWO_64
  }

  predicate InSigned(x: int, bits: nat)
    requires Width(bits)
  {
    -(Pow2(bits) / 2) <= x < Pow2(bits) / 2
  }

  /** The value of a struct member set to zeros. */
  function Zero(kind: Kind): Value {
    match kind
    case Bytes(_) => Data([])
    case Text(_) => Data([])
    case FixedBytes(size) => Data(seq<byte>(size, i => 0))
    case Nested(schema) => Sub(Defaults(schema))
    case _ => Num(0)
  }

  function DefaultSlot(f: Field): Slot {
    match f.rule
    case Singular => One(Zero(f.kind))
    case Optional => Maybe(false, Zero(f.kind))
    case Repeated(_) => Many([])
    case OneOf(_) => Choice(false, Zero(f.kind))
  }

  /** A message struct before anything is decoded into it. */
  function Defaults(schema: seq<Field>): (r: seq<Slot>)
    ensures |r| == |schema|
    ensures forall i :: 0 <= i < |schema| ==> r[i] == DefaultSlot(schema[i])
    decreases schema
  {
    seq(|schema|, i requires 0 <= i < |schema| => DefaultSlot(schema[i]))
  }

  // ---- encoding ------------------------------------------------------------------------------

  function LittleEndian(n: nat, size: nat): (r: seq<byte>)
    ensures |r| == size
  {
    if size == 0 then [] else [n % 256] + LittleEndian(n / 256, size - 1)
  }

  function FromLittleEndian(s: seq<byte>): nat {
    if s == [] then 0 else s[0] + 256 * FromLittleEndian(s[1..])
  }

  function WithLength(s: seq<byte>): seq<byte> {
    Base128(|s|) + s
  }

  /** What a struct member of this kind can hold, on its own. */
  predicate Storable(kind: Kind, v: Value) {
    match kind
    case Unsigned(bits) => Width(bits) && v.Num? && 0 <= v.n < Pow2(bits)
    case Signed(bits) => Width(bits) && v.Num? && InSigned(v.n, bits)
    case ZigZagged(bits) => Width(bits) && v.Num? && InSigned(v.n, bits)
    case Boolean => v.Num? && 0 <= v.n <= 1
    case Fixed32 => v.Num? && 0 <= v.n < TWO_32
    case Fixed64 => v.Num? && 0 <= v.n < TWO_64
    case Bytes(capacity) => v.Data? && |v.bytes| <= capacity
    case Text(capacity) => v.Data? && |v.bytes| <= capacity && forall i :: 0 <= i < |v.bytes| ==> v.bytes[i] != 0
    case FixedBytes(size) => v.Data? && |v.bytes| == size
    case Nested(schema) => v.Sub? && |v.slots| == |schema|
  }

  /** A message struct in the state a decoder leaves it in: every value in range, what is absent at its
      default, and at most one member of a oneof chosen. */
  ghost predicate Canonical(kind: Kind, v: Value)
    decreases kind
  {
    && Storable(kind, v)
    && match kind
       case Nested(schema) =>
         && (forall k :: 0 <= k < |schema| ==> CanonicalSlot(schema[k], v.slots[k]))
         && (forall j, k :: 0 <= j < k < |schema| ==> !BothChosen(schema[j], v.slots[j], schema[k], v.slots[k]))
       case _ => true
  }

  predicate BothChosen(f: Field, s: Slot, g: Field, t: Slot) {
    f.rule.OneOf? && g.rule == f.rule && s.Choice? && t.Choice? && s.chosen && t.chosen
  }

  ghost predicate CanonicalSlot(f: Field, s: Slot)
    decreases f
  {
    match f.rule
    case Singular => s.One? && Canonical(f.kind, s.value)
    case Optional => s.Maybe? && (if s.has then Canonical(f.kind, s.value) else s.value == Zero(f.kind))
    case Repeated(most) => s.Many? && |s.values| <= most && forall i :: 0 <= i < |s.values| ==> Canonical(f.kind, s.values[i])
    case OneOf(_) => s.Choice? && (if s.chosen then Canonical(f.kind, s.value) else s.value == Zero(f.kind))
  }

  /** What the generator promises: distinct tags in range, at every level. A singular field is never a
      message, since those always come with a presence flag. */
  predicate WellFormed(schema: seq<Field>)
    decreases schema
  {
    && (forall k :: 0 <= k < |schema| ==> 0 < schema[k].tag < MAX_TAG)
    && (forall j, k :: 0 <= j < k < |schema| ==> schema[j].tag != schema[k].tag)
    && (forall k :: 0 <= k < |schema| ==> WellFormedField(schema[k]))
  }

  predicate WellFormedField(f: Field)
    decreases f
  {
    match f.kind
    case Nested(schema) => !f.rule.Singular? && WellFormed(schema)
    case FixedBytes(size) => size > 0
    case _ => true
  }

  predicate AllStorable(kind: Kind, vs: seq<Value>) {
    forall i :: 0 <= i < |vs| ==> Storable(kind, vs[i])
  }

  /** The bytes of one value, without its tag. */
  function EncodeValue(kind: Kind, v: Value): seq<byte>
    requires Storable(kind, v)
    decreases kind, 1
  {
    match kind
    case Unsigned(_) => Base128(v.n)
    case Signed(_) => Base128(Pattern(v.n))
    case ZigZagged(_) => Base128(ZigZag(v.n))
    case Boolean => Base128(v.n)
    case Fixed32 => LittleEndian(v.n, 4)
    case Fixed64 => LittleEndian(v.n, 8)
    case Bytes(_) => WithLength(v.bytes)
    case Text(_) => WithLength(v.bytes)
    case FixedBytes(_) => WithLength(v.bytes)
    case Nested(schema) => WithLength(Joined(RecordsOf(schema, v.slots, |schema|)))
  }

  /** A tag and what follows it up to the next tag. */
  datatype Record = Record(tag: nat, wireType: nat, content: seq<byte>)

  function RecordBytes(r: Record): seq<byte> {
    Base128(r.tag * 8 + r.wireType) + r.content
  }

  function Joined(rs: seq<Record>): seq<byte> {
    if rs == [] then [] else Joined(rs[..|rs| - 1]) + RecordBytes(rs[|rs| - 1])
  }

  function ValueRecord(f: Field, v: Value): Record
    requires Storable(f.kind, v)
    decreases f, 0
  {
    Record(f.tag, WireType(f.kind), EncodeValue(f.kind, v))
  }

  /** The elements of an array, one record each. */
  function ElementRecords(f: Field, vs: seq<Value>): seq<Record>
    requires AllStorable(f.kind, vs)
    decreases f, 1, |vs|
  {
    if vs == [] then []
    else ElementRecords(f, vs[..|vs| - 1]) + [ValueRecord(f, vs[|vs| - 1])]
  }

  /** The elements of an array, back to back. */
  function Packed(kind: Kind, vs: seq<Value>): seq<byte>
    requires AllStorable(kind, vs)
    decreases kind, 2, |vs|
  {
    if vs == [] then [] else Packed(kind, vs[..|vs| - 1]) + EncodeValue(kind, vs[|vs| - 1])
  }

  /** Whether the encoder omits a singular field. */
  predicate IsZero(kind: Kind, v: Value) {
    match kind
    case Bytes(_) => v == Data([])
    case Text(_) => v == Data([])
    case FixedBytes(size) => size == 0
    case Nested(_) => false
    case _ => v == Num(0)
  }

  /** A slot holds what its field can store. */
  predicate Fits(f: Field, s: Slot) {
    match f.rule
    case Singular => s.One? && Storable(f.kind, s.value)
    case Optional => s.Maybe? && (s.has ==> Storable(f.kind, s.value))
    case Repeated(most) => s.Many? && |s.values| <= most && AllStorable(f.kind, s.values)
    case OneOf(_) => s.Choice? && (s.chosen ==> Storable(f.kind, s.value))
  }

  /** The records the encoder writes for one field. */
  function FieldRecords(f: Field, s: Slot): seq<Record>
    decreases f, 2
  {
    if !Fits(f, s) then []
    else
      match f.rule
      case Singular => if IsZero(f.kind, s.value) then [] else [ValueRecord(f, s.value)]
      case Optional => if s.has then [ValueRecord(f, s.value)] else []
      case OneOf(_) => if s.chosen then [ValueRecord(f, s.value)] else []
      case Repeated(_) =>
        if s.values == [] then []
        else if Packable(f.kind) then [Record(f.tag, WT_STRING, WithLength(Packed(f.kind, s.values)))]
        else ElementRecords(f, s.values)
  }

  /** The records of the first `n` fields. */
  function RecordsOf(schema: seq<Field>, slots: seq<Slot>, n: nat): seq<Record>
    requires n <= |schema| == |slots|
    decreases schema, n
  {
    if n == 0 then [] else RecordsOf(schema, slots, n - 1) + FieldRecords(schema[n - 1], slots[n - 1])
  }

  /** The encoding of a message. */
  function Encode(schema: seq<Field>, slots: seq<Slot>): seq<byte>
    requires |schema| == |slots|
  {
    Joined(RecordsOf(schema, slots, |schema|))
  }

  // ---- decoding ---------------------------------------------------------------------------------

  datatype Read<T> = Failed | Got(value: T, size: nat)

  /** A length prefix and the bytes it announces. */
  function ReadLength(s: seq<byte>): (r: Read<nat>)
    ensures r.Got? ==> 0 < r.size && r.size + r.value <= |s|
  {
    match Parse32(s)
    case None => Failed
    case Some(d) => if d.size + d.value <= |s| then Got(d.value, d.size) else Failed
  }

  function ToSigned(v: nat, bits: nat): int
    requires Width(bits)
  {
    var low := v % Pow2(bits);
    if low >= Pow2(bits) / 2 then low - Pow2(bits) else low
  }

  /** One value of `kind` at the head of `s`. A nested message is decoded over `base`. */
  function DecodeValue(kind: Kind, base: Value, s: seq<byte>): (r: Read<Value>)
    ensures r.Got? ==> r.size <= |s|
    decreases |s|, 1
  {
    match kind
    case Unsigned(bits) =>
      (match Parse64(s)
       case None => Failed
       case Some(d) => if Width(bits) && d.value < Pow2(bits) then Got(Num(d.value), d.size) else Failed)
    case Signed(bits) =>
      (match Parse64(s)
       case None => Failed
       case Some(d) =>
         if !Width(bits) then Failed
         else
           var x := ToSigned(d.value, if bits == 64 then 64 else 32);
           if InSigned(x, bits) then Got(Num(x), d.size) else Failed)
    case ZigZagged(bits) =>
      (match Parse64(s)
       case None => Failed
       case Some(d) =>
         Parse64Fits(s);
         var x := UnZigZag(d.value);
         if Width(bits) && InSigned(x, bits) then Got(Num(x), d.size) else Failed)
    case Boolean =>
      (match Parse32(s)
       case None => Failed
       case Some(d) => Got(Num(if d.value != 0 then 1 else 0), d.size))
    case Fixed32 => if |s| < 4 then Failed else Got(Num(FromLittleEndian(s[..4])), 4)
    case Fixed64 => if |s| < 8 then Failed else Got(Num(FromLittleEndian(s[..8])), 8)
    case Bytes(capacity) =>
      (match ReadLength(s)
       case Failed => Failed
       case Got(n, at) => if n > capacity then Failed else Got(Data(s[at..at + n]), at + n))
    case Text(capacity) =>
      (match ReadLength(s)
       case Failed => Failed
       case Got(n, at) => if n > capacity then Failed else Got(Data(s[at..at + n]), at + n))
    case FixedBytes(size) =>
      (match ReadLength(s)
       case Failed => Failed
       case Got(n, at) =>
         if n == 0 then Got(Zero(kind), at) else if n != size then Failed else Got(Data(s[at..at + n]), at + n))
    case Nested(schema) =>
      (match ReadLength(s)
       case Failed => Failed
       case Got(n, at) =>
         if !base.Sub? || |base.slots| != |schema| then Failed
         else
           match DecodeSlots(schema, base.slots, s[at..at + n])
           case None => Failed
           case Some(slots) => Got(Sub(slots), at + n))
  }

  /** The elements of a packed array, all of `s`, appended to `values`. */
  function DecodePacked(kind: Kind, values: seq<Value>, most: nat, s: seq<byte>): Option<seq<Value>>
    decreases |s|, 2
  {
    if s == [] then Some(values)
    else if |values| >= most then None
    else
      match DecodeValue(kind, Zero(kind), s)
      case Failed => None
      case Got(v, n) => if n == 0 then None else DecodePacked(kind, values + [v], most, s[n..])
  }

  /** The slot of field `f` after the content of a record of wire type `wt` at the head of `s`. */
  function DecodeSlot(f: Field, slot: Slot, wt: nat, s: seq<byte>): (r: Read<Slot>)
    ensures r.Got? ==> r.size <= |s|
    decreases |s|, 3
  {
    if !SlotOf(f, slot) then Failed
    else if f.rule.Repeated? && wt == WT_STRING && Packable(f.kind) then
      match ReadLength(s)
      case Failed => Failed
      case Got(n, at) =>
        match DecodePacked(f.kind, slot.values, f.rule.most, s[at..at + n])
        case None => Failed
        case Some(values) => Got(Many(values), at + n)
    else if wt != WireType(f.kind) then Failed
    else
      match f.rule
      case Repeated(most) =>
        if |slot.values| >= most then Failed
        else
          (match DecodeValue(f.kind, Zero(f.kind), s)
           case Failed => Failed
           case Got(v, n) => Got(Many(slot.values + [v]), n))
      case Singular =>
        (match DecodeValue(f.kind, slot.value, s)
         case Failed => Failed
         case Got(v, n) => Got(One(v), n))
      case Optional =>
        (match DecodeValue(f.kind, slot.value, s)
         case Failed => Failed
         case Got(v, n) => Got(Maybe(true, v), n))
      case OneOf(_) =>
        (match DecodeValue(f.kind, if slot.chosen then slot.value else Zero(f.kind), s)
         case Failed => Failed
         case Got(v, n) => Got(Choice(true, v), n))
  }

  predicate SlotOf(f: Field, s: Slot) {
    match f.rule
    case Singular => s.One?
    case Optional => s.Maybe?
    case Repeated(_) => s.Many?
    case OneOf(_) => s.Choice?
  }

  /** The other members of a oneof give way to the one just decoded. */
  function Store(schema: seq<Field>, slots: seq<Slot>, k: nat, slot: Slot): (r: seq<Slot>)
    requires k < |schema| == |slots|
    ensures |r| == |slots|
  {
    seq(|slots|, i requires 0 <= i < |slots| =>
      if i == k then slot
      else if schema[k].rule.OneOf? && schema[i].rule == schema[k].rule then Choice(false, Zero(schema[i].kind))
      else slots[i])
  }

  /** How many bytes an unknown field takes. */
  function Skip(wt: nat, s: seq<byte>): (r: Read<()>)
    ensures r.Got? ==> r.size <= |s|
  {
    if wt == WT_VARINT then (if Len(s) == 0 then Failed else Got((), Len(s)))
    else if wt == WT_64BIT then (if |s| < 8 then Failed else Got((), 8))
    else if wt == WT_STRING then
      match ReadLength(s)
      case Failed => Failed
      case Got(n, at) => Got((), at + n)
    else if wt == WT_32BIT then (if |s| < 4 then Failed else Got((), 4))
    else Failed
  }

  /** The field with this tag, or -1. */
  function FieldWith(schema: seq<Field>, tag: nat): (k: int)
    ensures -1 <= k < |schema|
    ensures k >= 0 ==> schema[k].tag == tag && forall j :: 0 <= j < k ==> schema[j].tag != tag
    ensures k < 0 ==> forall j :: 0 <= j < |schema| ==> schema[j].tag != tag
  {
    if schema == [] then -1
    else if schema[0].tag == tag then 0
    else var k := FieldWith(schema[1..], tag); if k < 0 then -1 else k + 1
  }

  /** One record's worth of decoding: the slots after the field whose tag is `tag`. */
  function DecodeField(schema: seq<Field>, slots: seq<Slot>, tag: nat, wt: nat, s: seq<byte>): (r: Read<seq<Slot>>)
    requires |schema| == |slots|
    ensures r.Got? ==> r.size <= |s| && |r.value| == |slots|
    decreases |s|, 4
  {
    if tag == 0 then Failed
    else
      var k := FieldWith(schema, tag);
      if k < 0 then
        match Skip(wt, s)
        case Failed => Failed
        case Got(_, n) => Got(slots, n)
      else
        match DecodeSlot(schema[k], slots[k], wt, s)
        case Failed => Failed
        case Got(slot, n) => Got(Store(schema, slots, k, slot), n)
  }

  /** All fields in `s`, over `slots`. */
  function DecodeSlots(schema: seq<Field>, slots: seq<Slot>, s: seq<byte>): (r: Option<seq<Slot>>)
    requires |schema| == |slots|
    ensures r.Some? ==> |r.value| == |slots|
    decreases |s|, 5
  {
    if s == [] then Some(slots)
    else
      match Parse32(s)
      case None => None
      case Some(d) =>
        match DecodeField(schema, slots, d.value / 8, d.value % 8, s[d.size..])
        case Failed => None
        case Got(slots', n) => DecodeSlots(schema, slots', s[d.size + n..])
  }

  /** Decoding of a message into a fresh struct. */
  function Decode(schema: seq<Field>, s: seq<byte>): Option<seq<Slot>> {
    DecodeSlots(schema, Defaults(schema), s)
  }
}
