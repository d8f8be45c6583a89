/** The decoder of the message codec: an input stream that shrinks as it is read, and the loops over it. */
module MessageInput {
  import opened Varint
  import opened MessageCodec
  import FieldIter

  // ---- what reading byte by byte amounts to ---------------------------------------------

  lemma {:induction false} LenIs(s: seq<byte>, n: nat)
    requires 0 < n <= |s| && s[n - 1] < 128 && forall j :: 0 <= j < n - 1 ==> s[j] >= 128
    ensures Len(s) == n
    decreases n
  {
    if n > 1 {
      assert forall j :: 0 <= j < n - 2 ==> s[1..][j] == s[j + 1];
      LenIs(s[1..], n - 1);
    }
  }

  lemma {:induction false} LenBeyond(s: seq<byte>, n: nat)
    requires n <= |s| && forall j :: 0 <= j < n ==> s[j] >= 128
    ensures Len(s) == 0 || Len(s) > n
  {
  }

  /** The low word after the fifth group, and its top bit. */
  lemma FifthGroup(s: seq<byte>)
    requires |s| >= 5
    ensures var d: nat := s[4] % 16; Low(s, 5) % TWO_32 == Low(s, 4) + d * 0x1000_0000
    ensures var d: nat := s[4] % 16; (Low(s, 4) + d * 0x1000_0000) / 0x8000_0000 == s[4] / 8 % 2
  {
    LowFive(s);
    hide Low;
    var c: nat := s[4];
    SplitGroup(c, Low(s, 4));
  }

  lemma SplitGroup(c: nat, l: nat)
    requires c < 256 && l < 0x1000_0000
    ensures (l + c % 128 * 0x1000_0000) % TWO_32 == l + c % 16 * 0x1000_0000
    ensures (l + c % 16 * 0x1000_0000) / 0x8000_0000 == c / 8 % 2
  {
    var g, d, t := NibblesOf(c);
    Reassemble(g, d, l);
    LowPart(l + d * 0x1000_0000, g);
    TopBit(l, d);
  }

  /** The bits of a byte: its top three but one, its low four, and the highest of these. */
  lemma NibblesOf(c: nat) returns (g: nat, d: nat, t: nat)
    requires c < 256
    ensures d < 16 && c % 128 == 16 * g + d && c % 16 == d && c / 8 % 2 == t == d / 8
  {
    var h := c / 16;
    d := c - 16 * h;
    var q := h / 8;
    g := h - 8 * q;
    t := if d < 8 then 0 else 1;
    assert c == 128 * q + (16 * g + d) && 0 <= 16 * g + d < 128;
    assert c == 8 * (2 * h + t) + (d - 8 * t) && 0 <= d - 8 * t < 8;
    assert c / 8 == 2 * h + t;
  }

  lemma Reassemble(g: nat, d: nat, l: nat)
    ensures l + (16 * g + d) * 0x1000_0000 == g * TWO_32 + (l + d * 0x1000_0000)
  {
  }

  lemma TopBit(l: nat, d: nat)
    requires d < 16 && l < 0x1000_0000
    ensures (l + d * 0x1000_0000) / 0x8000_0000 == d / 8
  {
    if d < 8 {
      assert l + d * 0x1000_0000 < 0x8000_0000;
    } else {
      assert 0x8000_0000 <= l + d * 0x1000_0000 < 2 * 0x8000_0000;
    }
  }

  lemma LowPart(a: nat, k: nat)
    requires a < TWO_32
    ensures (k * TWO_32 + a) % TWO_32 == a
  {
  }

  /** Later groups do not reach the low word. */
  lemma LaterGroup(s: seq<byte>, i: nat)
    requires 5 <= i < |s|
    ensures Low(s, i + 1) % TWO_32 == Low(s, i) % TWO_32
  {
    PowMultiple(i);
    var k := Pow128(i) / TWO_32;
    var g := s[i] % 128;
    assert g * Pow128(i) == g * (k * TWO_32) == (g * k) * TWO_32;
    AddMultiple(Low(s, i), g * k);
  }

  lemma AddMultiple(a: nat, k: nat)
    ensures (a + k * TWO_32) % TWO_32 == a % TWO_32
  {
  }

  lemma {:induction false} PowMultiple(i: nat)
    requires i >= 5
    ensures Pow128(i) % TWO_32 == 0
    decreases i
  {
    Powers();
    if i > 5 {
      PowMultiple(i - 1);
    }
  }

  lemma SliceOfSlice(source: seq<byte>, p: nat, l: nat, i: nat, j: nat)
    requires p + l <= |source| && i <= j <= l
    ensures source[p..p + l][i..j] == source[p + i..p + j]
  {
    var a, b := source[p..p + l][i..j], source[p + i..p + j];
    forall k | 0 <= k < j - i ensures a[k] == b[k] {
      assert a[k] == source[p..p + l][i + k] == source[p + (i + k)];
    }
    assert a == b;
  }

  // ---- the stream -----------------------------------------------------------------------------

  class IStream {
    const source: seq<byte>
    var position: nat
    var bytesLeft: nat

    ghost predicate Valid()
      reads this
    {
      position + bytesLeft <= |source|
    }

    /** What is still to be read. */
    function Rest(): seq<byte>
      requires Valid()
      reads this
    {
      source[position..position + bytesLeft]
    }

    constructor (source: seq<byte>, position: nat, bytesLeft: nat)
      requires position + bytesLeft <= |source|
      ensures Valid() && this.source == source && this.position == position && this.bytesLeft == bytesLeft
    {
      this.source, this.position, this.bytesLeft := source, position, bytesLeft;
    }

    /** `n` bytes were consumed. */
    twostate predicate Advanced(n: nat)
      reads this
    {
      old(Valid()) && Valid() && n <= old(bytesLeft) && Rest() == old(Rest())[n..]
      && bytesLeft == old(bytesLeft) - n && position == old(position) + n
    }

    method ReadBytes(n: nat) returns (ok: bool, data: seq<byte>)
      requires Valid()
      modifies this
      ensures Valid() && (ok <==> n <= old(bytesLeft))
      ensures ok ==> Advanced(n) && data == old(Rest())[..n]
    {
      if bytesLeft < n {
        return false, [];
      }
      data := source[position..position + n];
      position, bytesLeft := position + n, bytesLeft - n;
      ok := true;
    }

    method ReadByte() returns (ok: bool, b: byte)
      requires Valid()
      modifies this
      ensures Valid() && (ok <==> old(bytesLeft) > 0)
      ensures ok ==> Advanced(1) && b == old(Rest())[0]
    {
      if bytesLeft == 0 {
        return false, 0;
      }
      b := source[position];
      position, bytesLeft := position + 1, bytesLeft - 1;
      ok := true;
    }

    /** A varint of up to 64 bits. */
    method DecodeVarint() returns (ok: bool, value: nat)
      requires Valid()
      modifies this
      ensures Valid() && (ok <==> Parse64(old(Rest())).Some?)
      ensures ok ==> Advanced(Parse64(old(Rest())).value.size) && value == Parse64(old(Rest())).value.value
    {
      hide Low, Pow128, Len;
      ghost var s := Rest();
      var i, result := 0, 0;
      LowNothing(s);
      while true
        invariant i <= |s| && i <= 9 && Advanced(i) && s == old(Rest())
        invariant forall j :: 0 <= j < i ==> s[j] >= 128
        invariant result == Low(s, i)
        decreases |s| - i
      {
        var read, b := ReadByte();
        if !read {
          LenBeyond(s, |s|);
          return false, 0;
        }
        assert b == s[i];
        if i >= 9 && b / 2 != 0 {
          TenthTooLarge(s);
          return false, 0;
        }
        LowNext(s, i);
        result := result + b % 128 * Pow128(i);
        i := i + 1;
        if b < 128 {
          LenIs(s, i);
          return true, result;
        }
      }
    }

    /** The 32-bit reader: more groups are accepted only as zeros or as the extension of the sign. */
    method DecodeVarint32() returns (ok: bool, value: nat)
      requires Valid()
      modifies this
      ensures Valid() && (ok <==> Parse32(old(Rest())).Some?)
      ensures ok ==> Advanced(Parse32(old(Rest())).value.size) && value == Parse32(old(Rest())).value.value
    {
      hide Low, Pow128, Len, Parse32;
      ghost var s := Rest();
      var read, b := ReadByte();
      if !read {
        ParseNothing(s);
        return false, 0;
      }
      LowFirst(s);
      if b < 128 {
        LenIs(s, 1);
        ParseAt(s, 1);
        return true, b;
      }
      var i, result := 1, b % 128;
      while true
        invariant 1 <= i <= |s| && i <= 10 && Advanced(i) && s == old(Rest())
        invariant forall j :: 0 <= j < i ==> s[j] >= 128
        invariant result == Low(s, i) % TWO_32 && result < TWO_32
        invariant i > 4 ==> result / 0x8000_0000 == s[4] / 8 % 2
        invariant Extends(s, i)
        decreases |s| - i
      {
        read, b := ReadByte();
        if !read {
          LenBeyond(s, |s|);
          ParseUnended(s);
          return false, 0;
        }
        assert b == s[i];
        var fits;
        fits, result := AddGroup32(result, i, b, s);
        if !fits {
          return false, 0;
        }
        i := i + 1;
        if b < 128 {
          LenIs(s, i);
          ParseAt(s, i);
          return true, result;
        }
      }
    }

    /** Skips an unknown field. */
    method SkipField(wireType: nat) returns (ok: bool)
      requires Valid()
      modifies this
      ensures Valid() && (ok <==> Skip(wireType, old(Rest())).Got?)
      ensures ok ==> Advanced(Skip(wireType, old(Rest())).size)
    {
      hide Parse32, Len;
      var n, data := 0, [];
      if wireType == WT_VARINT {
        ok := SkipVarint();
      } else if wireType == WT_64BIT {
        ok, data := ReadBytes(8);
      } else if wireType == WT_STRING {
        ok, n := DecodeVarint32();
        if ok {
          ok, data := ReadBytes(n);
        }
      } else if wireType == WT_32BIT {
        ok, data := ReadBytes(4);
      } else {
        ok := false;
      }
    }

    method SkipVarint() returns (ok: bool)
      requires Valid()
      modifies this
      ensures Valid() && (ok <==> Len(old(Rest())) > 0)
      ensures ok ==> Advanced(Len(old(Rest())))
    {
      hide Len;
      ghost var s := Rest();
      ghost var i := 0;
      while true
        invariant i <= |s| && Advanced(i) && s == old(Rest())
        invariant forall j :: 0 <= j < i ==> s[j] >= 128
        decreases |s| - i
      {
        var read, b := ReadByte();
        if !read {
          LenBeyond(s, |s|);
          return false;
        }
        assert b == s[i];
        i := i + 1;
        if b < 128 {
          LenIs(s, i);
          return true;
        }
      }
    }

    /** A stream over the next length-delimited bytes; this stream goes on behind them once it is closed. */
    method MakeStringSubstream() returns (ok: bool, substream: IStream)
      requires Valid()
      modifies this
      ensures Valid() && (ok <==> ReadLength(old(Rest())).Got?)
      ensures ok ==> var r := ReadLength(old(Rest()));
                && fresh(substream) && substream.Valid() && substream.source == source
                && substream.Rest() == old(Rest())[r.size..r.size + r.value]
                && Advanced(r.size + r.value)
    {
      hide Parse32;
      ghost var s, start := Rest(), position;
      var size;
      ok, size := DecodeVarint32();
      substream := this;
      if !ok || bytesLeft < size {
        return false, substream;
      }
      substream := new IStream(source, position, size);
      SliceOfSlice(source, start, |s|, position - start, position - start + size);
      position, bytesLeft := position + size, bytesLeft - size;
    }
  }

  /** Takes the group at `i` into a 32-bit result, or finds that it does not fit. */
  method AddGroup32(result: nat, i: nat, b: byte, ghost s: seq<byte>) returns (ok: bool, r: nat)
    requires 1 <= i < |s| && i <= 10 && b == s[i] && Extends(s, i)
    requires forall j :: 0 <= j < i ==> s[j] >= 128
    requires result == Low(s, i) % TWO_32 && (i > 4 ==> result / 0x8000_0000 == s[4] / 8 % 2)
    ensures ok ==> i < 10 && Extends(s, i + 1) && r == Low(s, i + 1) % TWO_32
    ensures ok && i >= 4 ==> r / 0x8000_0000 == s[4] / 8 % 2
    ensures !ok ==> Parse32(s).None?
  {
    hide Low, Pow128, Len, Parse32, Extends;
    if i < 4 {
      EarlyStep(s, i);
      return true, result + b % 128 * Pow128(i);
    }
    if i == 4 {
      FifthStep(s);
      ok := b / 16 % 8 == 0 || b / 8 % 16 == 15;
      var low: nat := b % 16;
      r := result + low * 0x1000_0000;
    } else {
      LaterStep(s, i);
      ok := i < 10 && (b % 128 == 0 || (result / 0x8000_0000 != 0 && b == if i < 9 then 0xFF else 0x01));
      r := result;
    }
    if !ok {
      ParseRejects(s, i);
    }
  }

  lemma EarlyStep(s: seq<byte>, i: nat)
    requires i < 4 && i < |s|
    ensures Extends(s, i + 1)
    ensures Low(s, i) % TWO_32 == Low(s, i)
    ensures Low(s, i + 1) % TWO_32 == Low(s, i) + s[i] % 128 * Pow128(i)
  {
    hide Pow128, Low;
    LowSmall(s, i);
    LowSmall(s, i + 1);
    LowNext(s, i);
  }

  lemma FifthStep(s: seq<byte>)
    requires |s| > 4
    ensures Extends(s, 5) <==> s[4] / 16 % 8 == 0 || s[4] / 8 % 16 == 15
    ensures Low(s, 4) % TWO_32 == Low(s, 4)
    ensures var d: nat := s[4] % 16; Low(s, 5) % TWO_32 == Low(s, 4) + d * 0x1000_0000
    ensures var d: nat := s[4] % 16; (Low(s, 4) + d * 0x1000_0000) / 0x8000_0000 == s[4] / 8 % 2
  {
    hide Low, Pow128;
    LowSmall(s, 4);
    FifthGroup(s);
  }

  lemma LaterStep(s: seq<byte>, i: nat)
    requires 5 <= i < |s| && Extends(s, i)
    ensures Extends(s, i + 1) <==> s[i] % 128 == 0 || (s[4] / 8 % 2 == 1 && s[i] == if i < 9 then 255 else 1)
    ensures Low(s, i + 1) % TWO_32 == Low(s, i) % TWO_32
  {
    hide Low, Pow128;
    LaterGroup(s, i);
  }

  lemma LowNothing(s: seq<byte>)
    ensures Low(s, 0) == 0
  {
  }

  lemma LowNext(s: seq<byte>, i: nat)
    requires i < |s|
    ensures Low(s, i + 1) == Low(s, i) + s[i] % 128 * Pow128(i)
  {
  }

  lemma LowFirst(s: seq<byte>)
    requires |s| > 0
    ensures Low(s, 1) == s[0] % 128
  {
    assert Pow128(0) == 1 && Low(s, 0) == 0;
  }

  lemma LowSmall(s: seq<byte>, n: nat)
    requires n <= |s| && n <= 4
    ensures Low(s, n) < TWO_32
  {
    LowBound(s, n);
    Powers();
    PowGrows(n, 4);
  }

  lemma TenthTooLarge(s: seq<byte>)
    requires |s| > 9 && s[9] > 1 && forall j :: 0 <= j < 9 ==> s[j] >= 128
    ensures Parse64(s).None?
  {
    LenBeyond(s, 9);
  }

  lemma ParseNothing(s: seq<byte>)
    requires s == []
    ensures Parse32(s).None?
  {
  }

  lemma ParseUnended(s: seq<byte>)
    requires Len(s) == 0 || Len(s) > |s|
    ensures Parse32(s).None?
  {
  }

  lemma ParseAt(s: seq<byte>, n: nat)
    requires n <= |s| && Len(s) == n && 0 < n <= 10 && Extends(s, n)
    ensures Parse32(s) == Some(Decoded(Low(s, n) % TWO_32, n))
  {
  }

  lemma ParseRejects(s: seq<byte>, i: nat)
    requires 4 <= i < |s| && i <= 10 && forall j :: 0 <= j < i ==> s[j] >= 128
    requires i == 10 || !Extends(s, i + 1)
    ensures Parse32(s).None?
  {
    LenBeyond(s, i);
  }

  // ---- fields by tag ---------------------------------------------------------------------------

  /** What the generator promises of the fields of a message type, at every level: tags in range, in
      strictly increasing order. */
  predicate Generated(schema: seq<Field>)
    decreases schema
  {
    && (forall k :: 0 <= k < |schema| ==> 0 < schema[k].tag < MAX_TAG && GeneratedField(schema[k]))
    && (forall j, k :: 0 <= j < k < |schema| ==> schema[j].tag < schema[k].tag)
  }

  predicate GeneratedField(f: Field)
    decreases f
  {
    match f.kind
    case Nested(schema) => Generated(schema)
    case _ => true
  }

  predicate GeneratedKind(kind: Kind) {
    kind.Nested? ==> Generated(kind.schema)
  }

  /** The type byte of a field's record: how it is stored, and whether it is a message. */
  function TypeByte(f: Field): nat {
    (match f.rule
     case Singular => 0x10
     case Optional => 0x10
     case Repeated(_) => 0x20
     case OneOf(_) => 0x30)
    + (if f.kind.Nested? then FieldIter.LTYPE_SUBMESSAGE else 0)
  }

  /** The descriptor words of a message type: one record of four words for each field. */
  function DescriptorOf(schema: seq<Field>): FieldIter.Descriptor
    requires Generated(schema)
  {
    FieldIter.Descriptor(
      seq<FieldIter.word>(4 * |schema|, j requires 0 <= j < 4 * |schema| => RecordWord(schema[j / 4], j % 4)),
      seq(|schema|, i requires 0 <= i < |schema| => 4 * i),
      if schema == [] then 0 else schema[|schema| - 1].tag)
  }

  function RecordWord(f: Field, j: nat): FieldIter.word
    requires f.tag < MAX_TAG && j < 4
  {
    if j == 0 then 2 + f.tag % 64 * 4 + TypeByte(f) * 256 else if j == 1 then f.tag / 64 * 256 else 0
  }

  lemma RecordMeans(f: Field)
    requires f.tag < MAX_TAG
    ensures var w0, w1 := RecordWord(f, 0), RecordWord(f, 1);
            && w0 % 4 == 2 && FieldIter.WordsOf(w0) == 4 && FieldIter.TagOf(w0, w1) == f.tag
            && FieldIter.TypeOf(w0) == TypeByte(f) && !FieldIter.IsExtension(TypeByte(f))
  {
    var w0, w1 := RecordWord(f, 0), RecordWord(f, 1);
    assert w0 / 4 == f.tag % 64 + TypeByte(f) * 64;
    assert w0 / 256 == TypeByte(f);
  }

  /** Where the record of field `i` lies. */
  lemma RecordAt(schema: seq<Field>, i: nat)
    requires Generated(schema) && i < |schema|
    ensures var d := DescriptorOf(schema);
            && |d.info| == 4 * |schema| && |d.starts| == |schema| && d.starts[i] == 4 * i
            && d.info[4 * i] == RecordWord(schema[i], 0) && d.info[4 * i + 1] == RecordWord(schema[i], 1)
  {
    hide RecordWord;
    assert (4 * i) / 4 == i && (4 * i) % 4 == 0;
    assert (4 * i + 1) / 4 == i && (4 * i + 1) % 4 == 1;
  }

  lemma DescriptorLaid(schema: seq<Field>)
    requires Generated(schema)
    ensures var d := DescriptorOf(schema);
            FieldIter.LaidOut(d) && |d.starts| == |schema| && |d.info| == 4 * |schema|
  {
    hide RecordWord, FieldIter.TagOf, FieldIter.TypeOf, TypeByte, DescriptorOf, FieldIter.WordsOf;
    var d := DescriptorOf(schema);
    assert |d.starts| == |schema| && |d.info| == 4 * |schema| by { DescriptorSizes(schema); }
    forall i | 0 <= i < |schema|
      ensures d.starts[i] == 4 * i && 4 * i < |d.info| && FieldIter.WordsOf(d.info[4 * i]) == 4
    {
      RecordAt(schema, i);
      RecordMeans(schema[i]);
    }
  }

  lemma DescriptorSizes(schema: seq<Field>)
    requires Generated(schema)
    ensures var d := DescriptorOf(schema); |d.starts| == |schema| && |d.info| == 4 * |schema|
    ensures schema != [] ==> DescriptorOf(schema).largestTag == schema[|schema| - 1].tag
  {
  }

  lemma DescriptorField(schema: seq<Field>, i: nat)
    requires Generated(schema) && i < |schema|
    requires FieldIter.LaidOut(DescriptorOf(schema)) && |DescriptorOf(schema).starts| == |schema|
    ensures FieldIter.Tag(DescriptorOf(schema), i) == schema[i].tag
    ensures !FieldIter.IsExtension(FieldIter.Type(DescriptorOf(schema), i))
  {
    hide RecordWord, FieldIter.TagOf, FieldIter.TypeOf, TypeByte, DescriptorOf, FieldIter.WordsOf, Generated;
    RecordAt(schema, i);
    InRange(schema, i);
    RecordMeans(schema[i]);
  }

  lemma InRange(schema: seq<Field>, i: nat)
    requires Generated(schema) && i < |schema|
    ensures schema[i].tag < MAX_TAG
  {
  }

  /** The descriptor is well formed, and shows the tags of the schema. */
  lemma DescriptorMeans(schema: seq<Field>)
    requires Generated(schema)
    ensures var d := DescriptorOf(schema);
            && FieldIter.LaidOut(d) && |d.starts| == |schema| && (schema != [] ==> FieldIter.WellFormed(d))
            && forall i :: 0 <= i < |schema| ==>
                 FieldIter.Tag(d, i) == schema[i].tag && !FieldIter.IsExtension(FieldIter.Type(d, i))
  {
    hide RecordWord, FieldIter.Tag, FieldIter.Type, TypeByte, DescriptorOf, FieldIter.IsExtension;
    DescriptorLaid(schema);
    DescriptorSizes(schema);
    forall i | 0 <= i < |schema|
      ensures FieldIter.Tag(DescriptorOf(schema), i) == schema[i].tag
      ensures !FieldIter.IsExtension(FieldIter.Type(DescriptorOf(schema), i))
    {
      DescriptorField(schema, i);
    }
  }

  /** The tag search over the descriptor words and the scan over the schema agree. */
  lemma ScanIsFieldWith(schema: seq<Field>, tag: nat)
    requires Generated(schema)
    ensures FieldIter.LaidOut(DescriptorOf(schema)) && |DescriptorOf(schema).starts| == |schema|
    ensures FieldIter.Scan(DescriptorOf(schema), tag, 0) == FieldWith(schema, tag)
  {
    hide FieldIter.Tag, FieldIter.Type, FieldIter.IsExtension, DescriptorOf, FieldIter.WellFormed;
    DescriptorMeans(schema);
    var d := DescriptorOf(schema);
    var k, j := FieldWith(schema, tag), FieldIter.Scan(d, tag, 0);
    if k >= 0 {
      assert FieldIter.Tag(d, k) == tag;
    }
    if j >= 0 {
      assert schema[j].tag == tag;
    }
  }

  /** The field with this tag, by the circular search from wherever the cursor stands; -1 if there is none. */
  method FindField(iter: FieldIter.Iterator?, schema: seq<Field>, tag: nat) returns (k: int)
    requires Generated(schema) && (schema != [] ==> Cursor(iter, schema))
    modifies iter
    ensures k == FieldWith(schema, tag) && (schema != [] ==> Cursor(iter, schema))
  {
    hide FieldIter.LaidOut, FieldIter.WellFormed, FieldIter.Tag, FieldIter.Type, FieldIter.Scan, DescriptorOf, Generated;
    k := -1;
    DescriptorMeans(schema);
    ScanIsFieldWith(schema, tag);
    if schema != [] {
      OwnTag(iter, schema);
      var found := iter.Find(tag);
      if found {
        k := iter.index;
      }
    }
  }

  /** The cursor stands on a field of the schema. */
  ghost predicate Cursor(iter: FieldIter.Iterator?, schema: seq<Field>)
    requires Generated(schema)
    reads iter
  {
    iter != null && iter.Valid() && iter.descriptor == DescriptorOf(schema)
  }

  lemma OwnTag(iter: FieldIter.Iterator?, schema: seq<Field>)
    requires Generated(schema) && schema != [] && Cursor(iter, schema)
    ensures iter.index < |schema| && FieldWith(schema, iter.tag) == iter.index
  {
    hide Generated, DescriptorOf, FieldIter.Tag, FieldIter.Type, FieldIter.WellFormed, FieldIter.Count, FieldIter.IsExtension;
    DescriptorMeans(schema);
    OnlyField(schema, iter.index);
  }

  lemma KindGenerated(schema: seq<Field>, k: nat)
    requires Generated(schema) && k < |schema|
    ensures GeneratedKind(schema[k].kind)
  {
    assert GeneratedField(schema[k]);
  }

  lemma OnlyField(schema: seq<Field>, i: nat)
    requires Generated(schema) && i < |schema|
    ensures FieldWith(schema, schema[i].tag) == i
  {
    hide GeneratedField;
    var k := FieldWith(schema, schema[i].tag);
  }

  // ---- fields and messages -----------------------------------------------------------------------

  /** One value, without its tag. */
  method DecodeBasicField(stream: IStream, kind: Kind, base: Value) returns (ok: bool, value: Value)
    requires stream.Valid() && GeneratedKind(kind)
    modifies stream
    ensures stream.Valid() && (ok <==> DecodeValue(kind, base, old(stream.Rest())).Got?)
    ensures ok ==> var r := DecodeValue(kind, base, old(stream.Rest())); stream.Advanced(r.size) && value == r.value
    decreases stream.bytesLeft, 1
  {
    hide Parse64, Parse32, ReadLength, DecodeSlots, FromLittleEndian;
    value := Num(0);
    match kind
    case Bytes(_) =>
      ok, value := DecodeBytes(stream, kind, base);
    case Text(_) =>
      ok, value := DecodeBytes(stream, kind, base);
    case FixedBytes(_) =>
      ok, value := DecodeBytes(stream, kind, base);
    case Nested(schema) =>
      ok, value := DecodeSubmessage(stream, schema, base);
    case Fixed32 =>
      var data;
      ok, data := stream.ReadBytes(4);
      if ok {
        value := Num(FromLittleEndian(data));
      }
    case Fixed64 =>
      var data;
      ok, data := stream.ReadBytes(8);
      if ok {
        value := Num(FromLittleEndian(data));
      }
    case _ =>
      ok, value := DecodeInteger(stream, kind, base);
  }

  method DecodeInteger(stream: IStream, kind: Kind, base: Value) returns (ok: bool, value: Value)
    requires stream.Valid() && WireType(kind) == WT_VARINT
    modifies stream
    ensures stream.Valid() && (ok <==> DecodeValue(kind, base, old(stream.Rest())).Got?)
    ensures ok ==> var r := DecodeValue(kind, base, old(stream.Rest())); stream.Advanced(r.size) && value == r.value
  {
    hide Parse64, Parse32;
    var v;
    value := Num(0);
    if kind == Boolean {
      ok, v := stream.DecodeVarint32();
      value := Num(if v != 0 then 1 else 0);
      return;
    }
    ok, v := stream.DecodeVarint();
    if !ok {
      return;
    }
    Parse64Fits(old(stream.Rest()));
    match kind
    case Unsigned(bits) =>
      ok := Width(bits) && v < Pow2(bits);
      value := Num(v);
    case Signed(bits) =>
      ok := Width(bits);
      if ok {
        var x := ToSigned(v, if bits == 64 then 64 else 32);
        ok, value := InSigned(x, bits), Num(x);
      }
    case ZigZagged(bits) =>
      var x := UnZigZag(v);
      ok, value := Width(bits) && InSigned(x, bits), Num(x);
  }

  method DecodeBytes(stream: IStream, kind: Kind, base: Value) returns (ok: bool, value: Value)
    requires stream.Valid() && (kind.Bytes? || kind.Text? || kind.FixedBytes?)
    modifies stream
    ensures stream.Valid() && (ok <==> DecodeValue(kind, base, old(stream.Rest())).Got?)
    ensures ok ==> var r := DecodeValue(kind, base, old(stream.Rest())); stream.Advanced(r.size) && value == r.value
  {
    hide Parse32;
    value := Num(0);
    var size, data;
    ok, size := stream.DecodeVarint32();
    if !ok {
      return;
    }
    if kind.FixedBytes? {
      if size == 0 {
        return true, Zero(kind);
      }
      if size != kind.size {
        return false, value;
      }
    } else if size > kind.capacity {
      return false, value;
    }
    ok, data := stream.ReadBytes(size);
    value := Data(data);
  }

  /** A nested message, decoded over what its struct already holds. */
  method DecodeSubmessage(stream: IStream, schema: seq<Field>, base: Value) returns (ok: bool, value: Value)
    requires stream.Valid() && Generated(schema)
    modifies stream
    ensures stream.Valid() && (ok <==> DecodeValue(Nested(schema), base, old(stream.Rest())).Got?)
    ensures ok ==> var r := DecodeValue(Nested(schema), base, old(stream.Rest())); stream.Advanced(r.size) && value == r.value
    decreases stream.bytesLeft, 0
  {
    hide ReadLength, DecodeSlots;
    value := base;
    var substream;
    ok, substream := stream.MakeStringSubstream();
    if !ok {
      return;
    }
    if !base.Sub? || |base.slots| != |schema| {
      return false, value;
    }
    var slots;
    ok, slots := DecodeInner(substream, schema, base.slots);
    value := Sub(slots);
  }

  /** The elements of a packed array, to the end of the substream. */
  method DecodePackedField(substream: IStream, kind: Kind, values: seq<Value>, most: nat)
    returns (ok: bool, all: seq<Value>)
    requires substream.Valid() && Packable(kind)
    modifies substream
    ensures substream.Valid()
    ensures ok <==> DecodePacked(kind, values, most, old(substream.Rest())).Some?
    ensures ok ==> DecodePacked(kind, values, most, old(substream.Rest())) == Some(all)
    decreases substream.bytesLeft, 2
  {
    hide DecodeValue, Zero;
    ok, all := true, values;
    while substream.bytesLeft > 0 && |all| < most
      invariant substream.Valid() && substream.bytesLeft <= old(substream.bytesLeft)
      invariant DecodePacked(kind, all, most, substream.Rest()) == DecodePacked(kind, values, most, old(substream.Rest()))
      decreases substream.bytesLeft
    {
      var v;
      ghost var rest := substream.Rest();
      NumberTakesBytes(kind, Zero(kind), rest);
      ok, v := DecodeBasicField(substream, kind, Zero(kind));
      if !ok {
        return;
      }
      all := all + [v];
    }
    ok := substream.bytesLeft == 0;
  }

  lemma NumberTakesBytes(kind: Kind, base: Value, s: seq<byte>)
    requires Packable(kind)
    ensures DecodeValue(kind, base, s).Got? ==> DecodeValue(kind, base, s).size > 0
  {
    hide Parse64, FromLittleEndian;
  }

  /** One field's content into its slot. */
  method DecodeStaticField(stream: IStream, f: Field, slot: Slot, wireType: nat) returns (ok: bool, r: Slot)
    requires stream.Valid() && GeneratedKind(f.kind)
    modifies stream
    ensures stream.Valid() && (ok <==> DecodeSlot(f, slot, wireType, old(stream.Rest())).Got?)
    ensures ok ==> var d := DecodeSlot(f, slot, wireType, old(stream.Rest())); stream.Advanced(d.size) && r == d.value
    decreases stream.bytesLeft, 3
  {
    hide DecodeValue, DecodePacked, ReadLength, Zero;
    r := slot;
    if !SlotOf(f, slot) {
      return false, slot;
    }
    if f.rule.Repeated? && wireType == WT_STRING && Packable(f.kind) {
      var substream, values;
      ok, substream := stream.MakeStringSubstream();
      if ok {
        ok, values := DecodePackedField(substream, f.kind, slot.values, f.rule.most);
        r := Many(values);
      }
      return;
    }
    if f.rule.Repeated? && |slot.values| >= f.rule.most {
      return false, slot;
    }
    if wireType != WireType(f.kind) {
      return false, slot;
    }
    var base := if f.rule.Repeated? || (f.rule.OneOf? && !slot.chosen) then Zero(f.kind) else slot.value;
    var v;
    ok, v := DecodeBasicField(stream, f.kind, base);
    match f.rule
    case Repeated(_) => r := Many(slot.values + [v]);
    case Singular => r := One(v);
    case Optional => r := Maybe(true, v);
    case OneOf(_) => r := Choice(true, v);
  }

  /** All fields of a message, over the slots it already has. */
  method DecodeInner(stream: IStream, schema: seq<Field>, slots0: seq<Slot>) returns (ok: bool, slots: seq<Slot>)
    requires stream.Valid() && |schema| == |slots0| && Generated(schema)
    modifies stream
    ensures stream.Valid() && (ok <==> DecodeSlots(schema, slots0, old(stream.Rest())).Some?)
    ensures ok ==> DecodeSlots(schema, slots0, old(stream.Rest())) == Some(slots)
    decreases stream.bytesLeft, 5
  {
    hide Parse32, DecodeSlots, DecodeField, Generated, DescriptorOf, FieldIter.WellFormed, FieldIter.LaidOut;
    slots := slots0;
    var iter: FieldIter.Iterator? := null;
    if schema != [] {
      DescriptorMeans(schema);
      iter := new FieldIter.Iterator(DescriptorOf(schema));
    }
    while stream.bytesLeft > 0
      invariant schema != [] ==> fresh(iter) && Cursor(iter, schema)
      invariant stream.Valid() && |slots| == |schema| && stream.bytesLeft <= old(stream.bytesLeft)
      invariant DecodeSlots(schema, slots, stream.Rest()) == DecodeSlots(schema, slots0, old(stream.Rest()))
      decreases stream.bytesLeft
    {
      ghost var s := stream.Rest();
      InnerStep(schema, slots, s);
      var t;
      ok, t := stream.DecodeVarint32();
      if !ok {
        return;
      }
      ghost var rest := stream.Rest();
      ok, slots := DecodeOneField(stream, iter, schema, slots, t / 8, t % 8);
      if !ok {
        return;
      }
    }
    ok := true;
    InnerDone(schema, slots);
    assert stream.Rest() == [];
  }

  /** What one turn of the loop over the fields does. */
  lemma InnerStep(schema: seq<Field>, slots: seq<Slot>, s: seq<byte>)
    requires |schema| == |slots| && s != []
    ensures Parse32(s).None? ==> DecodeSlots(schema, slots, s).None?
    ensures Parse32(s).Some? ==>
              var d := Parse32(s).value;
              var r := DecodeField(schema, slots, d.value / 8, d.value % 8, s[d.size..]);
              DecodeSlots(schema, slots, s) == if r.Failed? then None else DecodeSlots(schema, r.value, s[d.size + r.size..])
  {
    hide DecodeField, Parse32, DecodeSlot, DecodeValue, DecodePacked, FieldWith, Store, Skip, Parse64, Len, Low;
  }

  lemma InnerDone(schema: seq<Field>, slots: seq<Slot>)
    requires |schema| == |slots|
    ensures DecodeSlots(schema, slots, []) == Some(slots)
  {
  }

  /** One field: found by its tag, or skipped. */
  method DecodeOneField(stream: IStream, iter: FieldIter.Iterator?, schema: seq<Field>, slots: seq<Slot>, tag: nat, wireType: nat)
    returns (ok: bool, after: seq<Slot>)
    requires stream.Valid() && |schema| == |slots| && Generated(schema) && (schema != [] ==> Cursor(iter, schema))
    modifies stream, iter
    ensures stream.Valid() && (ok <==> DecodeField(schema, slots, tag, wireType, old(stream.Rest())).Got?)
    ensures ok ==> var r := DecodeField(schema, slots, tag, wireType, old(stream.Rest()));
                   stream.Advanced(r.size) && after == r.value
    ensures |after| == |slots| && (schema != [] ==> Cursor(iter, schema))
    decreases stream.bytesLeft, 4
  {
    hide DecodeSlot, Skip, Store, Cursor, Generated, GeneratedKind, FieldWith;
    after := slots;
    if tag == 0 {
      return false, slots;
    }
    var k := FindField(iter, schema, tag);
    if k < 0 {
      ok := stream.SkipField(wireType);
      return;
    }
    KindGenerated(schema, k);
    var slot;
    ok, slot := DecodeStaticField(stream, schema[k], slots[k], wireType);
    if ok {
      after := Store(schema, slots, k, slot);
    }
  }

  /** Decodes a whole buffer into a fresh message. */
  method DecodeMessage(schema: seq<Field>, buffer: seq<byte>) returns (ok: bool, slots: seq<Slot>)
    requires Generated(schema)
    ensures ok <==> Decode(schema, buffer).Some?
    ensures ok ==> Decode(schema, buffer) == Some(slots)
  {
    hide DecodeSlots;
    var stream := new IStream(buffer, 0, |buffer|);
    assert stream.Rest() == buffer;
    ok, slots := DecodeInner(stream, schema, Defaults(schema));
  }
}
