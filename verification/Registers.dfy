/** Register lists on the wire: entries of a two-byte id, a value size, a flag byte and the
    little-endian value, laid end to end. */
module Registers {
  import opened Machine

  const REG_HEADER: nat := 4
  const ARM_REG_SP: nat := 13
  const ARM_REG_PC: nat := 15

  datatype Entry = Entry(id: nat, flags: nat, value: seq<byte>)

  function U16(lo: int, hi: int): int {
    lo + 0x100 * hi
  }

  function U16Bytes(v: nat): (r: seq<byte>)
    requires v <= 0xFFFF
    ensures |r| == 2 && U16(r[0], r[1]) == v
  {
    [v % 0x100, v / 0x100]
  }

  function U32Bytes(v: u32): (r: seq<byte>)
    ensures |r| == 4
  {
    U16Bytes(v % 0x1_0000) + U16Bytes(v / 0x1_0000)
  }

  function U32(b: seq<byte>): u32
    requires |b| == 4
  {
    U16(b[0], b[1]) + 0x1_0000 * U16(b[2], b[3])
  }

  lemma U32RoundTrip(v: u32)
    ensures U32(U32Bytes(v)) == v && U32([1, 2, 3, 4]) == 0x0403_0201
  {
  }

  /** A whole entry stands at offset `off`. */
  predicate Fits(b: seq<byte>, off: nat) {
    off + REG_HEADER <= |b| && off + REG_HEADER + b[off + 2] <= |b|
  }

  function Next(b: seq<byte>, off: nat): (n: nat)
    requires Fits(b, off)
    ensures off < n <= |b|
  {
    off + REG_HEADER + b[off + 2]
  }

  function EntryAt(b: seq<byte>, off: nat): Entry
    requires Fits(b, off)
  {
    Entry(U16(b[off], b[off + 1]), b[off + 3], b[off + REG_HEADER..Next(b, off)])
  }

  /** The entries of a blob from `off` on, up to the first one that does not fit. */
  function Parse(b: seq<byte>, off: nat := 0): seq<Entry>
    decreases |b| - off
  {
    if !Fits(b, off) then [] else [EntryAt(b, off)] + Parse(b, Next(b, off))
  }

  /** An entry that shows a readable 32-bit value of register `id`. */
  predicate Shows(e: Entry, id: nat) {
    e.id == id && |e.value| == 4 && e.flags % 2 == 0
  }

  /** Index of the first entry that shows `id`, or the number of entries. */
  function First(es: seq<Entry>, id: nat): (k: nat)
    ensures k <= |es|
    ensures k < |es| ==> Shows(es[k], id)
    ensures forall i :: 0 <= i < k ==> !Shows(es[i], id)
  {
    if es == [] || Shows(es[0], id) then 0 else 1 + First(es[1..], id)
  }

  /** The value of `id` a reader of the list sees, -1 when it shows none. */
  function Visible(es: seq<Entry>, id: nat): int {
    if First(es, id) < |es| then U32(es[First(es, id)].value) else -1
  }

  /** Every readable program counter in `b` is `pc`. */
  predicate PcTruthful(b: seq<byte>, pc: nat) {
    forall k :: 0 <= k < |Parse(b)| && Shows(Parse(b)[k], ARM_REG_PC) ==> U32(Parse(b)[k].value) == pc
  }

  /** Offset of the entry that first shows `id` at or after `off`, or -1. */
  function Offset(b: seq<byte>, off: nat, id: nat): (r: int)
    ensures r == -1 || (off <= r && Fits(b, r) && Shows(EntryAt(b, r), id))
    decreases |b| - off
  {
    if !Fits(b, off) then -1
    else if Shows(EntryAt(b, off), id) then off
    else Offset(b, Next(b, off), id)
  }

  /** The blob with its first readable program counter replaced. */
  function Normalized(b: seq<byte>, value: seq<byte>): (r: seq<byte>)
    requires |value| == 4
    ensures |r| == |b|
  {
    var p := Offset(b, 0, ARM_REG_PC);
    if p == -1 then b else Patched(b, p + REG_HEADER, value)
  }

  function Patched(b: seq<byte>, at: nat, value: seq<byte>): (r: seq<byte>)
    requires at + |value| <= |b|
    ensures |r| == |b|
    ensures forall i :: 0 <= i < |b| ==> r[i] == if at <= i < at + |value| then value[i - at] else b[i]
  {
    b[..at] + value + b[at + |value|..]
  }

  /** Entries that start after a change do not see it. */
  lemma {:induction false} ParseAfter(b: seq<byte>, b': seq<byte>, off: nat)
    requires |b| == |b'| && forall i :: off <= i < |b| ==> b[i] == b'[i]
    ensures Parse(b, off) == Parse(b', off)
    decreases |b| - off
  {
    if Fits(b, off) {
      ParseAfter(b, b', Next(b, off));
      assert EntryAt(b, off) == EntryAt(b', off);
    }
  }

  /** The list with the value of its first readable program counter replaced. */
  function ReplaceFirst(es: seq<Entry>, value: seq<byte>): (r: seq<Entry>)
    ensures |r| == |es|
  {
    if es == [] then []
    else if Shows(es[0], ARM_REG_PC) then [es[0].(value := value)] + es[1..]
    else [es[0]] + ReplaceFirst(es[1..], value)
  }

  lemma {:induction false} ReplaceFirstAt(es: seq<Entry>, value: seq<byte>)
    requires |value| == 4
    ensures var k := First(es, ARM_REG_PC);
            ReplaceFirst(es, value) == if k < |es| then es[k := es[k].(value := value)] else es
  {
    if es != [] && !Shows(es[0], ARM_REG_PC) {
      ReplaceFirstAt(es[1..], value);
      var k := First(es[1..], ARM_REG_PC);
      if k < |es[1..]| {
        assert es[k + 1 := es[k + 1].(value := value)] == [es[0]] + es[1..][k := es[1..][k].(value := value)];
      }
    }
  }

  lemma ReplaceStep(es: seq<Entry>, e: Entry, value: seq<byte>)
    ensures ReplaceFirst([e] + es, value) ==
            if Shows(e, ARM_REG_PC) then [e.(value := value)] + es else [e] + ReplaceFirst(es, value)
  {
    assert ([e] + es)[1..] == es;
  }

  lemma ParseStep(b: seq<byte>, off: nat)
    requires Fits(b, off)
    ensures Parse(b, off) == [EntryAt(b, off)] + Parse(b, Next(b, off))
  {
  }

  /** The form of an entry: the id with its low byte first, the size of the value, the flags, and the value. It is
      visible under its id if the value has four bytes and the flags do not say that it is not available. */
  lemma EntryForm(b: seq<byte>)
    requires |b| >= 4 && b[2] == |b| - 4
    ensures Parse(b) == [Entry(b[0] as int + 0x100 * (b[1] as int), b[3], b[4..])]
    ensures Visible(Parse(b), b[0] as int + 0x100 * (b[1] as int)) == if b[2] == 4 && b[3] % 2 == 0 then U32(b[4..]) else -1
  {
    hide Parse, U32, Visible;
    ParseStep(b, 0);
    assert b[4..|b|] == b[4..];
    ParseEnd(b);
    VisibleAlone(EntryAt(b, 0), b[0] as int + 0x100 * (b[1] as int));
  }

  lemma ParseEnd(b: seq<byte>)
    ensures Parse(b, |b|) == []
  {
  }

  lemma VisibleAlone(e: Entry, id: nat)
    requires e.id == id
    ensures Visible([e], id) == if |e.value| == 4 && e.flags % 2 == 0 then U32(e.value) else -1
  {
    hide U32;
    assert [e][1..] == [];
  }

  /** An entry that ends before the change is what it was. */
  lemma EntryBefore(b: seq<byte>, off: nat, at: nat, value: seq<byte>)
    requires Fits(b, off) && Next(b, off) <= at && at + |value| <= |b|
    ensures Fits(Patched(b, at, value), off) && EntryAt(Patched(b, at, value), off) == EntryAt(b, off)
    ensures Next(Patched(b, at, value), off) == Next(b, off)
  {
    assert EntryAt(Patched(b, at, value), off).value == EntryAt(b, off).value;
  }

  /** The changed entry has the new value. */
  lemma EntryChanged(b: seq<byte>, off: nat, value: seq<byte>)
    requires Fits(b, off) && |value| == 4 && |EntryAt(b, off).value| == 4
    ensures var b' := Patched(b, off + REG_HEADER, value);
            Fits(b', off) && EntryAt(b', off) == EntryAt(b, off).(value := value) && Next(b', off) == Next(b, off)
  {
    assert EntryAt(Patched(b, off + REG_HEADER, value), off).value == value;
  }

  lemma {:induction false} PatchedParse(b: seq<byte>, off: nat, value: seq<byte>)
    requires |value| == 4 && Offset(b, off, ARM_REG_PC) != -1
    ensures Parse(Patched(b, Offset(b, off, ARM_REG_PC) + REG_HEADER, value), off) == ReplaceFirst(Parse(b, off), value)
    decreases |b| - off
  {
    hide Parse, ReplaceFirst, Patched;
    var p := Offset(b, off, ARM_REG_PC);
    var b' := Patched(b, p + REG_HEADER, value);
    var rest := Parse(b, Next(b, off));
    ReplaceStep(rest, EntryAt(b, off), value);
    ParseStep(b, off);
    if p == off {
      EntryChanged(b, off, value);
      ParseAfter(b, b', Next(b, off));
    } else {
      PatchedParse(b, Next(b, off), value);
      EntryBefore(b, off, p + REG_HEADER, value);
    }
    ParseStep(b', off);
  }

  lemma {:induction false} NothingShown(b: seq<byte>, off: nat, value: seq<byte>)
    requires Offset(b, off, ARM_REG_PC) == -1
    ensures ReplaceFirst(Parse(b, off), value) == Parse(b, off)
    decreases |b| - off
  {
    if Fits(b, off) {
      NothingShown(b, Next(b, off), value);
      ReplaceStep(Parse(b, Next(b, off)), EntryAt(b, off), value);
    }
  }

  /** Only the four value bytes of the first readable program counter may differ. */
  lemma NormalizedBytes(b: seq<byte>, value: seq<byte>, i: nat)
    requires |value| == 4 && i < |b| && Normalized(b, value)[i] != b[i]
    ensures var p := Offset(b, 0, ARM_REG_PC); p != -1 && p + REG_HEADER <= i < p + REG_HEADER + 4
  {
  }

  lemma NormalizedReplaces(b: seq<byte>, value: seq<byte>)
    requires |value| == 4
    ensures Parse(Normalized(b, value)) == ReplaceFirst(Parse(b), value)
  {
    if Offset(b, 0, ARM_REG_PC) == -1 {
      NothingShown(b, 0, value);
    } else {
      PatchedParse(b, 0, value);
    }
  }

  /** Normalising replaces the value of the first readable program counter; the other entries are
      what they were. */
  lemma NormalizedParse(b: seq<byte>, value: seq<byte>)
    requires |value| == 4
    ensures var es := Parse(b); var k := First(es, ARM_REG_PC);
            Parse(Normalized(b, value)) == if k < |es| then es[k := es[k].(value := value)] else es
  {
    NormalizedReplaces(b, value);
    ReplaceFirstAt(Parse(b), value);
  }

  lemma {:induction false} FirstUnique(es: seq<Entry>, id: nat, k: nat)
    requires k < |es| && Shows(es[k], id) && forall i :: 0 <= i < k ==> !Shows(es[i], id)
    ensures First(es, id) == k
  {
  }

  /** A reader of a normalised blob sees the given program counter whenever it saw one at all. */
  lemma NormalizedVisible(b: seq<byte>, pc: u32)
    ensures Visible(Parse(Normalized(b, U32Bytes(pc))), ARM_REG_PC) ==
            if Visible(Parse(b), ARM_REG_PC) == -1 then -1 else pc
  {
    var value := U32Bytes(pc);
    U32RoundTrip(pc);
    NormalizedParse(b, value);
    VisibleReplaced(Parse(b), value);
  }

  lemma VisibleReplaced(es: seq<Entry>, value: seq<byte>)
    requires |value| == 4
    ensures var k := First(es, ARM_REG_PC);
            Visible(if k < |es| then es[k := es[k].(value := value)] else es, ARM_REG_PC) ==
            if Visible(es, ARM_REG_PC) == -1 then -1 else U32(value)
  {
    var k := First(es, ARM_REG_PC);
    if k < |es| {
      FirstUnique(es[k := es[k].(value := value)], ARM_REG_PC, k);
    }
  }

  lemma TruthfulVisible(b: seq<byte>, pc: nat)
    requires PcTruthful(b, pc)
    ensures Visible(Parse(b), ARM_REG_PC) == -1 || Visible(Parse(b), ARM_REG_PC) == pc
  {
  }

  /** The values a register write gives to the program counter, in order. */
  function PcWrites(es: seq<Entry>): (r: seq<u32>) {
    if es == [] then []
    else (if Shows(es[0], ARM_REG_PC) then [U32(es[0].value)] else []) + PcWrites(es[1..])
  }

  /** A list that writes the program counter at most once shows exactly that value. */
  lemma {:induction false} SingleWriteVisible(es: seq<Entry>)
    requires |PcWrites(es)| <= 1
    ensures Visible(es, ARM_REG_PC) == if PcWrites(es) == [] then -1 else PcWrites(es)[0]
  {
    if es != [] && !Shows(es[0], ARM_REG_PC) {
      SingleWriteVisible(es[1..]);
    }
  }

  /** A well-framed write list: exactly `count` entries, each with a value and no flag. */
  predicate WriteList(b: seq<byte>, off: nat, count: nat)
    decreases count
  {
    if count == 0 then off == |b|
    else Fits(b, off) && b[off + 2] != 0 && b[off + 3] == 0 && WriteList(b, Next(b, off), count - 1)
  }

  /** Checks the framing of a whole write list before any of it is used. */
  method ValidateWriteList(b: seq<byte>, count: nat) returns (valid: bool)
    ensures valid == WriteList(b, 0, count)
  {
    var offset: nat, index := 0, 0;
    while index < count
      invariant 0 <= index <= count && offset <= |b|
      invariant WriteList(b, 0, count) == WriteList(b, offset, count - index)
    {
      if |b| - offset < REG_HEADER {
        return false;
      }
      var valueSize, flags := b[offset + 2], b[offset + 3];
      offset := offset + REG_HEADER;
      if valueSize == 0 || flags != 0 || valueSize > |b| - offset {
        return false;
      }
      offset := offset + valueSize;
      index := index + 1;
    }
    valid := offset == |b|;
  }

  lemma OffsetStep(b: seq<byte>, off: nat, id: nat)
    ensures Offset(b, off, id) ==
            if off + REG_HEADER > |b| || off + REG_HEADER + b[off + 2] > |b| then -1
            else if U16(b[off], b[off + 1]) == id && b[off + 2] == 4 && b[off + 3] % 2 == 0 then off
            else Offset(b, off + REG_HEADER + b[off + 2], id)
  {
  }

  /** Finds the first entry showing `id`. */
  method FindEntry(b: seq<byte>, id: nat) returns (found: bool, at: nat)
    ensures found <==> Offset(b, 0, id) != -1
    ensures found ==> at == Offset(b, 0, id)
  {
    hide Offset;
    var offset := 0;
    found, at := false, 0;
    while offset + REG_HEADER <= |b|
      invariant offset <= |b|
      invariant Offset(b, 0, id) == Offset(b, offset, id)
    {
      OffsetStep(b, offset, id);
      var entrySize := REG_HEADER + b[offset + 2];
      if offset + entrySize > |b| {
        return;
      }
      if U16(b[offset], b[offset + 1]) == id && b[offset + 2] == 4 && b[offset + 3] % 2 == 0 {
        return true, offset;
      }
      offset := offset + entrySize;
    }
    OffsetStep(b, offset, id);
  }

  lemma {:induction false} OffsetVisible(b: seq<byte>, off: nat, id: nat)
    ensures var p := Offset(b, off, id);
            Visible(Parse(b, off), id) == if p == -1 then -1 else U32(EntryAt(b, p).value)
    decreases |b| - off
  {
    if Fits(b, off) {
      OffsetVisible(b, Next(b, off), id);
      var e, rest := EntryAt(b, off), Parse(b, Next(b, off));
      assert ([e] + rest)[1..] == rest;
    }
  }

  /** Rewrites, in place, the program counter of the register blob at data[base..base + size). */
  method NormalizePc(data: array<byte>, base: nat, size: nat, value: seq<byte>)
    requires base + size <= data.Length && |value| == 4
    modifies data
    ensures data[base..base + size] == Normalized(old(data[base..base + size]), value)
    ensures forall i :: 0 <= i < data.Length && !(base <= i < base + size) ==> data[i] == old(data[i])
  {
    hide Offset, Parse;
    ghost var b := data[base..base + size];
    var found, offset := FindEntry(data[base..base + size], ARM_REG_PC);
    if found {
      StoreValue(data, base + offset + REG_HEADER, value);
      assert data[base..base + size] == Patched(b, offset + REG_HEADER, value);
    }
  }

  method StoreValue(data: array<byte>, at: nat, value: seq<byte>)
    requires |value| == 4 && at + 4 <= data.Length
    modifies data
    ensures forall i :: 0 <= i < data.Length ==> data[i] == if at <= i < at + 4 then value[i - at] else old(data[i])
  {
    data[at], data[at + 1], data[at + 2], data[at + 3] := value[0], value[1], value[2], value[3];
  }

  /** Counts the entries of a register blob. */
  method CountEntries(b: seq<byte>) returns (count: nat)
    ensures count == |Parse(b)|
  {
    var offset := 0;
    count := 0;
    while offset + REG_HEADER <= |b|
      invariant offset <= |b|
      invariant |Parse(b)| == count + |Parse(b, offset)|
    {
      var entrySize := REG_HEADER + b[offset + 2];
      if offset + entrySize > |b| {
        break;
      }
      count := count + 1;
      offset := offset + entrySize;
    }
  }
}
