/** The CRC-32 of section 8.1.1.6.2 of ITU-T V.42 in its reflected form: the table-driven update of the
    transport against bit-by-bit division, and what it protects in a message. */
module Crc {

  type octet = bv8

  const POLYNOMIAL: bv32 := 0xEDB8_8320
  const INITIAL_VALUE: bv32 := 0xFFFF_FFFF
  const XOR_OUT: bv32 := 0xFFFF_FFFF
  const CRC_OFFSET: nat := 8
  const HEADER_SIZE: nat := 12
  const MAX_FRAME_SIZE: nat := 8192

  // ---- bit-by-bit division ---------------------------------------------------------

  function Xor(a: bv32, b: bv32): bv32 {
    a ^ b
  }

  function Shr(v: bv32, n: bv32): bv32
    requires n <= 32
  {
    v >> n
  }

  predicate Odd(v: bv32) {
    v & 1 == 1
  }

  predicate LowClear(v: bv32) {
    v & 0xFF == 0
  }

  /** One step of the division: the low bit leaves the register. */
  function Step(v: bv32): bv32 {
    if Odd(v) then Xor(Shr(v, 1), POLYNOMIAL) else Shr(v, 1)
  }

  function Steps(v: bv32, n: nat): bv32
    decreases n
  {
    if n == 0 then v else Steps(Step(v), n - 1)
  }

  /** The register after `data`, fed bit by bit. */
  function Divide(state: bv32, data: seq<octet>): bv32
    decreases |data|
  {
    if data == [] then state else Divide(Steps(Xor(state, data[0] as bv32), 8), data[1..])
  }

  function Finalize(state: bv32): bv32 {
    Xor(state, XOR_OUT)
  }

  lemma DivideStep(state: bv32, data: seq<octet>, next: bv32)
    requires data != [] && Steps(Xor(state, data[0] as bv32), 8) == next
    ensures Divide(state, data) == Divide(next, data[1..])
  {
  }

  lemma DivideNothing(state: bv32, data: seq<octet>)
    requires data == []
    ensures Divide(state, data) == state
  {
  }

  /** Eight steps for each of the nine digits. */
  lemma CheckSteps()
    ensures Steps(0xFFFF_FFCE, 8) == 0x7C23_1048
    ensures Steps(0x7C23_107A, 8) == 0xB0AC_BB32
    ensures Steps(0xB0AC_BB01, 8) == 0x77B7_9C2D
    ensures Steps(0x77B7_9C19, 8) == 0x641C_1F5C
    ensures Steps(0x641C_1F69, 8) == 0x340A_C5E3
    ensures Steps(0x340A_C5D5, 8) == 0xF68D_2C9E
    ensures Steps(0xF68D_2CA9, 8) == 0xAFFC_9660
    ensures Steps(0xAFFC_9658, 8) == 0x651F_2550
    ensures Steps(0x651F_2569, 8) == 0x340B_C6D9
  {
  }

  /** The check value of this CRC: what it makes of the nine digits from 1. */
  lemma CheckValue()
    ensures Finalize(Divide(INITIAL_VALUE, [0x31, 0x32, 0x33, 0x34, 0x35, 0x36, 0x37, 0x38, 0x39])) == 0xCBF4_3926
  {
    hide Steps, Divide;
    var d: seq<octet> := [0x31, 0x32, 0x33, 0x34, 0x35, 0x36, 0x37, 0x38, 0x39];
    CheckSteps();
    DivideStep(0xFFFF_FFFF, d[0..], 0x7C23_1048);
    DivideStep(0x7C23_1048, d[1..], 0xB0AC_BB32);
    DivideStep(0xB0AC_BB32, d[2..], 0x77B7_9C2D);
    DivideStep(0x77B7_9C2D, d[3..], 0x641C_1F5C);
    DivideStep(0x641C_1F5C, d[4..], 0x340A_C5E3);
    DivideStep(0x340A_C5E3, d[5..], 0xF68D_2C9E);
    DivideStep(0xF68D_2C9E, d[6..], 0xAFFC_9660);
    DivideStep(0xAFFC_9660, d[7..], 0x651F_2550);
    DivideStep(0x651F_2550, d[8..], 0x340B_C6D9);
    assert Divide(0x340B_C6D9, d[9..]) == 0x340B_C6D9 by { DivideNothing(0x340B_C6D9, d[9..]); }
  }

  // ---- laws of the division ----------------------------------------------------------

  lemma XorBits(a: bv32, b: bv32)
    ensures Odd(Xor(a, b)) <==> Odd(a) != Odd(b)
    ensures Shr(Xor(a, b), 1) == Xor(Shr(a, 1), Shr(b, 1))
  {
  }

  lemma XorCommutes(a: bv32, b: bv32)
    ensures Xor(a, b) == Xor(b, a)
  {
  }

  lemma XorTwice(a: bv32, c: bv32)
    ensures Xor(Xor(a, c), c) == a
  {
  }

  lemma XorAssociates(a: bv32, b: bv32, c: bv32)
    ensures Xor(a, Xor(b, c)) == Xor(Xor(a, b), c)
  {
  }

  lemma XorSwaps(a: bv32, b: bv32, c: bv32)
    ensures Xor(Xor(a, c), b) == Xor(Xor(a, b), c)
  {
    hide Xor;
    XorAssociates(a, c, b);
    XorAssociates(a, b, c);
    XorCommutes(b, c);
  }

  lemma XorCancels(a: bv32, b: bv32, c: bv32)
    ensures Xor(Xor(a, c), Xor(b, c)) == Xor(a, b)
  {
    hide Xor;
    XorAssociates(Xor(a, c), b, c);
    XorSwaps(a, b, c);
    XorTwice(Xor(a, b), c);
  }

  lemma StepLinear(a: bv32, b: bv32)
    ensures Step(Xor(a, b)) == Xor(Step(a), Step(b))
  {
    hide Odd, Shr, Xor;
    XorBits(a, b);
    XorCancels(Shr(a, 1), Shr(b, 1), POLYNOMIAL);
    XorSwaps(Shr(a, 1), Shr(b, 1), POLYNOMIAL);
    XorAssociates(Shr(a, 1), Shr(b, 1), POLYNOMIAL);
  }

  lemma StepInjective(a: bv32, b: bv32)
    requires Step(a) == Step(b)
    ensures a == b
  {
  }

  lemma {:induction false} StepsLinear(a: bv32, b: bv32, n: nat)
    ensures Steps(Xor(a, b), n) == Xor(Steps(a, n), Steps(b, n))
    decreases n
  {
    hide Step, Xor;
    if n > 0 {
      StepLinear(a, b);
      StepsLinear(Step(a), Step(b), n - 1);
    }
  }

  lemma {:induction false} StepsInjective(a: bv32, b: bv32, n: nat)
    requires Steps(a, n) == Steps(b, n)
    ensures a == b
    decreases n
  {
    if n > 0 {
      StepsInjective(Step(a), Step(b), n - 1);
      StepInjective(a, b);
    }
  }

  lemma EvenBits(v: bv32)
    requires LowClear(v)
    ensures !Odd(v) && !Odd(Shr(v, 1)) && !Odd(Shr(v, 2)) && !Odd(Shr(v, 3))
    ensures !Odd(Shr(v, 4)) && !Odd(Shr(v, 5)) && !Odd(Shr(v, 6)) && !Odd(Shr(v, 7))
  {
  }

  lemma ShiftMore(v: bv32, n: bv32)
    requires n < 8
    ensures Shr(Shr(v, n), 1) == Shr(v, n + 1)
  {
  }

  lemma StepsOfEven(v: bv32, n: nat)
    requires n > 0 && !Odd(v)
    ensures Steps(v, n) == Steps(Shr(v, 1), n - 1)
  {
    hide Odd, Shr, Xor;
  }

  /** Zero bits at the low end just move out. */
  lemma StepsOfHigh(v: bv32)
    requires LowClear(v)
    ensures Steps(v, 8) == Shr(v, 8)
  {
    hide Step, Odd, Shr, Xor, LowClear;
    EvenBits(v);
    ShiftMore(v, 1); ShiftMore(v, 2); ShiftMore(v, 3); ShiftMore(v, 4); ShiftMore(v, 5); ShiftMore(v, 6); ShiftMore(v, 7);
    StepsOfEven(v, 8);
    StepsOfEven(Shr(v, 1), 7);
    StepsOfEven(Shr(v, 2), 6);
    StepsOfEven(Shr(v, 3), 5);
    StepsOfEven(Shr(v, 4), 4);
    StepsOfEven(Shr(v, 5), 3);
    StepsOfEven(Shr(v, 6), 2);
    StepsOfEven(Shr(v, 7), 1);
  }

  // ---- the lookup table -----------------------------------------------------------------

  function TableEntry(index: octet): bv32 {
    Steps(index as bv32, 8)
  }

  /** The table index for the next byte: the low byte of their difference. */
  function Index(state: bv32, data: octet): octet {
    (Xor(state, data as bv32) & 0xFF) as octet
  }

  function High(v: bv32): bv32 {
    v & 0xFFFF_FF00
  }

  /** The register after one byte, looked up. */
  function Lookup(state: bv32, data: octet): bv32 {
    Xor(TableEntry(Index(state, data)), Shr(state, 8))
  }

  lemma SplitLow(state: bv32, data: octet)
    ensures var x := Xor(state, data as bv32); x == Xor(Index(state, data) as bv32, High(x))
    ensures var x := Xor(state, data as bv32); LowClear(High(x)) && Shr(High(x), 8) == Shr(state, 8)
  {
  }

  /** One table lookup is eight steps of the division. */
  lemma LookupIsDivision(state: bv32, data: octet)
    ensures Lookup(state, data) == Steps(Xor(state, data as bv32), 8)
  {
    hide Step, Steps, Odd, Shr, Xor, LowClear, Index, High;
    var x := Xor(state, data as bv32);
    SplitLow(state, data);
    StepsLinear(Index(state, data) as bv32, High(x), 8);
    StepsOfHigh(High(x));
  }

  /** Dividing a concatenation is dividing its parts in turn. */
  lemma {:induction false} DivideAppend(state: bv32, a: seq<octet>, b: seq<octet>)
    ensures Divide(state, a + b) == Divide(Divide(state, a), b)
    decreases |a|
  {
    hide Steps, Xor;
    if a == [] {
      assert a + b == b;
    } else {
      assert (a + b)[1..] == a[1..] + b;
      DivideAppend(Steps(Xor(state, a[0] as bv32), 8), a[1..], b);
    }
  }

  lemma {:induction false} DivideInjective(s: bv32, t: bv32, data: seq<octet>)
    requires Divide(s, data) == Divide(t, data)
    ensures s == t
    decreases |data|
  {
    hide Steps, Xor;
    if data != [] {
      var d := data[0] as bv32;
      DivideInjective(Steps(Xor(s, d), 8), Steps(Xor(t, d), 8), data[1..]);
      StepsInjective(Xor(s, d), Xor(t, d), 8);
      XorTwice(s, d);
      XorTwice(t, d);
    }
  }

  // ---- burst errors -------------------------------------------------------------------------

  function Shl8(v: bv32): bv32 {
    v << 8
  }

  /** Up to four bytes as one little-endian word. */
  function Word(x: seq<octet>): bv32 {
    if x == [] then 0 else Xor(x[0] as bv32, Shl8(Word(x[1..])))
  }

  /** Only the low `n` bytes of `v` can be set. */
  predicate Narrow(v: bv32, n: nat) {
    if n >= 4 then true else v & Above(n) == 0
  }

  function Above(n: nat): bv32
    requires n < 4
  {
    if n == 3 then 0xFF00_0000 else if n == 2 then 0xFFFF_0000 else if n == 1 then 0xFFFF_FF00 else 0xFFFF_FFFF
  }

  lemma ShiftBack(v: bv32)
    requires v & 0xFF00_0000 == 0
    ensures LowClear(Shl8(v)) && Shr(Shl8(v), 8) == v
  {
  }

  lemma NarrowTop(v: bv32, n: nat)
    requires n < 4 && Narrow(v, n)
    ensures v & 0xFF00_0000 == 0
  {
    if n == 2 {
      assert v & 0xFFFF_0000 == 0;
    } else if n == 1 {
      assert v & 0xFFFF_FF00 == 0;
    }
  }

  lemma Narrow1(b: octet, v: bv32)
    requires v & 0xFFFF_FFFF == 0
    ensures Xor(b as bv32, Shl8(v)) & 0xFFFF_FF00 == 0
  {
  }

  lemma Narrow2(b: octet, v: bv32)
    requires v & 0xFFFF_FF00 == 0
    ensures Xor(b as bv32, Shl8(v)) & 0xFFFF_0000 == 0
  {
  }

  lemma Narrow3(b: octet, v: bv32)
    requires v & 0xFFFF_0000 == 0
    ensures Xor(b as bv32, Shl8(v)) & 0xFF00_0000 == 0
  {
  }

  lemma NarrowGrows(b: octet, v: bv32, n: nat)
    requires n < 4 && Narrow(v, n)
    ensures Narrow(Xor(b as bv32, Shl8(v)), n + 1)
    ensures LowClear(Shl8(v)) && Shr(Shl8(v), 8) == v
  {
    hide Xor, Shl8, Shr, LowClear;
    NarrowTop(v, n);
    ShiftBack(v);
    if n == 0 {
      Narrow1(b, v);
    } else if n == 1 {
      Narrow2(b, v);
    } else if n == 2 {
      Narrow3(b, v);
    }
  }

  lemma {:induction false} WordNarrow(x: seq<octet>)
    requires |x| <= 4
    ensures Narrow(Word(x), |x|)
    decreases |x|
  {
    hide Xor, Shl8;
    if x != [] {
      WordNarrow(x[1..]);
      NarrowGrows(x[0], Word(x[1..]), |x| - 1);
    }
  }

  lemma FirstByteSplits(a: octet, b: octet, v: bv32, w: bv32)
    requires Xor(a as bv32, Shl8(v)) == Xor(b as bv32, Shl8(w))
    ensures a == b && Shl8(v) == Shl8(w)
  {
  }

  lemma {:induction false} WordInjective(x: seq<octet>, y: seq<octet>)
    requires |x| == |y| <= 4 && Word(x) == Word(y)
    ensures x == y
    decreases |x|
  {
    hide Xor, Shl8, Shr;
    if x != [] {
      FirstByteSplits(x[0], y[0], Word(x[1..]), Word(y[1..]));
      WordNarrow(x[1..]);
      WordNarrow(y[1..]);
      NarrowGrows(x[0], Word(x[1..]), |x| - 1);
      NarrowGrows(y[0], Word(y[1..]), |x| - 1);
      WordInjective(x[1..], y[1..]);
      assert x == [x[0]] + x[1..] && y == [y[0]] + y[1..];
    }
  }

  /** Eight steps absorb a word that has yet to move in. */
  lemma Absorb(v: bv32, w: bv32)
    requires LowClear(w)
    ensures Xor(Steps(v, 8), Shr(w, 8)) == Steps(Xor(v, w), 8)
  {
    hide Step, Steps, Odd, Shr, Xor, LowClear;
    StepsLinear(v, w, 8);
    StepsOfHigh(w);
  }

  /** Up to four bytes enter the register without loss: equal results mean equal register and word. */
  lemma {:induction false} ShortBurst(s: bv32, t: bv32, x: seq<octet>, y: seq<octet>)
    requires |x| == |y| <= 4 && Divide(s, x) == Divide(t, y)
    ensures Xor(s, Word(x)) == Xor(t, Word(y))
    decreases |x|
  {
    hide Step, Steps, Odd, Shr, Xor, LowClear, Shl8, Narrow;
    if x != [] {
      var a, b := x[0] as bv32, y[0] as bv32;
      var v, w := Word(x[1..]), Word(y[1..]);
      ShortBurst(Steps(Xor(s, a), 8), Steps(Xor(t, b), 8), x[1..], y[1..]);
      WordNarrow(x[1..]);
      WordNarrow(y[1..]);
      NarrowGrows(x[0], v, |x| - 1);
      NarrowGrows(y[0], w, |x| - 1);
      Absorb(Xor(s, a), Shl8(v));
      Absorb(Xor(t, b), Shl8(w));
      StepsInjective(Xor(Xor(s, a), Shl8(v)), Xor(Xor(t, b), Shl8(w)), 8);
      XorAssociates(s, a, Shl8(v));
      XorAssociates(t, b, Shl8(w));
    }
  }

  /** Changing at most four consecutive bytes changes the remainder. */
  lemma BurstDetected(state: bv32, head: seq<octet>, x: seq<octet>, y: seq<octet>, tail: seq<octet>)
    requires |x| == |y| <= 4 && x != y
    ensures Divide(state, head + x + tail) != Divide(state, head + y + tail)
  {
    hide Steps, Xor, Word;
    var s := Divide(state, head);
    DivideAppend(state, head + x, tail);
    DivideAppend(state, head, x);
    DivideAppend(state, head + y, tail);
    DivideAppend(state, head, y);
    if Divide(Divide(s, x), tail) == Divide(Divide(s, y), tail) {
      DivideInjective(Divide(s, x), Divide(s, y), tail);
      ShortBurst(s, s, x, y);
      XorSameLeft(s, Word(x), Word(y));
      WordInjective(x, y);
    }
  }

  lemma XorSameLeft(s: bv32, a: bv32, b: bv32)
    requires Xor(s, a) == Xor(s, b)
    ensures a == b
  {
  }

  // ---- messages ---------------------------------------------------------------------------------

  predicate ValidSize(n: nat) {
    HEADER_SIZE <= n <= MAX_FRAME_SIZE
  }

  /** The bytes the CRC of a message covers: all but its own field. */
  function Covered(message: seq<octet>): (r: seq<octet>)
    requires ValidSize(|message|)
    ensures |r| == |message| - 4
  {
    message[..CRC_OFFSET] + message[HEADER_SIZE..]
  }

  function MessageCrc(message: seq<octet>): bv32
    requires ValidSize(|message|)
  {
    Finalize(Divide(INITIAL_VALUE, Covered(message)))
  }

  function ToBytes(v: bv32): (r: seq<octet>)
    ensures |r| == 4
  {
    [(v & 0xFF) as octet, ((v >> 8) & 0xFF) as octet, ((v >> 16) & 0xFF) as octet, ((v >> 24) & 0xFF) as octet]
  }

  function FromBytes(b: seq<octet>): bv32
    requires |b| == 4
  {
    (b[0] as bv32) | ((b[1] as bv32) << 8) | ((b[2] as bv32) << 16) | ((b[3] as bv32) << 24)
  }

  lemma BytesRoundTrip(v: bv32)
    ensures FromBytes(ToBytes(v)) == v
  {
  }

  lemma FromBytesInjective(a: seq<octet>, b: seq<octet>)
    requires |a| == |b| == 4 && FromBytes(a) == FromBytes(b)
    ensures a == b
  {
  }

  predicate Verified(message: seq<octet>) {
    ValidSize(|message|) && FromBytes(message[CRC_OFFSET..HEADER_SIZE]) == MessageCrc(message)
  }

  /** The message with its CRC filled in. */
  function WithCrc(message: seq<octet>): (r: seq<octet>)
    requires ValidSize(|message|)
    ensures |r| == |message|
  {
    message[..CRC_OFFSET] + ToBytes(MessageCrc(message)) + message[HEADER_SIZE..]
  }

  /** Setting the CRC touches no covered byte, and makes the message verify. */
  lemma SetThenVerify(message: seq<octet>)
    requires ValidSize(|message|)
    ensures Covered(WithCrc(message)) == Covered(message)
    ensures Verified(WithCrc(message))
  {
    hide Divide, Xor, FromBytes, ToBytes;
    var m := WithCrc(message);
    assert m[..CRC_OFFSET] == message[..CRC_OFFSET] && m[HEADER_SIZE..] == message[HEADER_SIZE..];
    assert m[CRC_OFFSET..HEADER_SIZE] == ToBytes(MessageCrc(message));
    BytesRoundTrip(MessageCrc(message));
  }

  /** Where the CRC stands: in bytes 8 to 11, the low byte first, over all the others. */
  lemma VerifiedMeans(m: seq<octet>)
    ensures Verified(m) <==> 12 <= |m| <= 8192 && m[8..12] == ToBytes(Finalize(Divide(0xFFFF_FFFF, m[..8] + m[12..])))
    ensures ToBytes(0x0403_0201) == [1, 2, 3, 4]
  {
    hide Divide, Finalize, FromBytes;
    if ValidSize(|m|) {
      BytesRoundTrip(MessageCrc(m));
      if Verified(m) {
        FromBytesInjective(m[8..12], ToBytes(MessageCrc(m)));
      }
    }
  }

  /** Verification accepts exactly one CRC field for given covered bytes. */
  lemma VerifiedIsSet(message: seq<octet>)
    requires Verified(message)
    ensures message == WithCrc(message)
  {
    hide Divide, Xor, FromBytes, ToBytes;
    BytesRoundTrip(MessageCrc(message));
    FromBytesInjective(message[CRC_OFFSET..HEADER_SIZE], ToBytes(MessageCrc(message)));
    assert message == message[..CRC_OFFSET] + message[CRC_OFFSET..HEADER_SIZE] + message[HEADER_SIZE..];
  }

  /** Any change confined to four consecutive covered bytes of a valid message is noticed. */
  lemma CorruptionDetected(message: seq<octet>, damaged: seq<octet>, i: nat)
    requires Verified(message) && |damaged| == |message| && damaged != message
    requires damaged[CRC_OFFSET..HEADER_SIZE] == message[CRC_OFFSET..HEADER_SIZE]
    requires i <= |message| - 4
    requires forall k :: 0 <= k < |message| - 4 && !(i <= k < i + 4) ==> Covered(damaged)[k] == Covered(message)[k]
    ensures !Verified(damaged)
  {
    hide Divide, Xor, FromBytes, ToBytes;
    var a, b := Covered(message), Covered(damaged);
    var n := |a|;
    var end := if i + 4 <= n then i + 4 else n;
    assert a == a[..i] + a[i..end] + a[end..];
    assert b == a[..i] + b[i..end] + a[end..];
    if a[i..end] == b[i..end] {
      assert a == b;
      SameCovered(message, damaged);
    } else {
      BurstDetected(INITIAL_VALUE, a[..i], a[i..end], b[i..end], a[end..]);
      if Verified(damaged) {
        XorSame(Divide(INITIAL_VALUE, a), Divide(INITIAL_VALUE, b), XOR_OUT);
      }
    }
  }

  lemma XorSame(a: bv32, b: bv32, c: bv32)
    requires Xor(a, c) == Xor(b, c)
    ensures a == b
  {
  }

  /** A message is its covered bytes and its CRC field. */
  lemma SameCovered(a: seq<octet>, b: seq<octet>)
    requires ValidSize(|a|) && |b| == |a| && Covered(a) == Covered(b)
    requires a[CRC_OFFSET..HEADER_SIZE] == b[CRC_OFFSET..HEADER_SIZE]
    ensures a == b
  {
    assert a[..CRC_OFFSET] == Covered(a)[..CRC_OFFSET] && b[..CRC_OFFSET] == Covered(b)[..CRC_OFFSET];
    assert a[HEADER_SIZE..] == Covered(a)[CRC_OFFSET..] && b[HEADER_SIZE..] == Covered(b)[CRC_OFFSET..];
    assert a == a[..CRC_OFFSET] + a[CRC_OFFSET..HEADER_SIZE] + a[HEADER_SIZE..];
    assert b == b[..CRC_OFFSET] + b[CRC_OFFSET..HEADER_SIZE] + b[HEADER_SIZE..];
  }

  // ---- the transport's code ------------------------------------------------------------------------

  predicate IsTable(t: seq<bv32>) {
    |t| == 256 && forall i: int :: 0 <= i < 256 ==> t[i] == TableEntry(i as octet)
  }

  /** Builds the lookup table. */
  method MakeTable() returns (table: array<bv32>)
    ensures fresh(table) && IsTable(table[..])
  {
    hide Step, Steps;
    table := new bv32[256](i => 0);
    for index := 0 to 256
      invariant forall i: int :: 0 <= i < index ==> table[i] == TableEntry(i as octet)
    {
      table[index] := BuildEntry(index as octet);
    }
  }

  method BuildEntry(index: octet) returns (value: bv32)
    ensures value == TableEntry(index)
  {
    value := index as bv32;
    for bit := 0 to 8
      invariant Steps(value, 8 - bit) == Steps(index as bv32, 8)
    {
      if value & 1 != 0 {
        value := (value >> 1) ^ 0xEDB8_8320;
      } else {
        value := value >> 1;
      }
    }
  }

  /** The table-driven update computes the division. */
  method Update(table: seq<bv32>, state: bv32, data: seq<octet>) returns (r: bv32)
    requires IsTable(table)
    ensures r == Divide(state, data)
  {
    hide Steps, Xor, Shr, Index, TableEntry;
    r := state;
    for i := 0 to |data|
      invariant Divide(r, data[i..]) == Divide(state, data)
    {
      assert data[i..][1..] == data[i + 1..];
      LookupIsDivision(r, data[i]);
      var index := Index(r, data[i]);
      r := Xor(table[index as int], Shr(r, 8));
    }
    assert data[|data|..] == [];
  }

  method CalculateMessage(table: seq<bv32>, message: seq<octet>) returns (ok: bool, crc: bv32)
    requires IsTable(table)
    ensures ok <==> ValidSize(|message|)
    ensures ok ==> crc == MessageCrc(message)
  {
    hide Divide, Xor, IsTable;
    if !(HEADER_SIZE <= |message| <= MAX_FRAME_SIZE) {
      return false, 0;
    }
    DivideAppend(INITIAL_VALUE, message[..CRC_OFFSET], message[HEADER_SIZE..]);
    crc := Update(table, INITIAL_VALUE, message[..CRC_OFFSET]);
    crc := Update(table, crc, message[HEADER_SIZE..]);
    ok, crc := true, Finalize(crc);
  }

  method SetMessageCrc(table: seq<bv32>, message: array<octet>) returns (ok: bool)
    requires IsTable(table)
    modifies message
    ensures ok <==> ValidSize(message.Length)
    ensures message[..] == if ok then WithCrc(old(message[..])) else old(message[..])
  {
    hide Divide, Xor, IsTable, ToBytes;
    var crc;
    ok, crc := CalculateMessage(table, message[..]);
    if ok {
      var field := ToBytes(crc);
      message[8], message[9], message[10], message[11] := field[0], field[1], field[2], field[3];
    }
  }

  method VerifyMessageCrc(table: seq<bv32>, message: seq<octet>) returns (ok: bool)
    requires IsTable(table)
    ensures ok <==> Verified(message)
  {
    hide Divide, Xor, IsTable, FromBytes;
    var crc;
    ok, crc := CalculateMessage(table, message);
    if ok {
      ok := FromBytes(message[CRC_OFFSET..HEADER_SIZE]) == crc;
    }
  }
}
