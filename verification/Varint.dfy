/** Protocol Buffers integers on the wire: "Base 128 Varints" and "Signed Integers". */
module Varint {
  import Machine

  type byte = Machine.byte

  const TWO_32: nat := 0x1_0000_0000
  const TWO_64: nat := 0x1_0000_0000_0000_0000
  /** No 64-bit varint is longer. */
  const MAX_VARINT: nat := 10

  // ---- the format -----------------------------------------------------------------------

  /** The canonical form: groups of seven bits, low group first, all but the last marked. */
  function Base128(v: nat): (r: seq<byte>)
    ensures |r| >= 1
    decreases v
  {
    if v < 128 then [v] else [v % 128 + 128] + Base128(v / 128)
  }

  /** The number of bytes up to and including the first unmarked one; 0 if there is none. */
  function Len(s: seq<byte>): (n: nat)
    ensures n <= |s|
    ensures n > 0 ==> s[n - 1] < 128 && forall i :: 0 <= i < n - 1 ==> s[i] >= 128
    ensures n == 0 ==> forall i :: 0 <= i < |s| ==> s[i] >= 128
    decreases |s|
  {
    if s == [] then 0
    else if s[0] < 128 then 1
    else
      var n := Len(s[1..]);
      assert forall i :: 0 < i < |s| ==> s[i] == s[1..][i - 1];
      if n == 0 then 0 else n + 1
  }

  function Pow128(n: nat): (r: nat)
    ensures r >= 1
  {
    if n == 0 then 1 else 128 * Pow128(n - 1)
  }

  /** The value the first `n` groups of `s` stand for. */
  function Low(s: seq<byte>, n: nat): nat
    requires n <= |s|
  {
    if n == 0 then 0 else Low(s, n - 1) + s[n - 1] % 128 * Pow128(n - 1)
  }

  datatype Option<T> = None | Some(value: T)

  /** A decoded integer and the bytes it took. */
  datatype Decoded = Decoded(value: nat, size: nat)

  /** What a varint of up to 64 bits at the head of `s` means. */
  function Parse64(s: seq<byte>): (r: Option<Decoded>)
    ensures r.Some? ==> 0 < r.value.size <= |s| && r.value.size <= MAX_VARINT
  {
    var n := Len(s);
    if n == 0 || n > MAX_VARINT || (n == MAX_VARINT && s[9] > 1) then None
    else Some(Decoded(Low(s, n), n))
  }

  /** The bytes beyond the fifth that a 32-bit reader accepts: zero groups, or the extension of the sign. */
  predicate Extends(s: seq<byte>, n: nat)
    requires n <= |s|
  {
    && (n >= 5 ==> s[4] / 16 % 8 == 0 || s[4] / 8 % 16 == 15)
    && forall j :: 5 <= j < n ==> s[j] % 128 == 0 || (s[4] / 8 % 2 == 1 && s[j] == if j < 9 then 255 else 1)
  }

  function Parse32(s: seq<byte>): (r: Option<Decoded>)
    ensures r.Some? ==> 0 < r.value.size <= |s| && r.value.value < TWO_32
  {
    var n := Len(s);
    if n == 0 || n > MAX_VARINT || !Extends(s, n) then None
    else Some(Decoded(Low(s, n) % TWO_32, n))
  }

  // ---- the canonical form round-trips ---------------------------------------------------------

  lemma {:induction false} LowFront(s: seq<byte>, n: nat)
    requires 0 < n <= |s|
    ensures Low(s, n) == s[0] % 128 + 128 * Low(s[1..], n - 1)
    decreases n
  {
    if n == 1 {
      assert Low(s, 0) == 0 && Pow128(0) == 1;
    } else {
      LowFront(s, n - 1);
      assert s[n - 1] == s[1..][n - 2];
      Scale(s[n - 1] % 128, Pow128(n - 2), Low(s[1..], n - 2));
    }
  }

  lemma Scale(d: nat, p: nat, l: nat)
    ensures 128 * l + d * (128 * p) == 128 * (l + d * p)
  {
  }

  lemma {:induction false} LowPrefix(s: seq<byte>, t: seq<byte>, n: nat)
    requires n <= |s| && n <= |t| && s[..n] == t[..n]
    ensures Low(s, n) == Low(t, n)
    decreases n
  {
    if n > 0 {
      assert s[..n - 1] == s[..n][..n - 1] && t[..n - 1] == t[..n][..n - 1];
      assert s[n - 1] == s[..n][n - 1] && t[n - 1] == t[..n][n - 1];
      LowPrefix(s, t, n - 1);
    }
  }

  /** The canonical form ends where it says, and stands for its value. */
  lemma {:induction false} CanonicalMeans(v: nat, rest: seq<byte>)
    ensures Len(Base128(v) + rest) == |Base128(v)|
    ensures Low(Base128(v) + rest, |Base128(v)|) == v
    decreases v
  {
    var s := Base128(v) + rest;
    if v >= 128 {
      assert s[1..] == Base128(v / 128) + rest;
      CanonicalMeans(v / 128, rest);
    } else {
      assert Low(s[1..], 0) == 0;
    }
    LowFront(s, |Base128(v)|);
  }

  /** The number of groups a value needs. */
  lemma {:induction false} CanonicalSize(v: nat, n: nat)
    requires n >= 1 && v < Pow128(n)
    ensures |Base128(v)| <= n
    decreases n
  {
    if v >= 128 {
      assert Pow128(1) == 128;
      CanonicalSize(v / 128, n - 1);
    }
  }

  lemma Powers()
    ensures Pow128(1) == 0x80 && Pow128(2) == 0x4000 && Pow128(3) == 0x20_0000 && Pow128(4) == 0x1000_0000
    ensures Pow128(5) == 0x8_0000_0000 && Pow128(6) == 0x400_0000_0000 && Pow128(7) == 0x2_0000_0000_0000
    ensures Pow128(8) == 0x100_0000_0000_0000 && Pow128(9) == 0x8000_0000_0000_0000 && Pow128(10) == 64 * TWO_64
  {
    assert Pow128(5) == 128 * Pow128(4);
    assert Pow128(7) == 128 * Pow128(6) == 128 * 128 * Pow128(5);
    assert Pow128(9) == 128 * Pow128(8) == 128 * 128 * Pow128(7);
  }

  /** The groups before the last stay below its weight. */
  lemma {:induction false} LowBound(s: seq<byte>, n: nat)
    requires n <= |s|
    ensures Low(s, n) < Pow128(n)
    decreases n
  {
    if n > 0 {
      LowBound(s, n - 1);
      Weight(s[n - 1] % 128, Pow128(n - 1));
    }
  }

  lemma Weight(d: nat, p: nat)
    requires d < 128
    ensures d * p + p <= 128 * p
  {
    assert d * p + p == (d + 1) * p;
    assert (128 - (d + 1)) * p >= 0;
  }

  /** The 64-bit decoder inverts the encoder, whatever follows on the wire. */
  lemma RoundTrip64(v: nat, rest: seq<byte>)
    requires v < TWO_64
    ensures Parse64(Base128(v) + rest) == Some(Decoded(v, |Base128(v)|))
  {
    var s, n := Base128(v) + rest, |Base128(v)|;
    CanonicalMeans(v, rest);
    Powers();
    CanonicalSize(v, 10);
    if n == 10 && s[9] > 1 {
      LastGroup(s, 9);
    }
  }

  lemma LastGroup(s: seq<byte>, i: nat)
    requires i < |s| && s[i] < 128
    ensures Low(s, i + 1) >= s[i] * Pow128(i)
  {
  }

  /** Whatever the 64-bit decoder accepts is below 2^64. */
  lemma Parse64Fits(s: seq<byte>)
    requires Parse64(s).Some?
    ensures Parse64(s).value.value < TWO_64
  {
    var n := Len(s);
    Powers();
    LowBound(s, n);
    if n == 10 {
      LowBound(s, 9);
    } else {
      PowGrows(n, 9);
    }
  }

  lemma {:induction false} PowGrows(m: nat, n: nat)
    requires m <= n
    ensures Pow128(m) <= Pow128(n)
    decreases n - m
  {
    if m < n {
      PowGrows(m, n - 1);
    }
  }

  // ---- the 32-bit reader -------------------------------------------------------------------------

  /** The 32-bit reader agrees with the 64-bit one modulo 2^32, and accepts nothing else. */
  lemma Parse32Truncates(s: seq<byte>)
    requires Parse32(s).Some?
    ensures Parse64(s).Some?
    ensures Parse32(s).value == Decoded(Parse64(s).value.value % TWO_32, Parse64(s).value.size)
  {
    var n := Len(s);
    if n == 10 {
      assert s[9] % 128 == 0 || s[9] == 1;
    }
  }

  /** Every unsigned 32-bit value comes back through the 32-bit reader. */
  lemma RoundTrip32(v: nat, rest: seq<byte>)
    requires v < TWO_32
    ensures Parse32(Base128(v) + rest) == Some(Decoded(v, |Base128(v)|))
  {
    hide Base128, Len, Low;
    var s, n := Base128(v) + rest, |Base128(v)|;
    CanonicalMeans(v, rest);
    Powers();
    CanonicalSize(v, 5);
    if n == 5 && s[4] >= 16 {
      LastGroup(s, 4);
    }
  }

  /** The groups of a value, one by one. */
  lemma {:induction false} GroupOf(v: nat, rest: seq<byte>, i: nat)
    requires i < |Base128(v)|
    ensures (Base128(v) + rest)[i] % 128 == v / Pow128(i) % 128
    decreases i
  {
    if i > 0 {
      var s := Base128(v) + rest;
      assert s[1..] == Base128(v / 128) + rest;
      GroupOf(v / 128, rest, i - 1);
      assert s[i] == s[1..][i - 1];
      DivDiv(v, Pow128(i - 1));
    }
  }

  lemma DivDiv(v: nat, p: nat)
    requires p > 0
    ensures v / 128 / p == v / (128 * p)
  {
    var q := v / 128;
    var k := q / p;
    assert v == 128 * q + v % 128;
    assert q == p * k + q % p;
    assert v == (128 * p) * k + (128 * (q % p) + v % 128) by {
      assert 128 * (p * k) == (128 * p) * k;
    }
    assert 0 <= 128 * (q % p) + v % 128 < 128 * p;
    DivUnique(v, 128 * p, k, 128 * (q % p) + v % 128);
  }

  lemma DivUnique(v: nat, d: nat, k: nat, r: nat)
    requires d > 0 && v == d * k + r && r < d
    ensures v / d == k
  {
    var k' := v / d;
    assert v == d * k' + v % d;
    assert d * (k - k') == d * k - d * k';
    if k != k' {
      Apart(d, k - k');
    }
  }

  lemma Apart(d: nat, e: int)
    requires d > 0 && e != 0
    ensures d * e >= d || d * e + d <= 0
  {
    if e > 0 {
      assert d * (e - 1) >= 0;
    } else {
      assert d * (-1 - e) >= 0;
    }
  }

  lemma {:induction false} CanonicalLarge(v: nat, n: nat)
    requires v >= Pow128(n)
    ensures |Base128(v)| > n
    decreases n
  {
    if n > 0 {
      assert v >= 128 * Pow128(n - 1);
      CanonicalLarge(v / 128, n - 1);
    }
  }

  /** Every negative 32-bit value comes back too, from the ten bytes of its 64-bit form. */
  lemma RoundTripNegative(x: int, rest: seq<byte>)
    requires -0x8000_0000 <= x < 0
    ensures var v: nat := TWO_64 + x;
            Parse32(Base128(v) + rest) == Some(Decoded(TWO_32 + x, 10))
  {
    hide Base128, Low, Pow128, Len, Extends;
    var v: nat := TWO_64 + x;
    var s := Base128(v) + rest;
    CanonicalMeans(v, rest);
    Powers();
    CanonicalSize(v, 10);
    CanonicalLarge(v, 9);
    LenMarks(s);
    GroupOf(v, rest, 4);
    NegativeGroups(x);
    forall j | 5 <= j < 10 ensures s[j] == if j < 9 then 255 else 1 {
      GroupOf(v, rest, j);
    }
    NegativeExtends(s);
    LowWord(x);
  }

  lemma LenMarks(s: seq<byte>)
    ensures forall i :: 0 <= i < Len(s) - 1 ==> s[i] >= 128
    ensures Len(s) > 0 ==> s[Len(s) - 1] < 128
  {
  }

  lemma LowWord(x: int)
    requires -0x8000_0000 <= x < 0
    ensures (TWO_64 + x) % TWO_32 == TWO_32 + x
  {
  }

  lemma NegativeExtends(s: seq<byte>)
    requires |s| >= 10 && s[4] >= 248
    requires forall j :: 5 <= j < 10 ==> s[j] == if j < 9 then 255 else 1
    ensures Extends(s, 10)
  {
  }

  lemma NegativeGroups(x: int)
    requires -0x8000_0000 <= x < 0
    ensures var v: nat := TWO_64 + x;
            && v / Pow128(4) % 128 >= 120
            && (forall j :: 5 <= j < 10 ==> v / Pow128(j) % 128 == if j < 9 then 127 else 1)
  {
    Powers();
    var v: nat := TWO_64 + x;
    assert v / 0x1000_0000 >= 0x10_0000_0000 - 8;
    assert v / Pow128(5) == 0x2000_0000 - 1;
    assert v / Pow128(6) == 0x40_0000 - 1;
    assert v / Pow128(7) == 0x8000 - 1;
    assert v / Pow128(8) == 0x100 - 1;
    assert v / Pow128(9) == 1;
    forall j | 5 <= j < 10 ensures v / Pow128(j) % 128 == if j < 9 then 127 else 1 {
      if j == 5 {} else if j == 6 {} else if j == 7 {} else if j == 8 {} else {}
    }
  }

  // ---- what the 32-bit reader loses ----------------------------------------------------------------

  /** Nothing of the varint lies above the low word. */
  predicate FitsWord(s: seq<byte>) {
    Len(s) < 5 || (s[4] % 128 < 16 && forall j :: 5 <= j < Len(s) ==> s[j] % 128 == 0)
  }

  /** The ten bytes of the 64-bit form of a negative 32-bit value. */
  predicate SignExtended(s: seq<byte>) {
    Len(s) == 10 && s[4] / 8 % 16 == 15 && (forall j :: 5 <= j < 9 ==> s[j] == 255) && s[9] == 1
  }

  /** The groups from `m` on are zero, or they count. */
  lemma {:induction false} LowTail(s: seq<byte>, m: nat, n: nat)
    requires m <= n <= |s|
    ensures if forall j :: m <= j < n ==> s[j] % 128 == 0 then Low(s, n) == Low(s, m) else Low(s, n) >= Pow128(m)
    decreases n - m
  {
    if m < n {
      LowTail(s, m, n - 1);
      PowGrows(m, n - 1);
      if s[n - 1] % 128 != 0 {
        Counts(s[n - 1] % 128, Pow128(n - 1));
      }
    }
  }

  lemma Counts(d: nat, p: nat)
    requires d > 0
    ensures d * p >= p
  {
    assert d * p == p + (d - 1) * p;
    assert (d - 1) * p >= 0;
  }

  /** Exactly which of the varints it accepts the 32-bit reader reads without loss. */
  lemma ReadsExactly(s: seq<byte>)
    requires Parse32(s).Some?
    ensures Parse64(s).Some?
    ensures Parse32(s).value.value == Parse64(s).value.value <==> FitsWord(s)
  {
    hide Extends, Len;
    var n := Len(s);
    Parse32Truncates(s);
    Powers();
    if n < 5 {
      LowBound(s, n);
      PowGrows(n, 4);
    } else {
      LowBound(s, 4);
      LowTail(s, 5, n);
      LowFive(s);
      if exists j :: 5 <= j < n && s[j] % 128 != 0 {
        assert Low(s, n) >= TWO_32;
      }
    }
  }

  lemma LowFive(s: seq<byte>)
    requires |s| >= 5
    ensures Pow128(4) == 0x1000_0000 && Low(s, 5) == Low(s, 4) + s[4] % 128 * Pow128(4) && Low(s, 4) < Pow128(4)
  {
    Powers();
    LowBound(s, 4);
  }

  /** A value within `e` of the top of its range has nothing but ones above the groups `e` reaches. */
  lemma {:induction false} TopGroups(s: seq<byte>, m: nat, n: nat, e: nat)
    requires m <= n <= |s| && 0 < e <= Pow128(m)
    ensures Low(s, n) + e >= Pow128(n) <==>
              Low(s, m) + e >= Pow128(m) && forall j :: m <= j < n ==> s[j] % 128 == 127
    decreases n - m
  {
    if m < n {
      TopGroups(s, m, n - 1, e);
      LowBound(s, n - 1);
      PowGrows(m, n - 1);
      TopGroup(s[n - 1] % 128, Pow128(n - 1), Low(s, n - 1), e);
    }
  }

  lemma TopGroup(d: nat, p: nat, l: nat, e: nat)
    requires d < 128 && l < p && e <= p
    ensures l + d * p + e >= 128 * p <==> d == 127 && l + e >= p
  {
    if d == 127 {
      assert d * p == 127 * p;
    } else {
      AtMost(d, 126, p);
    }
  }

  lemma AtMost(d: nat, c: nat, p: nat)
    requires d <= c
    ensures d * p <= c * p
  {
    assert c * p - d * p == (c - d) * p;
    assert (c - d) * p >= 0;
  }

  /** Exactly which of them are sign extensions of a negative 32-bit value; the reader gives that value's
      word. */
  lemma ReadsSignExtension(s: seq<byte>)
    requires Parse32(s).Some?
    ensures Parse64(s).Some?
    ensures Parse64(s).value.value >= TWO_64 - 0x8000_0000 <==> SignExtended(s)
    ensures SignExtended(s) ==> Parse32(s).value.value == Parse64(s).value.value - (TWO_64 - TWO_32)
  {
    hide Extends, Len, Low;
    var n := Len(s);
    Parse32Truncates(s);
    Powers();
    LowBound(s, n);
    if n < 10 {
      PowGrows(n, 9);
    } else {
      LenMarks(s);
      TopOfTen(s);
      if Low(s, 10) >= TWO_64 - 0x8000_0000 {
        Word(Low(s, 10));
      }
    }
  }

  lemma Word(v: nat)
    requires TWO_64 - 0x8000_0000 <= v < TWO_64
    ensures v % TWO_32 == v - (TWO_64 - TWO_32)
  {
    var x: int := v - TWO_64;
    LowWord(x);
  }

  lemma TopOfTen(s: seq<byte>)
    requires Len(s) == 10 && s[9] <= 1
    ensures Low(s, 10) < TWO_64
    ensures Low(s, 10) >= TWO_64 - 0x8000_0000 <==> s[4] / 8 % 16 == 15 && (forall j :: 5 <= j < 9 ==> s[j] == 255) && s[9] == 1
  {
    hide Len;
    LenMarks(s);
    Powers();
    LowBound(s, 9);
    assert Low(s, 10) == Low(s, 9) + s[9] * Pow128(9);
    TopGroups(s, 5, 9, 0x8000_0000);
    LowFive(s);
    forall j | 5 <= j < 9 ensures s[j] % 128 == 127 <==> s[j] == 255 {
      assert 128 <= s[j] < 256;
    }
  }

  /** The three ways in which the 32-bit reader answers for a varint it accepts: its value, the word of the
      negative value it extends, or, for all others, a value that lost its high part without an error. */
  lemma LenientReads(s: seq<byte>)
    requires Parse32(s).Some?
    ensures Parse64(s).Some?
    ensures var v, w := Parse32(s).value.value, Parse64(s).value.value;
            if FitsWord(s) then v == w
            else if SignExtended(s) then w >= TWO_64 - 0x8000_0000 && v == w - (TWO_64 - TWO_32) && v >= 0x8000_0000
            else v < w < TWO_64 - 0x8000_0000
  {
    hide Extends, Len, Low;
    ReadsExactly(s);
    ReadsSignExtension(s);
    Parse32Truncates(s);
    Parse64Fits(s);
    Truncated(Parse64(s).value.value);
  }

  lemma Truncated(w: nat)
    ensures w % TWO_32 <= w
  {
  }

  /** One of the lossy ones. */
  lemma LenientRead()
    ensures var s := [0xFF, 0xFF, 0xFF, 0xFF, 0x7F];
            Parse32(s) == Some(Decoded(0xFFFF_FFFF, 5)) && Parse64(s) == Some(Decoded(0x7_FFFF_FFFF, 5))
  {
    var s: seq<byte> := [0xFF, 0xFF, 0xFF, 0xFF, 0x7F];
    Powers();
    assert s[1..][1..][1..][1..] == [0x7F];
    assert Len(s[1..][1..][1..]) == 2;
    assert Len(s) == 5;
    assert Low(s, 1) == 127 && Low(s, 2) == 127 + 127 * 0x80;
    assert Low(s, 3) == Low(s, 2) + 127 * 0x4000;
    assert Low(s, 4) == Low(s, 3) + 127 * 0x20_0000;
    assert Low(s, 5) == Low(s, 4) + 127 * 0x1000_0000;
  }

  // ---- signed integers ---------------------------------------------------------------------------

  predicate Int64(x: int) {
    -0x8000_0000_0000_0000 <= x < 0x8000_0000_0000_0000
  }

  /** The 64-bit pattern of a signed value. */
  function Pattern(x: int): (r: nat)
    requires Int64(x)
    ensures r < TWO_64
  {
    if x < 0 then TWO_64 + x else x
  }

  function Complement(v: nat): (r: nat)
    requires v < TWO_64
    ensures r < TWO_64
  {
    TWO_64 - 1 - v
  }

  /** The encoder's zigzag: mask, shift, complement. */
  function ZigZag(x: int): (r: nat)
    requires Int64(x)
    ensures r < TWO_64
  {
    if x < 0 then Complement(Pattern(x) % 0x8000_0000_0000_0000 * 2 % TWO_64) else Pattern(x) * 2 % TWO_64
  }

  /** The decoder's inverse: shift, and complement for odd values. */
  function UnZigZag(v: nat): int
    requires v < TWO_64
  {
    if v % 2 == 1 then Complement(v / 2) - TWO_64 else v / 2
  }

  /** Zigzag orders the values 0, -1, 1, -2, 2 and so on. */
  lemma ZigZagMeans(x: int)
    requires Int64(x)
    ensures ZigZag(x) == if x < 0 then -2 * x - 1 else 2 * x
  {
  }

  /** Zigzag is a bijection between the signed and the unsigned 64-bit values. */
  lemma ZigZagBijection(x: int, v: nat)
    requires Int64(x) && v < TWO_64
    ensures UnZigZag(ZigZag(x)) == x
    ensures Int64(UnZigZag(v)) && ZigZag(UnZigZag(v)) == v
  {
    ZigZagMeans(x);
    ZigZagMeans(UnZigZag(v));
  }

  // ---- the encoder -----------------------------------------------------------------------------------

  /** The bound on what is left of a 32-bit word after `i` groups. */
  function Left(i: nat): nat
    requires i <= 5
  {
    match i
    case 0 => 0x1_0000_0000
    case 1 => 0x200_0000
    case 2 => 0x4_0000
    case 3 => 0x800
    case 4 => 0x10
    case 5 => 1
  }

  /** The encoder's two-word form: no 64-bit shift, and never more than ten bytes. */
  method EncodeVarint32(low0: nat, high0: nat) returns (buffer: array<byte>, size: nat)
    requires low0 < TWO_32 && high0 < TWO_32
    ensures size <= buffer.Length == MAX_VARINT
    ensures buffer[..size] == Base128(low0 + high0 * TWO_32)
  {
    hide Base128, Pow128, Len, Left, Pending;
    buffer := new byte[MAX_VARINT](i => 0);
    var low: nat, high: nat, i: nat := low0, high0, 0;
    ghost var v := low0 + high0 * TWO_32;
    PendingStart(low0, high0);
    var b: byte := low % 128;
    low := low / 128;
    while i < 4 && (low != 0 || high != 0)
      invariant i <= 4 && high == high0 && low < Left(i + 1) && b < 128
      invariant i == 4 ==> b < 16 && low == 0
      invariant buffer[..i] + Base128(Pending(b, low, high, i)) == Base128(v)
      decreases 4 - i
    {
      Shift(b, low, high, i);
      Regrouped(buffer[..i], b + 0x80, Base128(Pending(low % 128, low / 128, high, i + 1)), Base128(v));
      buffer[i] := b + 0x80;
      i, b, low := i + 1, low % 128, low / 128;
    }
    PendingEnd(b, high, i);
    if high != 0 {
      i, b := EncodeHigh(buffer, b, high, v);
    }
    OneGroup(b);
    buffer[i] := b;
    size := i + 1;
  }

  /** What the encoder still has to write when the next group is `b`. */
  function Pending(b: nat, low: nat, high: nat, i: nat): nat
    requires i <= 5
  {
    b + 128 * low + high * Left(i)
  }

  lemma PendingStart(low: nat, high: nat)
    requires low < TWO_32
    ensures Pending(low % 128, low / 128, high, 0) == low + high * TWO_32
    ensures low / 128 < Left(1)
  {
  }

  lemma PendingEnd(b: nat, high: nat, i: nat)
    requires i <= 4
    ensures Pending(b, 0, 0, i) == b && Pending(b, 0, high, 4) == b + high * 16
  {
  }

  /** The groups of the high word, after four groups of the low one. */
  method EncodeHigh(buffer: array<byte>, b0: byte, high0: nat, ghost v: nat) returns (i: nat, b: byte)
    requires buffer.Length == MAX_VARINT && b0 < 16 && 0 < high0 < TWO_32
    requires buffer[..4] + Base128(b0 + high0 * 16) == Base128(v)
    modifies buffer
    ensures i < MAX_VARINT && b < 128 && buffer[..i] + Base128(b) == Base128(v)
  {
    hide Base128, Pow128, Len;
    i := 4;
    // the low word has given four groups, so the upper bits of `b` are free
    b := b0 + high0 % 8 * 16;
    var high: nat := high0 / 8;
    assert b + 128 * high == b0 + high0 * 16;
    while high != 0
      invariant 4 <= i <= 9 && b < 128 && high < Rest(i)
      invariant buffer[..i] + Base128(b + 128 * high) == Base128(v)
      decreases high
    {
      NextGroup(b, high);
      assert high % 128 + 128 * (high / 128) == high;
      Regrouped(buffer[..i], b + 0x80, Base128(high), Base128(v));
      buffer[i] := b + 0x80;
      i, b, high := i + 1, high % 128, high / 128;
    }
  }

  /** The bound on what is left of the high word after `i` bytes in all. */
  function Rest(i: nat): nat
    requires 4 <= i <= 9
  {
    match i
    case 4 => 0x2000_0000
    case 5 => 0x40_0000
    case 6 => 0x8000
    case 7 => 0x100
    case 8 => 2
    case 9 => 1
  }

  lemma Regrouped(s: seq<byte>, b: byte, t: seq<byte>, all: seq<byte>)
    requires s + ([b] + t) == all
    ensures (s + [b]) + t == all
  {
    assert s + ([b] + t) == (s + [b]) + t;
  }

  lemma OneGroup(b: byte)
    requires b < 128
    ensures Base128(b) == [b]
  {
  }

  lemma NextGroup(b: byte, high: nat)
    requires b < 128 && high > 0
    ensures Base128(b + 128 * high) == [b + 0x80] + Base128(high)
  {
  }

  /** One group out of the two-word value. */
  lemma Shift(b: byte, low: nat, high: nat, i: nat)
    requires i < 4 && b < 128 && low < Left(i + 1) && (low != 0 || high != 0)
    ensures low / 128 < Left(i + 2) && (i == 3 ==> low < 16 && low / 128 == 0)
    ensures Base128(Pending(b, low, high, i)) == [b + 0x80] + Base128(Pending(low % 128, low / 128, high, i + 1))
  {
    var rest := low + high * Left(i + 1);
    assert Left(i) == 128 * Left(i + 1);
    assert high * Left(i) == 128 * (high * Left(i + 1));
    assert Pending(b, low, high, i) == b + 128 * rest;
    if high != 0 {
      assert high * Left(i + 1) >= Left(i + 1);
    }
  }
}
