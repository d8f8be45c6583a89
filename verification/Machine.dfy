/** Values shared by the debug session: target memory, the software-breakpoint shadow entries,
    and the relation between what target RAM holds and the program image.

    The program image is the memory the target would hold if no breakpoint had ever been patched
    into it. Memory is total over addresses; only the bytes a run touches ever matter. */
module Machine {

  type byte = b: int | 0 <= b < 256

  /** Target memory: a byte at every address. */
  datatype Mem = Mem(bytes: int -> byte)
  {
    function At(a: int): byte { bytes(a) }
  }

  /** Status codes of a response. */
  datatype Status =
    | STATUS_OK | STATUS_ERROR | STATUS_INVALID_ARGUMENT | STATUS_UNSUPPORTED | STATUS_BUSY | STATUS_TIMEOUT
    | STATUS_TARGET_RUNNING | STATUS_TARGET_HALTED | STATUS_TARGET_LOST | STATUS_STALE_STOP
    | STATUS_SWD_ERROR | STATUS_ADDRESS_ERROR | STATUS_NO_BREAKPOINT_SLOT | STATUS_NO_WATCHPOINT_SLOT
    | STATUS_ALIGNMENT_ERROR

  const UINT32_MAX: nat := 0xFFFF_FFFF
  const UINT64_MAX: nat := 0xFFFF_FFFF_FFFF_FFFF

  type u32 = v: int | 0 <= v <= 0xFFFF_FFFF
  const MAX_SOFTWARE_BREAKPOINTS: nat := 32

  // ---- memory ----------------------------------------------------------------

  ghost predicate Same(m: Mem, m': Mem) {
    forall a: int :: m.At(a) == m'.At(a)
  }

  /** Memory after all of `data` has been stored at `addr`. */
  ghost function Write(m: Mem, addr: int, data: seq<byte>): (r: Mem)
    ensures forall a: int :: r.At(a) == if addr <= a < addr + |data| then data[a - addr] else m.At(a)
  {
    Mem((a: int) => if addr <= a < addr + |data| then data[a - addr] else m.At(a))
  }

  /** The bytes at [addr, addr + n). */
  ghost function Read(m: Mem, addr: int, n: nat): (r: seq<byte>)
    ensures |r| == n
    ensures forall i :: 0 <= i < n ==> r[i] == m.At(addr + i)
  {
    seq<byte>(n, i => m.At(addr + i))
  }

  /** A write that failed part-way: each byte in range holds its old or its new value. */
  ghost predicate Torn(m: Mem, m': Mem, addr: int, data: seq<byte>) {
    forall a: int :: m'.At(a) == m.At(a) || (addr <= a < addr + |data| && m'.At(a) == data[a - addr])
  }

  // ---- shadow entries ----------------------------------------------------------

  /** One slot of the shadow table. `original` keeps the unpatched instruction. */
  datatype SwBp = SwBp(id: nat, address: nat, size: nat, installed: bool, original: seq<byte>)

  /** The halfword written over the first two bytes of a patched instruction. */
  const BKPT_PATCH: seq<byte> := [0x00, 0xBE]

  predicate WellFormed(e: SwBp) {
    (e.size == 2 || e.size == 4) && |e.original| == 4 && e.address % 2 == 0
  }

  /** The instruction of `e` occupies address `a`. */
  predicate Owns(e: SwBp, a: int) {
    e.address <= a < e.address + e.size
  }

  predicate Disjoint(e: SwBp, f: SwBp) {
    e.address + e.size <= f.address || f.address + f.size <= e.address
  }

  /** Target memory may hold a patch of `e` at address `a`. */
  predicate Covers(e: SwBp, a: int) {
    e.installed && Owns(e, a)
  }

  predicate Halfword(e: SwBp, a: int) {
    e.address <= a < e.address + 2
  }

  predicate Covered(es: seq<SwBp>, a: int) {
    exists k :: 0 <= k < |es| && Covers(es[k], a)
  }

  predicate Owned(es: seq<SwBp>, a: int) {
    exists k :: 0 <= k < |es| && Owns(es[k], a)
  }

  predicate TableOk(es: seq<SwBp>) {
    && |es| <= MAX_SOFTWARE_BREAKPOINTS
    && (forall k :: 0 <= k < |es| ==> WellFormed(es[k]))
    && (forall j, k :: 0 <= j < k < |es| ==> Disjoint(es[j], es[k]))
  }

  /** The refinement at the heart of the shadow table: `img` is the program image of a target
      that holds `mem` while `es` is in force. Every byte on which memory and image differ lies
      in an installed entry, and installed entries remember the image bytes they hide. */
  ghost predicate Tracks(es: seq<SwBp>, mem: Mem, img: Mem) {
    && (forall a: int :: !Covered(es, a) ==> mem.At(a) == img.At(a))
    && (forall k, a: int :: 0 <= k < |es| && WellFormed(es[k]) && Covers(es[k], a) ==>
          img.At(a) == es[k].original[a - es[k].address])
  }

  /** Every entry is installed, its first halfword holds BKPT, and no other byte differs from
      the image. `skip` names an entry that is currently lifted out of memory (-1 for none). */
  ghost predicate ArmedExcept(es: seq<SwBp>, skip: int, mem: Mem, img: Mem) {
    && (forall k :: 0 <= k < |es| && k != skip ==> es[k].installed)
    && (forall k, a: int :: 0 <= k < |es| && k != skip && Halfword(es[k], a) ==>
          mem.At(a) == BKPT_PATCH[a - es[k].address])
    && (forall a: int :: (forall k :: 0 <= k < |es| && k != skip ==> !Halfword(es[k], a)) ==>
          mem.At(a) == img.At(a))
  }

  ghost predicate Armed(es: seq<SwBp>, mem: Mem, img: Mem) {
    ArmedExcept(es, -1, mem, img)
  }

  /** The program image is a function of the table and target memory. */
  lemma ImageUnique(es: seq<SwBp>, mem: Mem, img1: Mem, img2: Mem)
    requires TableOk(es) && Tracks(es, mem, img1) && Tracks(es, mem, img2)
    ensures Same(img1, img2)
  {
    forall a: int ensures img1.At(a) == img2.At(a) {
      if Covered(es, a) {
        var k :| 0 <= k < |es| && Covers(es[k], a);
      }
    }
  }

  /** A table with nothing installed hides nothing. */
  lemma NothingHidden(es: seq<SwBp>, mem: Mem, img: Mem)
    requires Tracks(es, mem, img)
    requires forall k :: 0 <= k < |es| ==> !es[k].installed
    ensures Same(mem, img)
  {
    forall a: int ensures mem.At(a) == img.At(a) {
      assert !Covered(es, a);
    }
  }

  /** An empty table tracks a target that holds its image. */
  lemma NothingTracked(mem: Mem, img: Mem)
    requires Same(mem, img)
    ensures Tracks([], mem, img)
  {
  }

  /** What a running program may do: it writes memory and image alike, and never writes a byte
      of an instruction the table remembers. */
  ghost predicate ProgramRan(es: seq<SwBp>, mem: Mem, img: Mem, mem': Mem, img': Mem) {
    forall a: int :: if Owned(es, a) then mem'.At(a) == mem.At(a) && img'.At(a) == img.At(a) else mem'.At(a) == img'.At(a)
  }

  lemma ProgramRanTracks(es: seq<SwBp>, mem: Mem, img: Mem, mem': Mem, img': Mem)
    requires Tracks(es, mem, img) && ProgramRan(es, mem, img, mem', img')
    ensures Tracks(es, mem', img')
  {
    forall a: int | !Covered(es, a) ensures mem'.At(a) == img'.At(a) {
    }
    forall k, a: int | 0 <= k < |es| && WellFormed(es[k]) && Covers(es[k], a)
      ensures img'.At(a) == es[k].original[a - es[k].address]
    {
      assert Owned(es, a);
    }
  }

  /** A program that respects the shadowed bytes leaves every armed patch armed. */
  lemma ProgramRanArmed(es: seq<SwBp>, skip: int, mem: Mem, img: Mem, mem': Mem, img': Mem)
    requires TableOk(es) && ArmedExcept(es, skip, mem, img) && ProgramRan(es, mem, img, mem', img')
    ensures ArmedExcept(es, skip, mem', img')
  {
    forall k, a: int | 0 <= k < |es| && k != skip && Halfword(es[k], a)
      ensures mem'.At(a) == BKPT_PATCH[a - es[k].address]
    {
      assert Owns(es[k], a);
    }
  }

  // ---- what the program may do to its image --------------------------------------------

  /** No byte of an instruction the table remembers has changed in the image. */
  ghost predicate Spared(es: seq<SwBp>, img: Mem, img': Mem) {
    forall a: int :: Owned(es, a) ==> img'.At(a) == img.At(a)
  }

  lemma RanSpares(es: seq<SwBp>, mem: Mem, img: Mem, mem': Mem, img': Mem)
    requires ProgramRan(es, mem, img, mem', img')
    ensures Spared(es, img, img')
  {
  }

  /** A target that rested or ran its program. */
  lemma RestedOrRan(halted: bool, es: seq<SwBp>, mem: Mem, img: Mem, mem': Mem, img': Mem)
    requires if halted then img' == img else ProgramRan(es, mem, img, mem', img')
    ensures Spared(es, img, img')
  {
  }

  lemma SparedNothing(es: seq<SwBp>, img: Mem)
    ensures Spared(es, img, img)
  {
  }

  /** One stretch of program after another. */
  lemma ProgramRanOn(es: seq<SwBp>, mem: Mem, img: Mem, mid: Mem, midImg: Mem, mem': Mem, img': Mem)
    requires ProgramRan(es, mem, img, mid, midImg) && ProgramRan(es, mid, midImg, mem', img')
    ensures ProgramRan(es, mem, img, mem', img')
  {
  }

  lemma ProgramRested(es: seq<SwBp>, mem: Mem, img: Mem)
    requires Tracks(es, mem, img)
    ensures ProgramRan(es, mem, img, mem, img)
  {
    forall a: int | !Owned(es, a) ensures mem.At(a) == img.At(a) {
      assert !Covered(es, a);
    }
  }

  lemma SparedOn(es: seq<SwBp>, img: Mem, mid: Mem, img': Mem)
    requires Spared(es, img, mid) && Spared(es, mid, img')
    ensures Spared(es, img, img')
  {
  }
}
