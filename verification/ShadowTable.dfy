/** The software-breakpoint shadow table: what is patched into target RAM and what each patch hides.

    Every operation keeps the relation `Tracks` between the table, target memory and the program
    image, whatever the backend's writes do. */
module ShadowTable {
  import opened Machine
  import opened TargetBackend

  // ---- what single writes do to the relation ---------------------------------------

  /** The entry's saved instruction is the image of the bytes it occupies. */
  ghost predicate Remembers(e: SwBp, img: Mem) {
    WellFormed(e) && forall a: int :: Owns(e, a) ==> img.At(a) == e.original[a - e.address]
  }

  function Lifted(e: SwBp): SwBp {
    e.(installed := false)
  }

  function Planted(e: SwBp): SwBp {
    e.(installed := true)
  }

  function Without(es: seq<SwBp>, k: nat): seq<SwBp>
    requires k < |es|
  {
    es[..k] + es[k + 1..]
  }

  lemma LiftedOk(es: seq<SwBp>, k: nat)
    requires TableOk(es) && k < |es|
    ensures TableOk(es[k := Lifted(es[k])])
  {
  }

  lemma WithoutOk(es: seq<SwBp>, k: nat)
    requires TableOk(es) && k < |es|
    ensures TableOk(Without(es, k))
  {
    var r := Without(es, k);
    assert forall j :: 0 <= j < |r| ==> r[j] == es[if j < k then j else j + 1];
  }

  /** A complete restoring write shows the image again under entry `k`. */
  lemma RestoredTracks(es: seq<SwBp>, k: nat, mem: Mem, img: Mem, mem': Mem)
    requires TableOk(es) && k < |es| && Tracks(es, mem, img) && es[k].installed
    requires Same(mem', Write(mem, es[k].address, es[k].original[..es[k].size]))
    ensures Tracks(es[k := Lifted(es[k])], mem', img)
    ensures forall a: int :: Owns(es[k], a) ==> mem'.At(a) == img.At(a)
    ensures forall a: int :: !Owns(es[k], a) ==> mem'.At(a) == mem.At(a)
  {
    var es' := es[k := Lifted(es[k])];
    forall a: int | Owns(es[k], a) ensures mem'.At(a) == img.At(a) {
      assert Covers(es[k], a);
    }
    forall a: int | Covered(es, a) && !Owns(es[k], a) ensures Covered(es', a) {
      var j :| 0 <= j < |es| && Covers(es[j], a);
      assert Covers(es'[j], a);
    }
    forall j, a: int | 0 <= j < |es'| && WellFormed(es'[j]) && Covers(es'[j], a)
      ensures img.At(a) == es'[j].original[a - es'[j].address]
    {
      assert Covers(es[j], a);
    }
  }

  /** A torn restoring or patching write stays within what entry `k` hides. */
  lemma TornTracks(es: seq<SwBp>, k: nat, mem: Mem, img: Mem, mem': Mem, data: seq<byte>)
    requires TableOk(es) && k < |es| && es[k].installed && |data| <= es[k].size
    requires Tracks(es, mem, img) && Torn(mem, mem', es[k].address, data)
    ensures Tracks(es, mem', img)
  {
    forall a: int | !Covered(es, a) ensures mem'.At(a) == img.At(a) {
      assert !Covers(es[k], a);
    }
  }

  /** Marking an entry that remembers the image as installed claims nothing false. */
  lemma PlantedTracks(es: seq<SwBp>, k: nat, mem: Mem, img: Mem)
    requires TableOk(es) && k < |es| && Tracks(es, mem, img) && Remembers(es[k], img)
    ensures Tracks(es[k := Planted(es[k])], mem, img)
  {
    var es' := es[k := Planted(es[k])];
    forall a: int | Covered(es, a) ensures Covered(es', a) {
      var j :| 0 <= j < |es| && Covers(es[j], a);
      assert Covers(es'[j], a);
    }
    forall j, a: int | 0 <= j < |es'| && WellFormed(es'[j]) && Covers(es'[j], a)
      ensures img.At(a) == es'[j].original[a - es'[j].address]
    {
      assert j != k ==> Covers(es[j], a);
    }
  }

  /** Dropping an entry that is not installed changes nothing. */
  lemma DroppedTracks(es: seq<SwBp>, k: nat, mem: Mem, img: Mem)
    requires k < |es| && !es[k].installed && Tracks(es, mem, img)
    ensures Tracks(Without(es, k), mem, img)
  {
    var es' := Without(es, k);
    assert forall j :: 0 <= j < |es'| ==> es'[j] == es[if j < k then j else j + 1];
    forall a: int | Covered(es, a) ensures Covered(es', a) {
      var j :| 0 <= j < |es| && Covers(es[j], a);
      assert Covers(es'[if j < k then j else j - 1], a);
    }
    forall j, a: int | 0 <= j < |es'| && WellFormed(es'[j]) && Covers(es'[j], a)
      ensures img.At(a) == es'[j].original[a - es'[j].address]
    {
      assert Covers(es[if j < k then j else j + 1], a);
    }
  }

  // ---- peer accesses ------------------------------------------------------------------

  /** The byte the session sends to the target where the peer asked for `b`. */
  ghost predicate StoredByte(es: seq<SwBp>, a: int, b: byte, stored: byte) {
    if exists k :: 0 <= k < |es| && es[k].installed && Halfword(es[k], a) then
      exists k :: 0 <= k < |es| && es[k].installed && Halfword(es[k], a) && stored == BKPT_PATCH[a - es[k].address]
    else stored == b
  }

  ghost predicate StoredImage(es: seq<SwBp>, addr: nat, data: seq<byte>, stored: seq<byte>) {
    |stored| == |data| && forall i :: 0 <= i < |data| ==> StoredByte(es, addr + i, data[i], stored[i])
  }

  /** Where no patch hides a byte, what is sent is what the peer asked for. */
  lemma StoredPlain(es: seq<SwBp>, addr: nat, data: seq<byte>, stored: seq<byte>)
    requires TableOk(es) && StoredImage(es, addr, data, stored)
    ensures forall i :: 0 <= i < |data| && !Covered(es, addr + i) ==> stored[i] == data[i]
  {
    forall i | 0 <= i < |data| && !Covered(es, addr + i) ensures stored[i] == data[i] {
      assert StoredByte(es, addr + i, data[i], stored[i]);
      forall k | 0 <= k < |es| && es[k].installed ensures !Halfword(es[k], addr + i) {
        assert !Covers(es[k], addr + i);
      }
    }
  }

  function OverlappedByte(e: SwBp, addr: nat, data: seq<byte>, a: int): byte
    requires WellFormed(e) && Owns(e, a)
  {
    if e.installed && addr <= a < addr + |data| then data[a - addr] else e.original[a - e.address]
  }

  /** An entry after the peer has written `data` over part of it. */
  function Overlapped(e: SwBp, addr: nat, data: seq<byte>): (r: SwBp)
    requires WellFormed(e)
    ensures WellFormed(r) && r.address == e.address && r.size == e.size && r.installed == e.installed && r.id == e.id
    ensures forall a: int :: Owns(e, a) ==>
              r.original[a - e.address] == OverlappedByte(e, addr, data, a)
  {
    if !e.installed then e
    else e.(original := seq<byte>(4, j requires 0 <= j < 4 =>
              if j < e.size && addr <= e.address + j < addr + |data| then data[e.address + j - addr] else e.original[j]))
  }

  ghost predicate OverlappedTable(es: seq<SwBp>, addr: nat, data: seq<byte>, es': seq<SwBp>)
    requires forall k :: 0 <= k < |es| ==> WellFormed(es[k])
  {
    |es'| == |es| && forall k :: 0 <= k < |es| ==> es'[k] == Overlapped(es[k], addr, data)
  }

  lemma OverlappedOk(es: seq<SwBp>, addr: nat, data: seq<byte>, es': seq<SwBp>)
    requires TableOk(es) && OverlappedTable(es, addr, data, es')
    ensures TableOk(es')
    ensures forall a: int :: Covered(es', a) <==> Covered(es, a)
  {
    forall j, k | 0 <= j < k < |es'| ensures Disjoint(es'[j], es'[k]) {
      assert Disjoint(es[j], es[k]);
    }
    forall a: int ensures Covered(es', a) <==> Covered(es, a) {
      if Covered(es, a) {
        var k :| 0 <= k < |es| && Covers(es[k], a);
        assert Covers(es'[k], a);
      }
      if Covered(es', a) {
        var k :| 0 <= k < |es'| && Covers(es'[k], a);
        assert Covers(es[k], a);
      }
    }
  }

  /** WRITE_MEMORY is a plain write to the program image: the table it leaves tracks the image
      with exactly the requested bytes replaced, or, after a torn failure, the old shadows. */
  lemma PeerWriteTracks(es: seq<SwBp>, addr: nat, data: seq<byte>, stored: seq<byte>, es': seq<SwBp>, ok: bool,
                        mem: Mem, img: Mem, mem': Mem, img': Mem)
    requires TableOk(es) && Tracks(es, mem, img) && StoredImage(es, addr, data, stored)
    requires PeerStored(addr, stored, data, es, ok, mem, img, mem', img')
    requires if ok then OverlappedTable(es, addr, data, es') else es' == es
    ensures Tracks(es', mem', img')
  {
    if ok {
      OverlappedOk(es, addr, data, es');
      forall a: int | !Covered(es', a) ensures mem'.At(a) == img'.At(a) {
        forall k | 0 <= k < |es| && es[k].installed ensures !Halfword(es[k], a) {
          assert !Covers(es[k], a);
        }
        if addr <= a < addr + |data| {
          assert StoredByte(es, addr + (a - addr), data[a - addr], stored[a - addr]);
        }
      }
      forall k, a: int | 0 <= k < |es'| && WellFormed(es'[k]) && Covers(es'[k], a)
        ensures img'.At(a) == es'[k].original[a - es'[k].address]
      {
        assert Covers(es[k], a);
      }
    } else {
      forall k, a: int | 0 <= k < |es'| && WellFormed(es'[k]) && Covers(es'[k], a)
        ensures img'.At(a) == es'[k].original[a - es'[k].address]
      {
        assert Covered(es, a);
      }
    }
  }

  /** Whether it succeeds or tears, WRITE_MEMORY leaves every armed patch armed. */
  lemma PeerWriteKeepsPatch(es: seq<SwBp>, k: nat, a: int, addr: nat, data: seq<byte>, stored: seq<byte>, ok: bool,
                            mem: Mem, img: Mem, mem': Mem, img': Mem)
    requires TableOk(es) && StoredImage(es, addr, data, stored)
    requires PeerStored(addr, stored, data, es, ok, mem, img, mem', img')
    requires k < |es| && es[k].installed && Halfword(es[k], a) && mem.At(a) == BKPT_PATCH[a - es[k].address]
    ensures mem'.At(a) == BKPT_PATCH[a - es[k].address]
  {
    if addr <= a < addr + |data| {
      assert StoredByte(es, addr + (a - addr), data[a - addr], stored[a - addr]);
      var j :| 0 <= j < |es| && es[j].installed && Halfword(es[j], a) &&
               stored[a - addr] == BKPT_PATCH[a - es[j].address];
      assert Owns(es[j], a) && Owns(es[k], a);
      assert j == k;
    }
  }

  /** The patch byte of `e` at `a` is in place. */
  predicate ArmedAt(e: SwBp, a: int, mem: Mem) {
    e.installed && Halfword(e, a) && mem.At(a) == BKPT_PATCH[a - e.address]
  }

  /** A peer write on a target that may be running: what it leaves behind, for the table `es'`. */
  lemma PeerWroteTracks(es: seq<SwBp>, addr: nat, data: seq<byte>, stored: seq<byte>, es': seq<SwBp>, ok: bool,
                        mem: Mem, img: Mem, mem': Mem, img': Mem, halted: bool)
    requires TableOk(es) && Tracks(es, mem, img) && StoredImage(es, addr, data, stored)
    requires PeerWrote(addr, stored, data, es, ok, mem, img, mem', img', halted)
    requires if ok then OverlappedTable(es, addr, data, es') else es' == es
    ensures Tracks(es', mem', img')
    ensures forall k, a: int :: 0 <= k < |es| && ArmedAt(es[k], a, mem) ==> ArmedAt(es[k], a, mem')
  {
    var m, i := mem, img;
    if !halted {
      m, i :| ProgramRan(es, mem, img, m, i) && PeerStored(addr, stored, data, es, ok, m, i, mem', img');
      ProgramRanTracks(es, mem, img, m, i);
    }
    PeerWriteTracks(es, addr, data, stored, es', ok, m, i, mem', img');
    forall k, a: int | 0 <= k < |es| && ArmedAt(es[k], a, mem) ensures ArmedAt(es[k], a, mem') {
      assert Owns(es[k], a);
      assert halted || Owned(es, a);
      PeerWriteKeepsPatch(es, k, a, addr, data, stored, ok, m, i, mem', img');
    }
  }

  // ---- arming, lifting and re-arming -----------------------------------------------------

  lemma InstalledRemembers(es: seq<SwBp>, k: nat, mem: Mem, img: Mem)
    requires TableOk(es) && k < |es| && es[k].installed && Tracks(es, mem, img)
    ensures WellFormed(es[k]) && Remembers(es[k], img) && Remembers(Lifted(es[k]), img)
  {
    forall a: int | Owns(es[k], a) ensures img.At(a) == es[k].original[a - es[k].address] {
      assert Covers(es[k], a);
    }
  }

  /** A running program leaves the saved instruction of every entry the image of its bytes. */
  lemma ProgramRanRemembers(es: seq<SwBp>, k: nat, mem: Mem, img: Mem, mem': Mem, img': Mem)
    requires k < |es| && Remembers(es[k], img) && ProgramRan(es, mem, img, mem', img')
    ensures Remembers(es[k], img')
  {
    forall a: int | Owns(es[k], a) ensures img'.At(a) == es[k].original[a - es[k].address] {
      assert Owned(es, a);
    }
  }

  /** With the breakpoint at `address` lifted, or never set, the core is ready to execute the
      original instruction there. */
  lemma ReadyWhenLifted(es: seq<SwBp>, skip: int, address: nat, at: Snapshot)
    requires TableOk(es) && ArmedExcept(es, skip, at.mem, at.image) && at.table == es
    requires address % 2 == 0 && at.pc == address
    requires skip == -1 ==> forall j :: 0 <= j < |es| ==> es[j].address != address
    requires skip == -1 || (0 <= skip < |es| && es[skip].address == address)
    ensures ReadyToStep(address, at)
  {
    forall j | 0 <= j < |es| && j != skip ensures es[j].address != address {
      if skip >= 0 {
        assert Disjoint(es[if j < skip then j else skip], es[if j < skip then skip else j]);
      }
    }
    forall a: int | address <= a < address + 2 ensures at.mem.At(a) == at.image.At(a) {
      assert forall j :: 0 <= j < |es| && j != skip ==> !Halfword(es[j], a);
    }
    forall k, a: int | 0 <= k < |es| && es[k].address == address && Owns(es[k], a)
      ensures at.mem.At(a) == at.image.At(a)
    {
      assert k == skip;
      forall j | 0 <= j < |es| && j != skip ensures !Halfword(es[j], a) {
        assert Disjoint(es[if j < skip then j else skip], es[if j < skip then skip else j]);
      }
    }
  }

  /** When the whole instruction at `address` is the original one: exactly when no other patch starts
      inside it. A breakpoint that is still in the table excludes that by being disjoint from the others; one
      that a RUN has just dropped does not. */
  lemma StepsOriginal(es: seq<SwBp>, skip: int, address: nat, size: nat, mem: Mem, img: Mem)
    requires TableOk(es) && ArmedExcept(es, skip, mem, img) && address % 2 == 0 && (size == 2 || size == 4)
    requires forall k :: 0 <= k < |es| ==> Read(img, es[k].address, 2) != BKPT_PATCH
    ensures (forall a: int :: address <= a < address + size ==> mem.At(a) == img.At(a)) <==>
            (forall k :: 0 <= k < |es| && k != skip ==> !(address <= es[k].address < address + size))
  {
    hide ArmedExcept, TableOk, Read;
    if k :| 0 <= k < |es| && k != skip && address <= es[k].address < address + size {
      PatchShows(es, skip, k, mem, img);
      var b := es[k].address;
      assert address <= b && b + 1 < address + size;
    } else {
      UnpatchedRange(es, skip, address, size, mem, img);
    }
  }

  lemma UnpatchedRange(es: seq<SwBp>, skip: int, address: nat, size: nat, mem: Mem, img: Mem)
    requires TableOk(es) && ArmedExcept(es, skip, mem, img) && address % 2 == 0 && (size == 2 || size == 4)
    requires forall k :: 0 <= k < |es| && k != skip ==> !(address <= es[k].address < address + size)
    ensures forall a: int :: address <= a < address + size ==> mem.At(a) == img.At(a)
  {
    forall a: int | address <= a < address + size ensures mem.At(a) == img.At(a) {
      forall k | 0 <= k < |es| && k != skip ensures !Halfword(es[k], a) {
        EvenSite(es, k);
      }
    }
  }

  lemma EvenSite(es: seq<SwBp>, k: nat)
    requires TableOk(es) && k < |es|
    ensures es[k].address % 2 == 0
  {
  }

  /** An armed patch differs from the image somewhere in its halfword. */
  lemma PatchShows(es: seq<SwBp>, skip: int, k: nat, mem: Mem, img: Mem)
    requires TableOk(es) && ArmedExcept(es, skip, mem, img) && k < |es| && k != skip
    requires Read(img, es[k].address, 2) != BKPT_PATCH
    ensures es[k].address % 2 == 0
    ensures var b := es[k].address; mem.At(b) != img.At(b) || mem.At(b + 1) != img.At(b + 1)
  {
    EvenSite(es, k);
    hide TableOk;
    var b := es[k].address;
    assert Halfword(es[k], b) && Halfword(es[k], b + 1);
    assert Read(img, b, 2) == [img.At(b), img.At(b + 1)];
  }

  /** The size of the instruction at `address`: a first halfword from 0xE800 on is the first of two. */
  function InstructionSize(img: Mem, address: int): (n: nat)
    ensures n == 2 || n == 4
  {
    if img.At(address + 1) >= 0xE8 then 4 else 2
  }

  /** The bytes of a breakpoint still in the table are stepped over as they were; if they are all of the
      instruction, so is the instruction. */
  lemma StepsOwnInstruction(es: seq<SwBp>, skip: nat, mem: Mem, img: Mem)
    requires TableOk(es) && skip < |es| && ArmedExcept(es, skip, mem, img)
    requires forall k :: 0 <= k < |es| ==> Read(img, es[k].address, 2) != BKPT_PATCH
    ensures forall a: int :: Owns(es[skip], a) ==> mem.At(a) == img.At(a)
    ensures es[skip].size >= InstructionSize(img, es[skip].address) ==>
              forall a: int :: es[skip].address <= a < es[skip].address + InstructionSize(img, es[skip].address) ==> mem.At(a) == img.At(a)
  {
    forall k | 0 <= k < |es| && k != skip ensures !Owns(es[skip], es[k].address) {
      assert Disjoint(es[if k < skip then k else skip], es[if k < skip then skip else k]);
    }
    StepsOriginal(es, skip, es[skip].address, es[skip].size, mem, img);
  }

  /** One more patch: the armed prefix of the table grows by its next entry. */
  lemma PlantNext(es: seq<SwBp>, i: nat, mem: Mem, img: Mem, mem': Mem)
    requires TableOk(es) && i < |es| && Armed(es[..i], mem, img)
    requires Same(mem', Write(mem, es[i].address, BKPT_PATCH))
    ensures Armed(es[i := Planted(es[i])][..i + 1], mem', img)
  {
    var es' := es[i := Planted(es[i])][..i + 1];
    assert forall k :: 0 <= k < i ==> es'[k] == es[..i][k];
    forall k, a: int | 0 <= k < |es'| && Halfword(es'[k], a)
      ensures mem'.At(a) == BKPT_PATCH[a - es'[k].address]
    {
      if k < i {
        assert Disjoint(es[k], es[i]);
        assert Halfword(es[..i][k], a);
      }
    }
    forall a: int | forall k :: 0 <= k < |es'| ==> !Halfword(es'[k], a)
      ensures mem'.At(a) == img.At(a)
    {
      assert !Halfword(es'[i], a);
      forall k | 0 <= k < i ensures !Halfword(es[..i][k], a) {
        assert !Halfword(es'[k], a);
      }
    }
  }

  /** Lifting entry `k` out of a fully armed table leaves the other patches armed. */
  lemma LiftFromArmed(es: seq<SwBp>, k: nat, mem: Mem, img: Mem, mem': Mem)
    requires TableOk(es) && k < |es| && Armed(es, mem, img)
    requires forall a: int :: Owns(es[k], a) ==> mem'.At(a) == img.At(a)
    requires forall a: int :: !Owns(es[k], a) ==> mem'.At(a) == mem.At(a)
    ensures ArmedExcept(es[k := Lifted(es[k])], k, mem', img)
  {
    var es' := es[k := Lifted(es[k])];
    forall j, a: int | 0 <= j < |es'| && j != k && Halfword(es'[j], a)
      ensures mem'.At(a) == BKPT_PATCH[a - es'[j].address]
    {
      assert Halfword(es[j], a) && Owns(es[j], a);
    }
    forall a: int | forall j :: 0 <= j < |es'| && j != k ==> !Halfword(es'[j], a)
      ensures mem'.At(a) == img.At(a)
    {
      if !Owns(es[k], a) {
        forall j | 0 <= j < |es| ensures !Halfword(es[j], a) {
          assert j != k ==> !Halfword(es'[j], a);
        }
      }
    }
  }

  /** Re-planting the lifted entry arms the whole table again. */
  lemma ReplantArmed(es: seq<SwBp>, k: nat, mem: Mem, img: Mem, mem': Mem)
    requires TableOk(es) && k < |es| && ArmedExcept(es, k, mem, img)
    requires Same(mem', Write(mem, es[k].address, BKPT_PATCH))
    ensures Armed(es[k := Planted(es[k])], mem', img)
  {
    var es' := es[k := Planted(es[k])];
    forall j, a: int | 0 <= j < |es'| && Halfword(es'[j], a)
      ensures mem'.At(a) == BKPT_PATCH[a - es'[j].address]
    {
      if j != k {
        assert Halfword(es[j], a) && Owns(es[j], a);
        assert !Owns(es[k], a);
      }
    }
    forall a: int | forall j :: 0 <= j < |es'| ==> !Halfword(es'[j], a)
      ensures mem'.At(a) == img.At(a)
    {
      assert !Halfword(es'[k], a);
      forall j | 0 <= j < |es| && j != k ensures !Halfword(es[j], a) {
        assert !Halfword(es'[j], a);
      }
    }
  }

  /** Calls that let no core go, load nothing and store nothing for the peer: the program image is the
      program's own business. */
  predicate Harmless(c: Call) {
    !LosesHalt(c) && !c.Attached? && !c.WasReset? && !c.PeerWrite?
  }

  /** Only harmless calls were made since `t`. */
  ghost predicate Quiet(t: seq<Call>, t': seq<Call>) {
    t <= t' && forall i :: |t| <= i < |t'| ==> Harmless(t'[i])
  }

  /** An entry that is restored, or never was installed, can be dropped. */
  lemma RestoredStep(es: seq<SwBp>, k: nat, mem: Mem, img: Mem, mem': Mem)
    requires TableOk(es) && k < |es| && Tracks(es, mem, img)
    requires if es[k].installed then Same(mem', Write(mem, es[k].address, es[k].original[..es[k].size])) else mem' == mem
    ensures TableOk(Without(es, k)) && Tracks(Without(es, k), mem', img)
  {
    WithoutOk(es, k);
    if es[k].installed {
      RestoredTracks(es, k, mem, img, mem');
      var lifted := es[k := Lifted(es[k])];
      DroppedTracks(lifted, k, mem', img);
      assert Without(lifted, k) == Without(es, k);
    } else {
      DroppedTracks(es, k, mem, img);
    }
  }

  lemma SameInterval(es: seq<SwBp>, e: SwBp, f: SwBp)
    requires e.address == f.address && e.size == f.size
    requires forall k :: 0 <= k < |es| ==> Disjoint(es[k], e)
    ensures forall k :: 0 <= k < |es| ==> Disjoint(es[k], f)
  {
    forall k | 0 <= k < |es| ensures Disjoint(es[k], f) {
      assert Disjoint(es[k], e);
    }
  }

  lemma AppendUninstalled(es: seq<SwBp>, e: SwBp, mem: Mem, img: Mem)
    requires Tracks(es, mem, img) && !e.installed
    requires TableOk(es) && |es| < MAX_SOFTWARE_BREAKPOINTS && WellFormed(e)
    requires forall k :: 0 <= k < |es| ==> Disjoint(es[k], e)
    ensures Tracks(es + [e], mem, img) && TableOk(es + [e])
  {
    var es' := es + [e];
    forall a: int | Covered(es, a) ensures Covered(es', a) {
      var k :| 0 <= k < |es| && Covers(es[k], a);
      assert Covers(es'[k], a);
    }
    forall k, a: int | 0 <= k < |es'| && WellFormed(es'[k]) && Covers(es'[k], a)
      ensures img.At(a) == es'[k].original[a - es'[k].address]
    {
      assert Covers(es[k], a);
    }
  }

  /** What an unpatched target holds at a site is its image. */
  lemma OriginalRemembers(e: SwBp, original: seq<byte>, mem: Mem, img: Mem)
    requires WellFormed(e) && Same(mem, img) && original == Read(mem, e.address, e.size)
    requires e.original[..e.size] == original
    ensures Remembers(e, img)
    ensures original[..2] == Read(img, e.address, 2)
  {
    forall a: int | Owns(e, a) ensures img.At(a) == e.original[a - e.address] {
      assert original[a - e.address] == mem.At(a);
    }
  }

  ghost predicate AllRemember(es: seq<SwBp>, img: Mem) {
    forall k :: 0 <= k < |es| ==> Remembers(es[k], img)
  }

  lemma NothingRemembered(img: Mem)
    ensures AllRemember([], img) && SameSites([], [])
  {
  }

  lemma RememberMore(es: seq<SwBp>, e: SwBp, sw: seq<BpEntry>, f: BpEntry, img: Mem)
    requires AllRemember(es, img) && Remembers(e, img) && SameSites(es, sw)
    requires e.id == f.id && e.address == f.address && e.size == f.size
    ensures AllRemember(es + [e], img) && SameSites(es + [e], sw + [f])
  {
  }

  lemma PlantedRemember(es: seq<SwBp>, k: nat, img: Mem)
    requires k < |es| && AllRemember(es, img)
    ensures AllRemember(es[k := Planted(es[k])], img)
  {
    assert Remembers(es[k], img);
    assert Remembers(Planted(es[k]), img);
  }

  function ByteSeen(hidden: bool, mem: Mem, img: Mem, a: int): byte {
    if hidden then img.At(a) else mem.At(a)
  }

  lemma CoveredNext(es: seq<SwBp>, i: nat)
    requires i < |es|
    ensures forall a: int :: Covered(es[..i + 1], a) <==> Covered(es[..i], a) || Covers(es[i], a)
  {
    forall a: int ensures Covered(es[..i + 1], a) <==> Covered(es[..i], a) || Covers(es[i], a) {
      if Covered(es[..i], a) {
        var k :| 0 <= k < i && Covers(es[..i][k], a);
        assert Covers(es[..i + 1][k], a);
      }
      if Covers(es[i], a) {
        assert Covers(es[..i + 1][i], a);
      }
      if Covered(es[..i + 1], a) {
        var k :| 0 <= k < i + 1 && Covers(es[..i + 1][k], a);
        assert k < i ==> Covers(es[..i][k], a);
      }
    }
  }

  /** A pass over the table `was` that tries to put back every patched instruction, in order, by `calls`;
      `kept` are the entries whose restore failed, in order. */
  ghost predicate Restored(was: seq<SwBp>, calls: seq<Call>, kept: seq<SwBp>) {
    if was == [] then calls == [] && kept == []
    else
      var e, rest := was[|was| - 1], was[..|was| - 1];
      if !e.installed then Restored(rest, calls, kept)
      else
        && calls != []
        && calls[|calls| - 1] == RestoreWrite(e.address, calls[|calls| - 1].RestoreWrite? && calls[|calls| - 1].ok)
        && if calls[|calls| - 1].ok then Restored(rest, calls[..|calls| - 1], kept)
           else kept != [] && kept[|kept| - 1] == e && Restored(rest, calls[..|calls| - 1], kept[..|kept| - 1])
  }

  /** The call, if any, by which a pass puts back one entry. */
  function RestoreCall(e: SwBp, ok: bool): seq<Call> {
    if e.installed then [RestoreWrite(e.address, ok)] else []
  }

  /** One more entry of the pass. */
  lemma RestoredMore(was: seq<SwBp>, i: nat, calls: seq<Call>, kept: seq<SwBp>, ok: bool)
    requires i < |was| && Restored(was[..i], calls, kept) && (ok || was[i].installed)
    ensures Restored(was[..i + 1], calls + RestoreCall(was[i], ok), if ok then kept else kept + [was[i]])
  {
    var now := was[..i + 1];
    assert now[..|now| - 1] == was[..i] && now[|now| - 1] == was[i];
    var calls' := calls + [RestoreWrite(was[i].address, ok)];
    assert calls'[..|calls'| - 1] == calls;
    assert calls + [] == calls;
    var kept' := kept + [was[i]];
    assert kept'[..|kept'| - 1] == kept;
  }

  /** What a pass leaves are entries whose restore failed, and it leaves them all: every other installed
      entry was put back. */
  lemma {:induction false} RestoredMeans(was: seq<SwBp>, calls: seq<Call>, kept: seq<SwBp>)
    requires Restored(was, calls, kept)
    ensures forall k :: 0 <= k < |kept| ==> kept[k].installed && kept[k] in was && RestoreWrite(kept[k].address, false) in calls
    ensures forall k :: 0 <= k < |was| && was[k].installed && was[k] !in kept ==> RestoreWrite(was[k].address, true) in calls
    ensures forall c :: c in calls ==> c.RestoreWrite?
    ensures kept == [] <==> forall c :: c in calls ==> c.ok
    decreases |was|
  {
    if was != [] {
      var n, m := |was| - 1, |calls| - 1;
      if !was[n].installed {
        RestoredMeans(was[..n], calls, kept);
      } else if calls[m].ok {
        RestoredMeans(was[..n], calls[..m], kept);
        assert forall c :: c in calls <==> c in calls[..m] || c == calls[m];
      } else {
        RestoredMeans(was[..n], calls[..m], kept[..|kept| - 1]);
        assert forall c :: c in calls <==> c in calls[..m] || c == calls[m];
        assert forall e :: e in kept <==> e in kept[..|kept| - 1] || e == kept[|kept| - 1];
      }
    }
  }

  lemma {:induction false} IdleRestored(was: seq<SwBp>, calls: seq<Call>, kept: seq<SwBp>)
    requires Idle(was) && Restored(was, calls, kept)
    ensures calls == [] && kept == []
    decreases |was|
  {
    if was != [] {
      IdleRestored(was[..|was| - 1], calls, kept);
    }
  }

  /** Each of these entries is still installed because a restoring write between `t` and `t'` failed. */
  ghost predicate Unrestored(es: seq<SwBp>, t: seq<Call>, t': seq<Call>) {
    forall k :: 0 <= k < |es| ==> es[k].installed && RestoreFailed(es[k].address, t, t')
  }

  ghost predicate RestoreFailed(address: nat, t: seq<Call>, t': seq<Call>) {
    exists i :: |t| <= i < |t'| && t'[i] == RestoreWrite(address, false)
  }

  lemma UnrestoredSince(es: seq<SwBp>, t: seq<Call>, mid: seq<Call>, t': seq<Call>)
    requires t <= mid <= t' && Unrestored(es, mid, t')
    ensures Unrestored(es, t, t')
  {
    forall k | 0 <= k < |es| ensures RestoreFailed(es[k].address, t, t') {
      assert RestoreFailed(es[k].address, mid, t');
    }
  }

  lemma UnrestoredStill(es: seq<SwBp>, t: seq<Call>, mid: seq<Call>, t': seq<Call>)
    requires t <= mid <= t' && Unrestored(es, t, mid)
    ensures Unrestored(es, t, t')
  {
    forall k | 0 <= k < |es| ensures RestoreFailed(es[k].address, t, t') {
      var i :| |t| <= i < |mid| && mid[i] == RestoreWrite(es[k].address, false);
      assert t'[i] == RestoreWrite(es[k].address, false);
    }
  }

  /** A pass that began after `t` has come as far as entry `i` of `was`. */
  ghost predicate Passed(was: seq<SwBp>, i: nat, t: seq<Call>, t': seq<Call>, kept: seq<SwBp>) {
    i <= |was| && t <= t' && Restored(was[..i], t'[|t|..], kept)
  }

  lemma PassBegins(was: seq<SwBp>, t: seq<Call>)
    ensures Passed(was, 0, t, t, [])
  {
    assert was[..0] == [] && t[|t|..] == [];
  }

  lemma PassGoesOn(was: seq<SwBp>, i: nat, t: seq<Call>, mid: seq<Call>, kept: seq<SwBp>, ok: bool)
    requires i < |was| && Passed(was, i, t, mid, kept) && (ok || was[i].installed)
    ensures Passed(was, i + 1, t, mid + RestoreCall(was[i], ok), if ok then kept else kept + [was[i]])
  {
    hide Restored;
    RestoredMore(was, i, mid[|t|..], kept, ok);
    assert (mid + RestoreCall(was[i], ok))[|t|..] == mid[|t|..] + RestoreCall(was[i], ok);
  }

  lemma PassEnds(was: seq<SwBp>, t: seq<Call>, t': seq<Call>, kept: seq<SwBp>)
    requires Passed(was, |was|, t, t', kept)
    ensures t <= t' && Restored(was, t'[|t|..], kept)
    ensures Quiet(t, t') && Unrestored(kept, t, t')
    ensures Idle(was) ==> kept == [] && t' == t
    ensures kept != [] ==> Faulty(t, t')
  {
    assert was[..|was|] == was;
    PassMeans(was, t, t', kept);
    if kept != [] {
      UnrestoredFaulty(kept, t, t');
    }
  }

  lemma PassMeans(was: seq<SwBp>, t: seq<Call>, t': seq<Call>, kept: seq<SwBp>)
    requires t <= t' && Restored(was, t'[|t|..], kept)
    ensures Quiet(t, t') && Unrestored(kept, t, t')
    ensures Idle(was) ==> kept == [] && t' == t
  {
    hide Restored, Idle;
    RestoredMeans(was, t'[|t|..], kept);
    forall k | 0 <= k < |kept| ensures RestoreFailed(kept[k].address, t, t') {
      var i :| 0 <= i < |t'[|t|..]| && t'[|t|..][i] == RestoreWrite(kept[k].address, false);
      assert t'[|t| + i] == RestoreWrite(kept[k].address, false);
    }
    forall i | |t| <= i < |t'| ensures Harmless(t'[i]) {
      assert t'[|t|..][i - |t|] == t'[i];
      assert t'[i] in t'[|t|..];
    }
    if Idle(was) {
      IdleRestored(was, t'[|t|..], kept);
    }
  }

  /** Nothing in the table is installed. */
  predicate Idle(es: seq<SwBp>) {
    forall k :: 0 <= k < |es| ==> !es[k].installed
  }

  /** No requested breakpoint sits on a BKPT of the program itself. */
  ghost predicate Genuine(sw: seq<BpEntry>, img: Mem) {
    forall k :: 0 <= k < |sw| ==> Read(img, sw[k].address, 2) != BKPT_PATCH
  }

  /** Two requested breakpoints overlap. */
  predicate Clashing(sw: seq<BpEntry>) {
    exists j, k :: 0 <= j < k < |sw| && Meet(sw[j], sw[k])
  }

  predicate Meet(e: BpEntry, f: BpEntry) {
    e.address < f.address + f.size && f.address < e.address + e.size
  }

  predicate MeetsEntry(e: SwBp, f: BpEntry) {
    e.address < f.address + f.size && f.address < e.address + e.size
  }

  lemma NoClash(sw: seq<BpEntry>)
    requires sw == []
    ensures !Clashing(sw)
  {
  }

  lemma MeetsMeans(es: seq<SwBp>, e: SwBp, f: BpEntry)
    requires e.address == f.address && e.size == f.size
    ensures (exists k :: 0 <= k < |es| && !Disjoint(es[k], e)) <==> (exists k :: 0 <= k < |es| && MeetsEntry(es[k], f))
  {
    assert forall k :: 0 <= k < |es| ==> (Disjoint(es[k], e) <==> !MeetsEntry(es[k], f));
  }

  /** A list that has not met itself so far, and the next entry. */
  lemma ClashNext(es: seq<SwBp>, sw: seq<BpEntry>, i: nat)
    requires i < |sw| && SameSites(es, sw[..i]) && !Clashing(sw[..i])
    ensures (exists k :: 0 <= k < |es| && MeetsEntry(es[k], sw[i])) ==> Clashing(sw)
    ensures (forall k :: 0 <= k < |es| ==> !MeetsEntry(es[k], sw[i])) ==> !Clashing(sw[..i + 1])
  {
    if k :| 0 <= k < |es| && MeetsEntry(es[k], sw[i]) {
      assert Meet(sw[k], sw[i]);
    }
    if forall l :: 0 <= l < |es| ==> !MeetsEntry(es[l], sw[i]) {
      var t := sw[..i + 1];
      forall j, k | 0 <= j < k < |t| ensures !Meet(t[j], t[k]) {
        assert if k < i then !Meet(sw[..i][j], sw[..i][k]) else !MeetsEntry(es[j], sw[i]);
      }
    }
  }

  /** Entries still installed because a restore failed mean a failed call. */
  lemma UnrestoredFaulty(es: seq<SwBp>, t: seq<Call>, t': seq<Call>)
    requires Unrestored(es, t, t') && es != []
    ensures Faulty(t, t')
  {
    assert RestoreFailed(es[0].address, t, t');
    var i :| |t| <= i < |t'| && t'[i] == RestoreWrite(es[0].address, false);
    assert Failing(t'[i]);
  }

  // ---- the table ---------------------------------------------------------------------------

  class Table {
    const target: Target
    const slots: array<SwBp>
    var count: nat

    /** The entries in force. */
    function Entries(): seq<SwBp>
      requires count <= slots.Length
      reads this, slots
    {
      slots[..count]
    }

    ghost predicate Valid()
      reads this, slots, target
    {
      && slots.Length == MAX_SOFTWARE_BREAKPOINTS
      && count <= MAX_SOFTWARE_BREAKPOINTS
      && TableOk(Entries())
      && target.Valid()
      && Tracks(Entries(), target.mem, target.image)
    }

    constructor (target: Target)
      requires target.Valid() && Same(target.mem, target.image)
      ensures Valid() && fresh(this) && fresh(slots) && this.target == target && count == 0
    {
      this.target := target;
      slots := new SwBp[MAX_SOFTWARE_BREAKPOINTS](i => SwBp(0, 0, 2, false, [0, 0, 0, 0]));
      count := 0;
    }

    /** Writes the patch of slot `k`. The slot counts as installed from before the write, since a
        failed write may have changed the target. */
    method InstallOne(k: nat) returns (ok: bool)
      requires Valid() && target.halted && k < count
      requires Remembers(slots[k], target.image)
      modifies slots, target`mem, target`trace, target`answer, target`halted, target`resumes
      ensures Valid() && target.halted
      ensures Entries() == old(Entries())[k := Planted(old(slots[k]))]
      ensures ok ==> Same(target.mem, Write(old(target.mem), old(slots[k]).address, BKPT_PATCH))
      ensures target.trace == old(target.trace) + [PatchWrite(old(slots[k]).address, ok)] && target.resumes == old(target.resumes)
    {
      PlantedTracks(Entries(), k, target.mem, target.image);
      ghost var es := Entries()[k := Planted(slots[k])];
      slots[k] := Planted(slots[k]);
      assert Entries() == es;
      ghost var m := target.mem;
      var e := target.WriteCode(slots[k].address, BKPT_PATCH, false);
      TornTracks(es, k, m, target.image, target.mem, BKPT_PATCH);
      ok := e.OK?;
    }

    /** Puts back the instruction of slot `k`, if it is patched. A slot whose write failed stays
        installed. The slot may lie beyond the entries in force. */
    method RestoreSlot(k: nat) returns (ok: bool)
      requires target.Valid() && target.halted && k < slots.Length && WellFormed(slots[k])
      modifies slots, target`mem, target`trace, target`answer, target`halted, target`resumes
      ensures target.Valid() && target.halted && target.resumes == old(target.resumes)
      ensures slots[..] == old(slots[..])[k := if ok then Lifted(old(slots[k])) else old(slots[k])]
      ensures !old(slots[k]).installed ==> ok && target.mem == old(target.mem) && target.trace == old(target.trace)
      ensures old(slots[k]).installed ==> var e := old(slots[k]);
                && (ok ==> Same(target.mem, Write(old(target.mem), e.address, e.original[..e.size])))
                && Torn(old(target.mem), target.mem, e.address, e.original[..e.size])
                && target.trace == old(target.trace) + [RestoreWrite(e.address, ok)]
    {
      if !slots[k].installed {
        return true;
      }
      var err := target.WriteCode(slots[k].address, slots[k].original[..slots[k].size], true);
      ok := err.OK?;
      if ok {
        slots[k] := Lifted(slots[k]);
      }
    }

    /** Takes the patch of slot `k` out of a fully armed table. */
    method LiftOne(k: nat) returns (ok: bool)
      requires Valid() && target.halted && k < count
      requires Armed(Entries(), target.mem, target.image)
      modifies slots, target`mem, target`trace, target`answer, target`halted, target`resumes
      ensures Valid() && target.halted
      ensures Quiet(old(target.trace), target.trace) && target.resumes == old(target.resumes)
      ensures Entries() == old(Entries())[k := if ok then Lifted(old(Entries()[k])) else old(Entries()[k])]
      ensures ok ==> ArmedExcept(Entries(), k, target.mem, target.image)
      ensures Remembers(Entries()[k], target.image)
      ensures !ok ==> Faulty(old(target.trace), target.trace)
    {
      hide Disciplined, HaltKnown, Resumes, ImageAfter, TableOk, Tracks, Torn, Remembers;
      ghost var es, m := Entries(), target.mem;
      assert es[k] == slots[k] && es[k].installed;
      LiftedOk(es, k);
      InstalledRemembers(es, k, m, target.image);
      ok := RestoreSlot(k);
      if !ok {
        FaultyLast(old(target.trace), RestoreWrite(es[k].address, ok));
      }
      assert Entries() == es[k := if ok then Lifted(es[k]) else es[k]];
      if ok {
        RestoredTracks(es, k, m, target.image, target.mem);
        LiftFromArmed(es, k, m, target.image, target.mem);
      } else {
        assert Entries() == es;
        TornTracks(es, k, m, target.image, target.mem, es[k].original[..es[k].size]);
      }
    }

    /** Puts the patch of the lifted slot `k` back. */
    method ReplantOne(k: nat) returns (ok: bool)
      requires Valid() && target.halted && k < count
      requires ArmedExcept(Entries(), k, target.mem, target.image) && Remembers(Entries()[k], target.image)
      modifies slots, target`mem, target`trace, target`answer, target`halted, target`resumes
      ensures Valid() && target.halted
      ensures Quiet(old(target.trace), target.trace) && target.resumes == old(target.resumes)
      ensures Entries() == old(Entries())[k := Planted(old(Entries()[k]))]
      ensures ok ==> Armed(Entries(), target.mem, target.image)
      ensures !ok ==> Faulty(old(target.trace), target.trace)
    {
      hide Disciplined, HaltKnown, Resumes, ImageAfter, Tracks;
      ghost var es, m := Entries(), target.mem;
      assert es[k] == slots[k];
      ok := InstallOne(k);
      if !ok {
        FaultyLast(old(target.trace), PatchWrite(es[k].address, ok));
      }
      if ok {
        ReplantArmed(es, k, m, target.image, target.mem);
      }
    }

    /** Handles slot `index` of a restoring pass: `kept` are the slots retained so far, `rest`
        those still to be looked at. */
    method RestoreNext(remaining: nat, index: nat, ghost kept: seq<SwBp>, ghost rest: seq<SwBp>) returns (ok: bool)
      requires target.Valid() && target.halted
      requires remaining <= index < count <= slots.Length
      requires slots[..remaining] == kept && slots[index..count] == rest
      requires TableOk(kept + rest) && Tracks(kept + rest, target.mem, target.image)
      modifies slots, target`mem, target`trace, target`answer, target`halted, target`resumes
      ensures target.Valid() && target.halted && Quiet(old(target.trace), target.trace) && target.resumes == old(target.resumes)
      ensures slots[index + 1..count] == rest[1..]
      ensures ok ==> slots[..remaining] == kept
      ensures !ok ==> slots[..remaining + 1] == kept + [rest[0]] && rest[0].installed
      ensures var kept' := if ok then kept else kept + [rest[0]];
              TableOk(kept' + rest[1..]) && Tracks(kept' + rest[1..], target.mem, target.image)
      ensures !rest[0].installed ==> ok
      ensures target.trace == old(target.trace) + RestoreCall(rest[0], ok)
    {
      hide Tracks, Disciplined, HaltKnown, Resumes, ImageAfter;
      ghost var live, m := kept + rest, target.mem;
      assert slots[index] == slots[index..count][0];
      assert live[remaining] == slots[index];
      ok := RestoreSlot(index);
      if ok {
        RestoredStep(live, remaining, m, target.image, target.mem);
        assert Without(live, remaining) == kept + rest[1..];
      } else {
        TornTracks(live, remaining, m, target.image, target.mem, rest[0].original[..rest[0].size]);
        if remaining != index {
          slots[remaining] := slots[index];
        }
        assert kept + [rest[0]] + rest[1..] == live;
      }
    }

    /** Puts back every patched instruction, closing up the table in place: only the slots whose
        write failed remain. */
    method RestoreAll() returns (ok: bool)
      requires Valid() && target.halted
      modifies this`count, slots, target`mem, target`trace, target`answer, target`halted, target`resumes
      ensures Valid() && target.halted && Quiet(old(target.trace), target.trace) && target.resumes == old(target.resumes)
      ensures ok <==> Entries() == []
      ensures ok ==> Same(target.mem, target.image)
      ensures Restored(old(Entries()), target.trace[|old(target.trace)|..], Entries())
      ensures Unrestored(Entries(), old(target.trace), target.trace)
      ensures Idle(old(Entries())) ==> ok && target.trace == old(target.trace)
      ensures !ok ==> Faulty(old(target.trace), target.trace)
    {
      hide TableOk, Tracks, Disciplined, HaltKnown, Resumes, ImageAfter, Quiet, Restored, RestoreCall, WellFormed, Idle, Unrestored,
           Passed, Faulty;
      ok := true;
      var remaining, index := 0, 0;
      ghost var was, t := Entries(), target.trace;
      ghost var kept, rest: seq<SwBp> := [], was;
      assert kept + rest == was;
      PassBegins(was, t);
      while index < count
        invariant 0 <= remaining <= index <= count && count == old(count) == |was|
        invariant target.Valid() && target.halted && target.resumes == old(target.resumes)
        invariant slots[..remaining] == kept && slots[index..count] == rest == was[index..]
        invariant TableOk(kept + rest) && Tracks(kept + rest, target.mem, target.image)
        invariant Passed(was, index, t, target.trace, kept)
        invariant ok <==> remaining == 0
      {
        assert rest[0] == was[index];
        ghost var mid := target.trace;
        var restored := RestoreNext(remaining, index, kept, rest);
        PassGoesOn(was, index, t, mid, kept, restored);
        if !restored {
          ok := false;
          remaining := remaining + 1;
          kept := kept + [rest[0]];
        }
        index, rest := index + 1, rest[1..];
      }
      assert kept + rest == kept;
      count := remaining;
      PassEnds(was, t, target.trace, kept);
      if ok {
        NothingHidden(Entries(), target.mem, target.image);
      }
    }

    /** Replaces the whole set: restore, then read and remember every original, then patch. */
    method Apply(entries: seq<BpEntry>) returns (st: Status)
      requires Valid() && target.halted && |entries| <= MAX_SOFTWARE_BREAKPOINTS
      requires forall k :: 0 <= k < |entries| ==> Site(entries[k])
      modifies this`count, slots, target`mem, target`image, target`pc, target`trace, target`answer, target`halted, target`resumes
      ensures Valid() && target.halted && Quiet(old(target.trace), target.trace) && target.resumes == old(target.resumes)
      ensures target.image == old(target.image) && target.pc == old(target.pc)
      ensures st.STATUS_OK? ==> SameSites(Entries(), entries) && Armed(Entries(), target.mem, target.image)
      ensures st.STATUS_OK? ==> forall k :: 0 <= k < |entries| ==>
                Read(target.image, entries[k].address, 2) != BKPT_PATCH
      ensures !st.STATUS_OK? ==> st.STATUS_SWD_ERROR? || st.STATUS_INVALID_ARGUMENT?
      ensures !st.STATUS_OK? ==> Unrestored(Entries(), old(target.trace), target.trace)
      ensures st.STATUS_SWD_ERROR? ==> Faulty(old(target.trace), target.trace)
      ensures st.STATUS_INVALID_ARGUMENT? ==> Clashing(entries) || !Genuine(entries, target.image)
      ensures st.STATUS_OK? ==> !Clashing(entries)
    {
      hide TableOk, Tracks, ArmedExcept, Disciplined, HaltKnown, Resumes, ImageAfter, Remembers, Unrestored, Restored, Faulty, Clashing;
      var restored := RestoreAll();
      if !restored {
        return STATUS_SWD_ERROR;
      }
      ghost var start := target.trace;
      st := Remember(entries);
      if !st.STATUS_OK? {
        ghost var mid := target.trace;
        var _ := RestoreAll();
        UnrestoredSince(Entries(), old(target.trace), mid, target.trace);
        if st.STATUS_SWD_ERROR? {
          FaultyOn(start, mid, target.trace);
          FaultyOn(old(target.trace), start, target.trace);
        }
        return;
      }
      ghost var planting := target.trace;
      var planted := PlantAll(entries);
      if !planted {
        ghost var mid := target.trace;
        var _ := RestoreAll();
        UnrestoredSince(Entries(), old(target.trace), mid, target.trace);
        FaultyOn(planting, mid, target.trace);
        FaultyOn(old(target.trace), planting, target.trace);
        return STATUS_SWD_ERROR;
      }
    }

    /** Patches every remembered instruction; a failure may leave any of them patched. */
    method PlantAll(ghost entries: seq<BpEntry>) returns (ok: bool)
      requires Valid() && target.halted && SameSites(Entries(), entries)
      requires AllRemember(Entries(), target.image) && Armed([], target.mem, target.image)
      modifies slots, target`mem, target`trace, target`answer, target`halted, target`resumes
      ensures Valid() && target.halted && Quiet(old(target.trace), target.trace) && target.resumes == old(target.resumes)
      ensures SameSites(Entries(), entries)
      ensures if ok then Armed(Entries(), target.mem, target.image) else Faulty(old(target.trace), target.trace)
    {
      hide TableOk, Tracks, ArmedExcept, Disciplined, HaltKnown, Resumes, ImageAfter, Remembers, Faulty;
      var index := 0;
      assert Entries()[..0] == [];
      while index < count
        invariant 0 <= index <= count == |entries| && Valid() && target.halted
        invariant Quiet(old(target.trace), target.trace) && target.resumes == old(target.resumes)
        invariant SameSites(Entries(), entries)
        invariant AllRemember(Entries(), target.image)
        invariant Armed(Entries()[..index], target.mem, target.image)
      {
        ghost var es, m, before := Entries(), target.mem, target.trace;
        assert es[index] == slots[index];
        PlantedRemember(es, index, target.image);
        ok := InstallOne(index);
        if !ok {
          FaultyLast(before, PatchWrite(es[index].address, ok));
          FaultyOn(old(target.trace), before, target.trace);
          return;
        }
        PlantNext(es, index, m, target.image, target.mem);
        index := index + 1;
      }
      ok := true;
      assert Entries()[..index] == Entries();
    }

    /** Reads and remembers the original instruction of one more entry. */
    method RememberOne(entry: BpEntry) returns (st: Status)
      requires Valid() && target.halted && Site(entry) && Same(target.mem, target.image)
      modifies this`count, slots, target`mem, target`image, target`pc, target`trace, target`answer, target`halted, target`resumes
      ensures Valid() && target.halted && Quiet(old(target.trace), target.trace) && target.resumes == old(target.resumes)
      ensures target.mem == old(target.mem) && target.image == old(target.image) && target.pc == old(target.pc)
      ensures !st.STATUS_OK? ==> Entries() == old(Entries())
      ensures st.STATUS_OK? ==> count == old(count) + 1 && Entries()[..old(count)] == old(Entries())
      ensures st.STATUS_OK? ==> var e := Entries()[old(count)];
                && e.id == entry.id && e.address == entry.address && e.size == entry.size
                && !e.installed && Remembers(e, target.image)
      ensures st.STATUS_OK? ==> Read(target.image, entry.address, 2) != BKPT_PATCH
      ensures !st.STATUS_OK? ==> st.STATUS_SWD_ERROR? || st.STATUS_INVALID_ARGUMENT?
      ensures st.STATUS_SWD_ERROR? ==> Faulty(old(target.trace), target.trace)
      ensures st.STATUS_INVALID_ARGUMENT? ==>
                || old(count) == MAX_SOFTWARE_BREAKPOINTS || Read(target.image, entry.address, 2) == BKPT_PATCH
                || exists k :: 0 <= k < |old(Entries())| && MeetsEntry(old(Entries())[k], entry)
      ensures st.STATUS_OK? ==> forall k :: 0 <= k < |old(Entries())| ==> !MeetsEntry(old(Entries())[k], entry)
    {
      hide TableOk, Tracks, Disciplined, HaltKnown, Resumes, ImageAfter, Remembers, Disjoint, Owns, ProgramRan;
      if count == MAX_SOFTWARE_BREAKPOINTS {
        return STATUS_INVALID_ARGUMENT;
      }
      var slot := SwBp(entry.id, entry.address, entry.size, false, [0, 0, 0, 0]);
      var clash := Overlaps(slot);
      MeetsMeans(Entries(), slot, entry);
      if clash {
        return STATUS_INVALID_ARGUMENT;
      }
      var e, original := target.ReadMem(entry.address, entry.size, Entries());
      if !e.OK? {
        FaultyLast(old(target.trace), Last(target.trace));
        return STATUS_SWD_ERROR;
      }
      if original[0] == 0x00 && original[1] == 0xBE {
        return STATUS_INVALID_ARGUMENT;
      }
      slot := slot.(original := if entry.size == 2 then original + [0, 0] else original);
      OriginalRemembers(slot, original, target.mem, target.image);
      SameInterval(Entries(), slot.(original := [0, 0, 0, 0]), slot);
      AppendUninstalled(Entries(), slot, target.mem, target.image);
      ghost var es := Entries();
      slots[count] := slot;
      count := count + 1;
      assert Entries() == es + [slot];
      st := STATUS_OK;
    }

    /** Whether the instruction of `slot` overlaps one the table already holds. */
    method Overlaps(slot: SwBp) returns (clash: bool)
      requires count <= slots.Length
      ensures clash <==> exists k :: 0 <= k < |Entries()| && !Disjoint(Entries()[k], slot)
    {
      for prior := 0 to count
        invariant forall k :: 0 <= k < prior ==> Disjoint(Entries()[k], slot)
      {
        if slot.address < slots[prior].address + slots[prior].size && slots[prior].address < slot.address + slot.size {
          assert !Disjoint(Entries()[prior], slot);
          return true;
        }
      }
      clash := false;
    }

    /** Fills the empty table with the originals of `entries`, none of them patched yet. */
    method Remember(entries: seq<BpEntry>) returns (st: Status)
      requires Valid() && target.halted && count == 0 && |entries| <= MAX_SOFTWARE_BREAKPOINTS
      requires forall k :: 0 <= k < |entries| ==> Site(entries[k])
      modifies this`count, slots, target`mem, target`image, target`pc, target`trace, target`answer, target`halted, target`resumes
      ensures Valid() && target.halted && Quiet(old(target.trace), target.trace) && target.resumes == old(target.resumes)
      ensures target.mem == old(target.mem) && target.image == old(target.image) && target.pc == old(target.pc)
      ensures forall k :: 0 <= k < count ==> !slots[k].installed
      ensures AllRemember(Entries(), target.image)
      ensures st.STATUS_OK? ==> SameSites(Entries(), entries)
      ensures st.STATUS_OK? ==> Armed([], target.mem, target.image)
      ensures st.STATUS_OK? ==> forall k :: 0 <= k < |entries| ==>
                Read(target.image, entries[k].address, 2) != BKPT_PATCH
      ensures !st.STATUS_OK? ==> st.STATUS_SWD_ERROR? || st.STATUS_INVALID_ARGUMENT?
      ensures st.STATUS_SWD_ERROR? ==> Faulty(old(target.trace), target.trace)
      ensures st.STATUS_INVALID_ARGUMENT? ==> Clashing(entries) || !Genuine(entries, target.image)
      ensures st.STATUS_OK? ==> !Clashing(entries)
    {
      hide TableOk, Tracks, AllRemember, SameSites, Remembers, Disciplined, HaltKnown, Resumes, ImageAfter, Read, Faulty, Clashing, MeetsEntry;
      NothingHidden(Entries(), target.mem, target.image);
      NothingRemembered(target.image);
      st := STATUS_OK;
      assert !Clashing(entries[..0]) by { NoClash(entries[..0]); }
      for i := 0 to |entries|
        invariant count == i && Valid() && target.halted
        invariant Quiet(old(target.trace), target.trace) && target.resumes == old(target.resumes)
        invariant target.mem == old(target.mem) && target.image == old(target.image) && target.pc == old(target.pc)
        invariant forall k :: 0 <= k < count ==> !Entries()[k].installed
        invariant AllRemember(Entries(), target.image)
        invariant SameSites(Entries(), entries[..i])
        invariant !Clashing(entries[..i])
        invariant forall k :: 0 <= k < i ==> Read(target.image, entries[k].address, 2) != BKPT_PATCH
      {
        ghost var es, before := Entries(), target.trace;
        st := RememberOne(entries[i]);
        ClashNext(es, entries, i);
        if !st.STATUS_OK? {
          if st.STATUS_SWD_ERROR? {
            FaultyOn(old(target.trace), before, target.trace);
          }
          return;
        }
        assert Entries() == es + [Entries()[i]] && entries[..i + 1] == entries[..i] + [entries[i]];
        RememberMore(es, Entries()[i], entries[..i], entries[i], target.image);
      }
      st := STATUS_OK;
      assert entries[..|entries|] == entries;
    }

    // ---- peer accesses and lookups -----------------------------------------------------------

    /** Replaces, in place, every byte of data[base..base + size) that a patch may hide, where the
        buffer holds what the target holds at `addr`. */
    method SubstituteRead(data: array<byte>, base: nat, addr: nat, size: nat)
      requires Valid() && base + size <= data.Length
      requires data[base..base + size] == Read(target.mem, addr, size)
      modifies data
      ensures data[base..base + size] == Read(target.image, addr, size)
      ensures forall i :: 0 <= i < data.Length && !(base <= i < base + size) ==> data[i] == old(data[i])
    {
      hide Disciplined, HaltKnown, Resumes, ImageAfter, Read;
      ghost var es := Entries();
      assert forall i :: base <= i < base + size ==> data[i] == data[base..base + size][i - base];
      for index := 0 to count
        modifies data
        invariant Entries() == es
        invariant forall i :: base <= i < base + size ==>
                    data[i] == ByteSeen(Covered(es[..index], addr + i - base), target.mem, target.image, addr + i - base)
        invariant forall i :: 0 <= i < data.Length && !(base <= i < base + size) ==> data[i] == old(data[i])
      {
        assert slots[index] == es[index];
        CoveredNext(es, index);
        SubstituteEntry(data, base, addr, size, slots[index]);
      }
      assert es[..count] == es;
    }
  
    /** Builds, in buf[0..|data|), what a peer write of `data` at `addr` sends to the target: the
        first halfword of every installed patch is kept. */
    method BuildWriteImage(buf: array<byte>, addr: nat, data: seq<byte>)
      requires Valid() && |data| <= buf.Length
      modifies buf
      ensures StoredImage(Entries(), addr, data, buf[..|data|])
    {
      hide Disciplined, HaltKnown, Resumes, ImageAfter, Tracks;
      ghost var es := Entries();
      for i := 0 to |data|
        modifies buf
        invariant buf[..i] == data[..i]
      {
        buf[i] := data[i];
      }
      for index := 0 to count
        modifies buf
        invariant Entries() == es
        invariant StoredImage(es[..index], addr, data, buf[..|data|])
      {
        var entry := slots[index];
        assert entry == es[index];
        ghost var was := buf[..];
        KeepPatch(buf, addr, |data|, entry);
        assert forall i :: 0 <= i < |data| ==> buf[..|data|][i] == Kept(entry, true, addr + i, was[i]);
        StoredNext(es, index, addr, data, was[..|data|], buf[..|data|]);
      }
      assert es[..count] == es;
    }

    /** Folds a completed peer write into the shadows it overlaps. */
    method WriteOverlap(addr: nat, data: seq<byte>)
      requires count <= slots.Length && forall k :: 0 <= k < count ==> WellFormed(slots[k])
      modifies slots
      ensures forall k :: 0 <= k < |old(Entries())| ==> WellFormed(old(Entries())[k])
      ensures OverlappedTable(old(Entries()), addr, data, Entries())
    {
      for index := 0 to count
        invariant forall k :: 0 <= k < index ==> slots[k] == Overlapped(old(slots[k]), addr, data)
        invariant forall k :: index <= k < count ==> slots[k] == old(slots[k])
      {
        var entry := slots[index];
        if !entry.installed || entry.address + entry.size <= addr || addr + |data| <= entry.address {
          UntouchedEntry(entry, addr, data);
          continue;
        }
        for offset := 0 to |data|
          invariant slots[index] == Overlapped(old(slots[index]), addr, data[..offset])
          invariant forall k :: 0 <= k < index ==> slots[k] == Overlapped(old(slots[k]), addr, data)
          invariant forall k :: index < k < count ==> slots[k] == old(slots[k])
        {
          var absolute := addr + offset;
          OverlapNext(entry, addr, data, offset);
          if entry.address <= absolute < entry.address + entry.size {
            slots[index] := slots[index].(original := slots[index].original[absolute - entry.address := data[offset]]);
          }
        }
        assert data[..|data|] == data;
      }
    }

    /** The slot at `address`, or -1. */
    method FindByAddress(address: nat) returns (k: int)
      requires count <= slots.Length
      ensures -1 <= k < count
      ensures k >= 0 ==> slots[k].address == address
      ensures forall j :: 0 <= j < (if k >= 0 then k else count) ==> slots[j].address != address
    {
      for index := 0 to count
        invariant forall j :: 0 <= j < index ==> slots[j].address != address
      {
        if slots[index].address == address {
          return index;
        }
      }
      k := -1;
    }

    /** The installed slot a core halted at `pc` by a BKPT has hit, or -1: first the one whose
        patch lies just behind `pc`, then the one `pc` points at. */
    method FindByHaltPc(pc: nat) returns (k: int)
      requires count <= slots.Length
      ensures -1 <= k < count
      ensures k == HitSlot(Entries(), pc)
    {
      if pc >= 2 {
        var behind := FindByAddress(pc - 2);
        if behind >= 0 && slots[behind].installed {
          SlotAtFirst(Entries(), pc - 2, behind);
          return behind;
        }
        if behind >= 0 {
          SlotAtFirst(Entries(), pc - 2, behind);
        } else {
          SlotAtNone(Entries(), pc - 2);
        }
      }
      k := FindByAddress(pc);
      if k >= 0 {
        SlotAtFirst(Entries(), pc, k);
      } else {
        SlotAtNone(Entries(), pc);
      }
      if k >= 0 && !slots[k].installed {
        k := -1;
      }
    }
  }

  /** What is sent for address `a` when one entry's patch must survive. */
  function Kept(entry: SwBp, requested: bool, a: int, b: byte): byte {
    if requested && entry.installed && Halfword(entry, a) then BKPT_PATCH[a - entry.address] else b
  }

  /** Puts the patch of `entry` back into a write image. */
  method KeepPatch(buf: array<byte>, addr: nat, size: nat, entry: SwBp)
    requires size <= buf.Length
    modifies buf
    ensures forall i :: 0 <= i < buf.Length ==> buf[i] == Kept(entry, i < size, addr + i, old(buf[i]))
  {
    if !entry.installed || entry.address + 2 <= addr || addr + size <= entry.address {
      return;
    }
    for offset := 0 to size
      invariant forall i :: 0 <= i < buf.Length ==> buf[i] == Kept(entry, i < offset, addr + i, old(buf[i]))
    {
      var absolute := addr + offset;
      if entry.address <= absolute < entry.address + 2 {
        buf[offset] := BKPT_PATCH[absolute - entry.address];
      }
    }
  }

  lemma StoredNext(es: seq<SwBp>, i: nat, addr: nat, data: seq<byte>, was: seq<byte>, now: seq<byte>)
    requires TableOk(es) && i < |es| && StoredImage(es[..i], addr, data, was)
    requires |now| == |was| && forall j :: 0 <= j < |was| ==> now[j] == Kept(es[i], true, addr + j, was[j])
    ensures StoredImage(es[..i + 1], addr, data, now)
  {
    forall j | 0 <= j < |data| ensures StoredByte(es[..i + 1], addr + j, data[j], now[j]) {
      var a := addr + j;
      assert StoredByte(es[..i], a, data[j], was[j]);
      assert forall k :: 0 <= k < i ==> es[..i + 1][k] == es[..i][k];
      if es[i].installed && Halfword(es[i], a) {
        assert es[..i + 1][i] == es[i];
      } else if k :| 0 <= k < i && es[..i][k].installed && Halfword(es[..i][k], a) && was[j] == BKPT_PATCH[a - es[..i][k].address] {
        assert es[..i + 1][k].installed && Halfword(es[..i + 1][k], a);
      }
    }
  }

  lemma UntouchedEntry(e: SwBp, addr: nat, data: seq<byte>)
    requires WellFormed(e)
    requires !e.installed || e.address + e.size <= addr || addr + |data| <= e.address
    ensures Overlapped(e, addr, data) == e
  {
    assert Overlapped(e, addr, data).original == e.original;
  }

  lemma OverlapNext(e: SwBp, addr: nat, data: seq<byte>, i: nat)
    requires WellFormed(e) && e.installed && i < |data|
    ensures var a := addr + i; var prior := Overlapped(e, addr, data[..i]);
            Overlapped(e, addr, data[..i + 1]) ==
            if Owns(e, a) then prior.(original := prior.original[a - e.address := data[i]]) else prior
    ensures i == 0 ==> Overlapped(e, addr, data[..i]) == e
  {
    var a := addr + i;
    var prior, next := Overlapped(e, addr, data[..i]), Overlapped(e, addr, data[..i + 1]);
    var want := if Owns(e, a) then prior.original[a - e.address := data[i]] else prior.original;
    assert next.original == want;
    if i == 0 { assert prior.original == e.original; }
  }

  // ---- which breakpoint was hit ------------------------------------------------------------

  /** The first slot at `address`, or -1. */
  function SlotAt(es: seq<SwBp>, address: int): (k: int)
    ensures -1 <= k < |es|
    ensures k >= 0 ==> es[k].address == address
  {
    if es == [] then -1
    else if es[0].address == address then 0
    else var k := SlotAt(es[1..], address); if k < 0 then -1 else k + 1
  }

  lemma {:induction false} SlotAtFirst(es: seq<SwBp>, address: int, k: nat)
    requires k < |es| && es[k].address == address && forall j :: 0 <= j < k ==> es[j].address != address
    ensures SlotAt(es, address) == k
  {
    if k > 0 {
      SlotAtFirst(es[1..], address, k - 1);
    }
  }

  lemma {:induction false} SlotAtNone(es: seq<SwBp>, address: int)
    requires forall j :: 0 <= j < |es| ==> es[j].address != address
    ensures SlotAt(es, address) == -1
  {
    if es != [] {
      SlotAtNone(es[1..], address);
    }
  }

  function HitSlot(es: seq<SwBp>, pc: nat): (k: int)
    ensures -1 <= k < |es|
    ensures k >= 0 ==> es[k].installed && (es[k].address == pc || es[k].address == pc - 2)
  {
    var behind := if pc >= 2 then SlotAt(es, pc - 2) else -1;
    if behind >= 0 && es[behind].installed then behind
    else var at := SlotAt(es, pc); if at >= 0 && es[at].installed then at else -1
  }

  lemma SlotAtUnique(es: seq<SwBp>, k: nat)
    requires TableOk(es) && k < |es|
    ensures SlotAt(es, es[k].address) == k
  {
    forall j | 0 <= j < k ensures es[j].address != es[k].address {
      assert Disjoint(es[j], es[k]);
    }
    SlotAtFirst(es, es[k].address, k);
  }

  /** A core that ran into the patch of slot `k` reports either the patch's address or the one
      behind it. The second report always identifies the breakpoint; the first does exactly when
      no other patch sits two bytes below. */
  lemma HitIdentified(es: seq<SwBp>, k: nat)
    requires TableOk(es) && k < |es| && es[k].installed
    ensures HitSlot(es, es[k].address + 2) == k
    ensures HitSlot(es, es[k].address) == k <==>
              !exists j :: 0 <= j < |es| && es[j].installed && es[j].address == es[k].address - 2
  {
    SlotAtUnique(es, k);
    if j :| 0 <= j < |es| && es[j].installed && es[j].address == es[k].address - 2 {
      SlotAtUnique(es, j);
    }
  }

  /** A core stopped by BKPT is explained by the patch of slot `k`: it reports the patch's address, or the one behind it. */
  predicate RanInto(es: seq<SwBp>, k: int, pc: nat) {
    0 <= k < |es| && es[k].installed && (pc == es[k].address || pc == es[k].address + 2)
  }

  lemma RanIntoSlot(es: seq<SwBp>, k: int, pc: nat)
    requires RanInto(es, k, pc)
    ensures 0 <= k < |es|
  {
  }

  /** No other installed patch explains the report `pc` better than slot `k`. */
  predicate Unmistaken(es: seq<SwBp>, k: int, pc: nat)
    requires 0 <= k < |es|
  {
    pc == es[k].address + 2 || !exists j :: 0 <= j < |es| && es[j].installed && es[j].address == es[k].address - 2
  }

  /** The lookup answers with slot `k` exactly if the report is unmistaken, and otherwise with the neighbour
      two bytes below. */
  lemma HitFound(es: seq<SwBp>, k: nat, pc: nat)
    requires TableOk(es) && RanInto(es, k, pc)
    ensures HitSlot(es, pc) >= 0
    ensures es[HitSlot(es, pc)].address == if Unmistaken(es, k, pc) then es[k].address else es[k].address - 2
    ensures Unmistaken(es, k, pc) ==> HitSlot(es, pc) == k
  {
    HitIdentified(es, k);
    if !Unmistaken(es, k, pc) {
      var j :| 0 <= j < |es| && es[j].installed && es[j].address == es[k].address - 2;
      HitIdentified(es, j);
    }
  }

  /** A report that is mistaken: two installed patches side by side, and the address of the second. */
  lemma MistakenExample(original: seq<byte>)
    requires |original| == 4
    ensures var es := [SwBp(1, 0x2000_0000, 2, true, original), SwBp(2, 0x2000_0002, 2, true, original)];
            TableOk(es) && RanInto(es, 1, es[1].address) && HitSlot(es, es[1].address) == 0
  {
    var es := [SwBp(1, 0x2000_0000, 2, true, original), SwBp(2, 0x2000_0002, 2, true, original)];
    HitFound(es, 1, es[1].address);
    assert es[0].installed && es[0].address == es[1].address - 2;
  }

  /** A single armed patch. */
  lemma SinglePatched(e: SwBp, img: Mem)
    requires e.installed && Remembers(e, img)
    ensures var mem := Write(img, e.address, BKPT_PATCH);
            TableOk([e]) && Tracks([e], mem, img) && ArmedExcept([e], -1, mem, img)
  {
    var es, mem := [e], Write(img, e.address, BKPT_PATCH);
    forall a: int | !Covered(es, a) ensures mem.At(a) == img.At(a) {
      assert !Covers(es[0], a);
    }
    forall a: int | forall k :: 0 <= k < |es| && k != -1 ==> !Halfword(es[k], a) ensures mem.At(a) == img.At(a) {
      assert !Halfword(es[0], a);
    }
  }

  /** A release that steps through a foreign patch: the breakpoint at 0x2000_0000, on a 4-byte instruction, has
      been dropped, and one is set in the second half of it. */
  lemma DroppedExample() returns (config: RunConfig, at: Snapshot)
    ensures at.pc == 0x2000_0000 && config.sw == [BpEntry(2, 0x2000_0002, 2)]
    ensures Tracks(at.table, at.mem, at.image) && Read(at.image, 0x2000_0002, 2) != BKPT_PATCH
    ensures ProperRelease(StepOver(0x2000_0000), config, at)
    ensures InstructionSize(at.image, 0x2000_0000) == 4 && at.mem.At(0x2000_0002) != at.image.At(0x2000_0002)
  {
    hide Tracks, ArmedExcept, TableOk;
    var image := Mem((a: int) => if a == 0x2000_0001 then 0xF0 else 1);
    var e := SwBp(2, 0x2000_0002, 2, true, [1, 1, 0, 0]);
    var mem := Write(image, e.address, BKPT_PATCH);
    config := RunConfig([BpEntry(2, 0x2000_0002, 2)], [], [], {});
    at := Snapshot([e], mem, image, 0x2000_0000, [], [], {});
    assert Remembers(e, image);
    SinglePatched(e, image);
    ReadyWhenLifted([e], -1, 0x2000_0000, at);
    assert Read(image, 0x2000_0002, 2)[0] == 1;
    assert mem.At(0x2000_0002) == 0 && image.At(0x2000_0002) == 1;
  }

  /** However the write of `data` fails, it leaves every byte a breakpoint covers as it was. */
  ghost predicate FailureSpares(es: seq<SwBp>, addr: nat, data: seq<byte>, stored: seq<byte>, mem: Mem, img: Mem)
    requires |stored| == |data|
  {
    forall mem', img' :: PeerStored(addr, stored, data, es, false, mem, img, mem', img') ==>
      forall a: int :: Covered(es, a) ==> mem'.At(a) == mem.At(a)
  }

  /** Behind each patched halfword, `data` repeats the instruction that is there. */
  predicate RepeatsInstructions(es: seq<SwBp>, addr: nat, data: seq<byte>)
    requires TableOk(es)
  {
    forall k, i :: 0 <= k < |es| && 0 <= i < |data| && Covers(es[k], addr + i) && !Halfword(es[k], addr + i) ==>
      data[i] == es[k].original[addr + i - es[k].address]
  }

  /** What is sent, and what the target holds, behind a patched halfword. */
  lemma BehindPatch(es: seq<SwBp>, addr: nat, data: seq<byte>, stored: seq<byte>, k: nat, i: nat, mem: Mem, img: Mem)
    requires TableOk(es) && Tracks(es, mem, img) && Armed(es, mem, img) && StoredImage(es, addr, data, stored)
    requires k < |es| && i < |data| && Covers(es[k], addr + i) && !Halfword(es[k], addr + i)
    ensures stored[i] == data[i] && mem.At(addr + i) == es[k].original[addr + i - es[k].address]
  {
    var a := addr + i;
    forall j | 0 <= j < |es| ensures !Halfword(es[j], a) {
      if j != k {
        assert Disjoint(es[if j < k then j else k], es[if j < k then k else j]);
      }
    }
    assert StoredByte(es, a, data[i], stored[i]);
  }

  /** What is sent, and what the target holds, at a patched halfword. */
  lemma AtPatch(es: seq<SwBp>, addr: nat, data: seq<byte>, stored: seq<byte>, k: nat, i: nat, mem: Mem, img: Mem)
    requires TableOk(es) && Armed(es, mem, img) && StoredImage(es, addr, data, stored)
    requires k < |es| && i < |data| && Halfword(es[k], addr + i)
    ensures stored[i] == mem.At(addr + i)
  {
    var a := addr + i;
    assert StoredByte(es, a, data[i], stored[i]);
    var j :| 0 <= j < |es| && es[j].installed && Halfword(es[j], a) && stored[i] == BKPT_PATCH[a - es[j].address];
  }

  /** Which writes over armed breakpoints are safe to fail: exactly those that repeat, behind each patched
      halfword, the instruction that is there. Of any other, some failure leaves the target with bytes that are
      neither the instruction nor, as a whole, the peer's. */
  lemma FailsSafely(es: seq<SwBp>, addr: nat, data: seq<byte>, stored: seq<byte>, mem: Mem, img: Mem)
    requires TableOk(es) && Tracks(es, mem, img) && Armed(es, mem, img) && StoredImage(es, addr, data, stored)
    ensures FailureSpares(es, addr, data, stored, mem, img) <==> RepeatsInstructions(es, addr, data)
  {
    hide StoredByte, Armed, ArmedExcept, Tracks;
    if RepeatsInstructions(es, addr, data) {
      forall mem', img', a: int | PeerStored(addr, stored, data, es, false, mem, img, mem', img') && Covered(es, a)
        ensures mem'.At(a) == mem.At(a)
      {
        if addr <= a < addr + |data| {
          var i := a - addr;
          var k :| 0 <= k < |es| && Covers(es[k], a);
          if Halfword(es[k], a) {
            AtPatch(es, addr, data, stored, k, i, mem, img);
          } else {
            BehindPatch(es, addr, data, stored, k, i, mem, img);
          }
        }
      }
    }
    if FailureSpares(es, addr, data, stored, mem, img) {
      var mem' := Write(mem, addr, stored);
      var img' := Mem((a: int) => if Covered(es, a) then img.At(a) else mem'.At(a));
      assert PeerStored(addr, stored, data, es, false, mem, img, mem', img');
      forall k, i | 0 <= k < |es| && 0 <= i < |data| && Covers(es[k], addr + i) && !Halfword(es[k], addr + i)
        ensures data[i] == es[k].original[addr + i - es[k].address]
      {
        BehindPatch(es, addr, data, stored, k, i, mem, img);
        assert Covered(es, addr + i) && mem'.At(addr + i) == stored[i];
      }
    }
  }

  /** However the write of `data` fails, it leaves the whole target as it was. */
  ghost predicate FailureUndone(es: seq<SwBp>, addr: nat, data: seq<byte>, stored: seq<byte>, mem: Mem, img: Mem)
    requires |stored| == |data|
  {
    forall mem', img' :: PeerStored(addr, stored, data, es, false, mem, img, mem', img') ==> Same(mem', mem)
  }

  /** Which writes keep the original state when they fail: exactly those that change nothing but what is hidden
      under patched halfwords. */
  lemma FailsWithoutTrace(es: seq<SwBp>, addr: nat, data: seq<byte>, stored: seq<byte>, mem: Mem, img: Mem)
    requires TableOk(es) && Armed(es, mem, img) && StoredImage(es, addr, data, stored)
    ensures FailureUndone(es, addr, data, stored, mem, img) <==>
              forall i :: 0 <= i < |data| ==> data[i] == img.At(addr + i) || exists k :: 0 <= k < |es| && Halfword(es[k], addr + i)
  {
    forall i | 0 <= i < |data|
      ensures stored[i] == mem.At(addr + i) <==>
                data[i] == img.At(addr + i) || exists k :: 0 <= k < |es| && Halfword(es[k], addr + i)
    {
      Sent(es, addr, data, stored, i, mem, img);
    }
    if FailureUndone(es, addr, data, stored, mem, img) {
      var mem' := Write(mem, addr, stored);
      var img' := Mem((a: int) => if Covered(es, a) then img.At(a) else mem'.At(a));
      assert PeerStored(addr, stored, data, es, false, mem, img, mem', img');
      assert forall i :: 0 <= i < |data| ==> mem'.At(addr + i) == stored[i];
    } else {
      var mem', img' :| PeerStored(addr, stored, data, es, false, mem, img, mem', img') && !Same(mem', mem);
      var a: int :| mem'.At(a) != mem.At(a);
      assert stored[a - addr] != mem.At(addr + (a - addr));
    }
  }

  lemma Sent(es: seq<SwBp>, addr: nat, data: seq<byte>, stored: seq<byte>, i: nat, mem: Mem, img: Mem)
    requires TableOk(es) && Armed(es, mem, img) && StoredImage(es, addr, data, stored) && i < |data|
    ensures stored[i] == mem.At(addr + i) <==>
              data[i] == img.At(addr + i) || exists k :: 0 <= k < |es| && Halfword(es[k], addr + i)
  {
    assert StoredByte(es, addr + i, data[i], stored[i]);
    if k :| 0 <= k < |es| && Halfword(es[k], addr + i) {
      AtPatch(es, addr, data, stored, k, i, mem, img);
    }
  }

  /** A write that fails half way into a patched 4-byte instruction: the image keeps the instruction, and the
      second half of what the target holds is neither it nor the patch. */
  lemma TornExample() returns (e: SwBp, mem: Mem, img: Mem, mem': Mem)
    ensures e.installed && e.address == 0x2000_0000 && e.size == 4 && e.original == [1, 1, 1, 1]
    ensures Tracks([e], mem, img) && ArmedExcept([e], -1, mem, img) && Tracks([e], mem', img)
    ensures PeerStored(0x2000_0000, [0x00, 0xBE, 2, 2], [2, 2, 2, 2], [e], false, mem, img, mem', img)
    ensures mem'.At(0x2000_0002) == 2 && mem'.At(0x2000_0003) == 1
  {
    img := Mem((a: int) => 1);
    e := SwBp(1, 0x2000_0000, 4, true, [1, 1, 1, 1]);
    mem := Write(img, 0x2000_0000, BKPT_PATCH);
    mem' := Write(mem, 0x2000_0002, [2]);
    assert Remembers(e, img);
    SinglePatched(e, img);
    TornHalf(e, mem, img, mem');
  }

  lemma TornHalf(e: SwBp, mem: Mem, img: Mem, mem': Mem)
    requires e.installed && e.address == 0x2000_0000 && e.size == 4 && TableOk([e]) && Tracks([e], mem, img)
    requires mem' == Write(mem, 0x2000_0002, [2])
    ensures Tracks([e], mem', img)
    ensures PeerStored(0x2000_0000, [0x00, 0xBE, 2, 2], [2, 2, 2, 2], [e], false, mem, img, mem', img)
  {
    var stored: seq<byte> := [0x00, 0xBE, 2, 2];
    assert stored[2] == 2;
    assert Torn(mem, mem', 0x2000_0000, stored);
    forall a: int | !Covered([e], a) ensures mem'.At(a) == img.At(a) {
      assert !Covers([e][0], a);
    }
  }

  /** The byte shown for address `a`, where the target shows `b`. */
  function Substituted(entry: SwBp, requested: bool, a: int, b: byte): byte
    requires WellFormed(entry)
  {
    if requested && Covers(entry, a) then entry.original[a - entry.address] else b
  }

  /** Replaces the bytes `entry` may hide. */
  method SubstituteEntry(data: array<byte>, base: nat, addr: nat, size: nat, entry: SwBp)
    requires base + size <= data.Length && WellFormed(entry)
    modifies data
    ensures forall i :: 0 <= i < data.Length ==>
              data[i] == Substituted(entry, base <= i < base + size, addr + i - base, old(data[i]))
  {
    if !entry.installed || entry.address + entry.size <= addr || addr + size <= entry.address {
      return;
    }
    for offset := 0 to size
      invariant forall i :: 0 <= i < data.Length ==>
                  data[i] == Substituted(entry, base <= i < base + offset, addr + i - base, old(data[i]))
    {
      var absolute := addr + offset;
      if entry.address <= absolute < entry.address + entry.size {
        data[base + offset] := entry.original[absolute - entry.address];
      }
    }
  }
}
