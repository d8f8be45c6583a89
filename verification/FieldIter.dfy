/** The field iterator of the protobuf codec: a cursor over the packed descriptor words of a message
    type, and its search for a field by tag. */
module FieldIter {
  import Machine

  type word = Machine.u32

  const LTYPE_SUBMESSAGE: nat := 8
  const LTYPE_SUBMSG_W_CB: nat := 9
  const LTYPE_EXTENSION: nat := 10
  const HTYPE_REQUIRED: nat := 0

  /** Descriptor words of a message type. `starts` says where the record of each field begins. */
  datatype Descriptor = Descriptor(info: seq<word>, starts: seq<nat>, largestTag: nat)

  /** A record has 1, 2, 4 or 8 words, as its lowest two bits say. */
  function WordsOf(word0: word): nat {
    match word0 % 4
    case 0 => 1
    case 1 => 2
    case 2 => 4
    case _ => 8
  }

  function TypeOf(word0: word): nat {
    word0 / 256 % 256
  }

  function LowTag(word0: word): nat {
    word0 / 4 % 64
  }

  /** The tag: six bits in the first word, and the rest, if there is a second word, in that one. */
  function TagOf(word0: word, word1: word): nat {
    match word0 % 4
    case 0 => LowTag(word0)
    case 1 => LowTag(word0) + word1 / 0x1000_0000 * 64
    case _ => LowTag(word0) + word1 / 0x100 * 64
  }

  predicate IsSubmessage(t: nat) {
    t % 16 == LTYPE_SUBMESSAGE || t % 16 == LTYPE_SUBMSG_W_CB
  }

  predicate IsExtension(t: nat) {
    t % 16 == LTYPE_EXTENSION
  }

  predicate IsRequired(t: nat) {
    t / 16 % 4 == HTYPE_REQUIRED
  }

  /** The records lie one after the other, each whole. */
  ghost predicate LaidOut(d: Descriptor) {
    && (d.starts != [] ==> d.starts[0] == 0)
    && (forall i :: 0 <= i < |d.starts| ==> d.starts[i] < |d.info|)
    && (forall i :: 0 <= i < |d.starts| ==> d.starts[i] + WordsOf(d.info[d.starts[i]]) <= |d.info|)
    && (forall i :: 0 < i < |d.starts| ==> d.starts[i] == d.starts[i - 1] + WordsOf(d.info[d.starts[i - 1]]))
  }

  function Word0(d: Descriptor, i: nat): word
    requires i < |d.starts| && d.starts[i] < |d.info|
  {
    d.info[d.starts[i]]
  }

  function Tag(d: Descriptor, i: nat): nat
    requires i < |d.starts| && d.starts[i] < |d.info|
    requires d.starts[i] + WordsOf(Word0(d, i)) <= |d.info|
  {
    TagOf(Word0(d, i), if Word0(d, i) % 4 == 0 then 0 else d.info[d.starts[i] + 1])
  }

  function Type(d: Descriptor, i: nat): nat
    requires i < |d.starts| && d.starts[i] < |d.info|
  {
    TypeOf(Word0(d, i))
  }

  /** What the generator promises: whole records, in tag order, the last tag the largest. */
  ghost predicate WellFormed(d: Descriptor) {
    && LaidOut(d) && d.starts != []
    && (forall i, j :: 0 <= i < j < |d.starts| ==> Tag(d, i) < Tag(d, j))
    && d.largestTag == Tag(d, |d.starts| - 1)
  }

  function Count(d: Descriptor, i: nat, required: bool): nat
    requires i <= |d.starts|
    requires forall k :: 0 <= k < |d.starts| ==> d.starts[k] < |d.info|
  {
    if i == 0 then 0
    else
      var t := Type(d, i - 1);
      Count(d, i - 1, required) + (if (if required then IsRequired(t) else IsSubmessage(t)) then 1 else 0)
  }

  /** The first six bits of a tag are those of its first word. */
  lemma TagLow(word0: word, word1: word)
    ensures TagOf(word0, word1) % 64 == LowTag(word0)
  {
  }

  /** The field a plain scan finds for `tag`: the first of that tag that is not the extension placeholder. */
  function Scan(d: Descriptor, tag: nat, i: nat): (k: int)
    requires LaidOut(d) && i <= |d.starts|
    ensures -1 <= k < |d.starts|
    ensures k >= 0 ==> i <= k && Tag(d, k) == tag && !IsExtension(Type(d, k))
    ensures k < 0 ==> forall j :: i <= j < |d.starts| ==> Tag(d, j) != tag || IsExtension(Type(d, j))
    decreases |d.starts| - i
  {
    if i == |d.starts| then -1
    else if Tag(d, i) == tag && !IsExtension(Type(d, i)) then i
    else Scan(d, tag, i + 1)
  }

  class Iterator {
    const descriptor: Descriptor
    var index: nat
    var fieldInfoIndex: nat
    var requiredFieldIndex: nat
    var submessageIndex: nat
    var tag: nat
    var fieldType: nat

    /** The cursor stands on record `index`, whatever is loaded. */
    ghost predicate Placed()
      reads this
    {
      && WellFormed(descriptor) && index < |descriptor.starts|
      && fieldInfoIndex == descriptor.starts[index]
      && requiredFieldIndex == Count(descriptor, index, true)
      && submessageIndex == Count(descriptor, index, false)
    }

    ghost predicate Valid()
      reads this
    {
      Placed() && tag == Tag(descriptor, index) && fieldType == Type(descriptor, index)
    }

    /** Starts at the first field. */
    constructor (d: Descriptor)
      requires WellFormed(d)
      ensures Valid() && descriptor == d && index == 0
    {
      descriptor, index, fieldInfoIndex, requiredFieldIndex, submessageIndex := d, 0, 0, 0, 0;
      tag, fieldType := 0, 0;
      new;
      LoadDescriptorValues();
    }

    method LoadDescriptorValues()
      requires Placed()
      modifies this`tag, this`fieldType
      ensures Valid()
    {
      var word0 := descriptor.info[fieldInfoIndex];
      fieldType := TypeOf(word0);
      var word1 := if word0 % 4 == 0 then 0 else descriptor.info[fieldInfoIndex + 1];
      tag := TagOf(word0, word1);
    }

    /** Moves to the next record, from the last one, or from beyond it, back to the first. */
    method AdvanceIterator()
      requires WellFormed(descriptor)
      requires Placed() || index == |descriptor.starts|
      modifies this`index, this`fieldInfoIndex, this`requiredFieldIndex, this`submessageIndex
      ensures Placed() && index == if old(index) + 1 >= |descriptor.starts| then 0 else old(index) + 1
    {
      index := index + 1;
      if index >= |descriptor.starts| {
        index, fieldInfoIndex, submessageIndex, requiredFieldIndex := 0, 0, 0, 0;
      } else {
        var previous := descriptor.info[fieldInfoIndex];
        var previousType := TypeOf(previous);
        fieldInfoIndex := fieldInfoIndex + WordsOf(previous);
        requiredFieldIndex := requiredFieldIndex + (if IsRequired(previousType) then 1 else 0);
        submessageIndex := submessageIndex + (if IsSubmessage(previousType) then 1 else 0);
      }
    }

    method Next() returns (more: bool)
      requires Valid()
      modifies this
      ensures Valid() && index == if old(index) + 1 == |descriptor.starts| then 0 else old(index) + 1
      ensures more <==> index != 0
    {
      hide WellFormed, Count, Tag;
      AdvanceIterator();
      LoadDescriptorValues();
      more := index != 0;
    }

    /** Looks at the record under the cursor: the low tag bits first, the whole record only if they match. */
    method TryHere(wanted: nat) returns (hit: bool)
      requires Placed()
      modifies this`tag, this`fieldType
      ensures Placed() && (hit ==> Valid())
      ensures hit <==> !Missed(descriptor, index, wanted)
    {
      var word0 := descriptor.info[fieldInfoIndex];
      TagLow(word0, if word0 % 4 == 0 then 0 else descriptor.info[fieldInfoIndex + 1]);
      hit := false;
      if LowTag(word0) == wanted % 64 {
        LoadDescriptorValues();
        hit := tag == wanted && !IsExtension(fieldType);
      }
    }

    /** The circular search: from any position it stops, and finds what a plain scan finds. The field
        under the cursor answers to its own tag even if it is the extension placeholder. */
    method Find(wanted: nat) returns (found: bool)
      requires Valid()
      modifies this
      ensures Valid()
      ensures old(tag) == wanted ==> found && index == old(index)
      ensures old(tag) != wanted ==>
                && (found <==> Scan(descriptor, wanted, 0) >= 0)
                && index == if found then Scan(descriptor, wanted, 0) else old(index)
    {
      hide WellFormed, LaidOut, Count, Tag, Type, Scan, Missed, IsExtension;
      Laid(descriptor);
      if tag == wanted {
        return true;
      }
      if wanted > descriptor.largestTag {
        BeyondLargest(descriptor, wanted);
        return false;
      }
      var start := index;
      ghost var count, own := |descriptor.starts|, tag;
      ghost var origin: int := if wanted < tag then -1 else start;
      if wanted < tag {
        index := |descriptor.starts|;
      }
      ghost var steps := 0;
      while true
        invariant WellFormed(descriptor) && start < count == |descriptor.starts|
        invariant origin == if wanted < own then -1 else start
        invariant steps == 0 ==> index == if origin == -1 then count else start
        invariant index < count ==> Placed()
        invariant steps > 0 ==> index == if origin + steps < count then origin + steps else origin + steps - count
        invariant 0 <= steps < count && (origin == -1 ==> steps <= start)
        invariant forall k: nat :: k < count && Passed(k, origin, steps, count) ==> Missed(descriptor, k, wanted)
        decreases count - steps
      {
        AdvanceIterator();
        steps := steps + 1;
        var hit := TryHere(wanted);
        if hit {
          Hit(descriptor, wanted, index);
          return true;
        }
        if index == start {
          break;
        }
      }
      LoadDescriptorValues();
      ScanNothing(descriptor, wanted, start, own);
      found := false;
    }
  }

  /** The record at `k` has been looked at after `steps` records from `origin` on, wrapping around. */
  predicate Passed(k: nat, origin: int, steps: nat, count: nat) {
    origin < k <= origin + steps || k <= origin + steps - count
  }

  lemma Laid(d: Descriptor)
    requires WellFormed(d)
    ensures LaidOut(d) && d.starts != []
  {
  }

  lemma Hit(d: Descriptor, tag: nat, k: nat)
    requires WellFormed(d) && k < |d.starts| && LaidOut(d) && !Missed(d, k, tag)
    ensures Scan(d, tag, 0) == k
  {
    ScanIs(d, tag, k);
  }

  predicate Missed(d: Descriptor, k: nat, wanted: nat)
    requires LaidOut(d) && k < |d.starts|
  {
    Tag(d, k) != wanted || IsExtension(Type(d, k))
  }

  lemma ScanIs(d: Descriptor, tag: nat, k: nat)
    requires WellFormed(d) && k < |d.starts| && Tag(d, k) == tag && !IsExtension(Type(d, k))
    ensures Scan(d, tag, 0) == k
  {
    var j := Scan(d, tag, 0);
    assert j >= 0;
    assert Tag(d, j) == Tag(d, k);
  }

  lemma {:induction false} AllMissed(d: Descriptor, tag: nat, i: nat)
    requires LaidOut(d) && i <= |d.starts|
    requires forall k :: i <= k < |d.starts| ==> Missed(d, k, tag)
    ensures Scan(d, tag, i) < 0
    decreases |d.starts| - i
  {
    if i < |d.starts| {
      assert Missed(d, i, tag);
      AllMissed(d, tag, i + 1);
    }
  }

  lemma ScanNothing(d: Descriptor, tag: nat, start: nat, own: nat)
    requires WellFormed(d) && start < |d.starts| && Tag(d, start) == own != tag
    requires tag < own ==> forall k :: 0 <= k <= start ==> Missed(d, k, tag)
    requires tag > own ==> forall k :: 0 <= k < |d.starts| ==> Missed(d, k, tag)
    ensures Scan(d, tag, 0) < 0
  {
    forall k | 0 <= k < |d.starts| ensures Missed(d, k, tag) {
      if tag < own && k > start {
        assert Tag(d, start) < Tag(d, k);
      }
    }
    AllMissed(d, tag, 0);
  }

  lemma BeyondLargest(d: Descriptor, tag: nat)
    requires WellFormed(d) && tag > d.largestTag
    ensures Scan(d, tag, 0) < 0
  {
    forall k | 0 <= k < |d.starts| ensures Missed(d, k, tag) {
      if k < |d.starts| - 1 {
        assert Tag(d, k) < Tag(d, |d.starts| - 1);
      }
    }
    AllMissed(d, tag, 0);
  }
}
