/** Fields that occur more than once: what a decoder makes of any list of records, field by field, and the
    rules that follow from it. */
module MessageRepeats {
  import opened Varint
  import opened MessageCodec
  import opened MessageLaws

  // ---- a message is decoded field by field ---------------------------------------------------------

  /** What record `r` does to the slot of field `k`: its own record is decoded over the slot, a record of another
      member of its oneof clears it, any other record leaves it. */
  function Influence(schema: seq<Field>, k: nat, slot: Slot, r: Record): Option<Slot>
    requires k < |schema|
  {
    var f, j := schema[k], FieldWith(schema, r.tag);
    if j == k then
      match DecodeSlot(f, slot, r.wireType, r.content)
      case Failed => None
      case Got(slot', n) => if n == |r.content| then Some(slot') else None
    else if j >= 0 && schema[j].rule.OneOf? && f.rule == schema[j].rule then Some(Choice(false, Zero(f.kind)))
    else Some(slot)
  }

  function Followed(schema: seq<Field>, k: nat, slot: Slot, rs: seq<Record>): Option<Slot>
    requires k < |schema|
  {
    if rs == [] then Some(slot)
    else
      match Followed(schema, k, slot, rs[..|rs| - 1])
      case None => None
      case Some(slot') => Influence(schema, k, slot', rs[|rs| - 1])
  }

  /** A record whose tag is one, and that can be skipped if the schema does not have it. */
  predicate Readable(schema: seq<Field>, r: Record) {
    r.tag != 0 && (FieldWith(schema, r.tag) < 0 ==> Skippable(r))
  }

  lemma SkipUnit(wt: nat, s: seq<byte>)
    ensures Skip(wt, s).Got? ==> Skip(wt, s) == Got((), Skip(wt, s).size)
  {
    hide ReadLength, Len;
  }

  lemma ApplyByField(schema: seq<Field>, slots: seq<Slot>, r: Record)
    requires |slots| == |schema|
    ensures Apply(schema, slots, r).Some? <==>
              Readable(schema, r) && forall k :: 0 <= k < |schema| ==> Influence(schema, k, slots[k], r).Some?
    ensures Apply(schema, slots, r).Some? ==>
              forall k :: 0 <= k < |schema| ==> Influence(schema, k, slots[k], r) == Some(Apply(schema, slots, r).value[k])
  {
    hide DecodeSlot, Zero, Skip;
    var j := FieldWith(schema, r.tag);
    if j >= 0 {
      var d := DecodeSlot(schema[j], slots[j], r.wireType, r.content);
      assert Influence(schema, j, slots[j], r).Some? <==> d.Got? && d.size == |r.content|;
    } else {
      var d := Skip(r.wireType, r.content);
      SkipUnit(r.wireType, r.content);
      assert Skippable(r) <==> d.Got? && d.size == |r.content|;
      assert forall k :: 0 <= k < |schema| ==> Influence(schema, k, slots[k], r) == Some(slots[k]);
    }
  }

  /** Decoding a list of records is decoding each field on its own: it succeeds exactly if every record can be
      read and every field follows its records, and then every slot is what its field makes of them. Records
      of different fields do not see each other, except the members of a oneof. */
  lemma {:induction false} FieldsIndependent(schema: seq<Field>, slots: seq<Slot>, rs: seq<Record>)
    requires |slots| == |schema|
    ensures Applied(schema, slots, rs).Some? <==>
              && (forall i :: 0 <= i < |rs| ==> Readable(schema, rs[i]))
              && (forall k :: 0 <= k < |schema| ==> Followed(schema, k, slots[k], rs).Some?)
    ensures Applied(schema, slots, rs).Some? ==>
              forall k :: 0 <= k < |schema| ==> Followed(schema, k, slots[k], rs) == Some(Applied(schema, slots, rs).value[k])
    decreases |rs|
  {
    hide Apply, Influence, Readable;
    if rs != [] {
      var n := |rs| - 1;
      FieldsIndependent(schema, slots, rs[..n]);
      if Applied(schema, slots, rs[..n]).Some? {
        ApplyByField(schema, Applied(schema, slots, rs[..n]).value, rs[n]);
        assert forall i :: 0 <= i < n ==> rs[..n][i] == rs[i];
      } else if forall i :: 0 <= i < |rs| ==> Readable(schema, rs[i]) {
        assert forall i :: 0 <= i < n ==> Readable(schema, rs[..n][i]);
        var k :| 0 <= k < |schema| && Followed(schema, k, slots[k], rs[..n]).None?;
        assert Followed(schema, k, slots[k], rs).None?;
      }
    }
  }

  lemma {:induction false} FollowedAppend(schema: seq<Field>, k: nat, slot: Slot, a: seq<Record>, b: seq<Record>)
    requires k < |schema|
    ensures Followed(schema, k, slot, a + b) ==
            match Followed(schema, k, slot, a) case None => None case Some(s) => Followed(schema, k, s, b)
    decreases |b|
  {
    hide Influence;
    if b == [] {
      assert a + b == a;
    } else {
      var n := |b| - 1;
      assert (a + b)[..|a + b| - 1] == a + b[..n];
      FollowedAppend(schema, k, slot, a, b[..n]);
    }
  }

  lemma FollowedOne(schema: seq<Field>, k: nat, slot: Slot, r: Record)
    requires k < |schema|
    ensures Followed(schema, k, slot, [r]) == Influence(schema, k, slot, r)
  {
    assert [r][..0] == [];
    assert Followed(schema, k, slot, [r][..0]) == Some(slot);
  }

  // ---- the last occurrence wins -----------------------------------------------------------------------

  /** A field whose later occurrence replaces an earlier one. */
  predicate Replaces(f: Field) {
    (f.rule.Singular? || f.rule.Optional?) && !f.kind.Nested?
  }

  /** Such a field is decoded without regard to what its slot holds. */
  lemma Regardless(schema: seq<Field>, k: nat, s: Slot, t: Slot, r: Record)
    requires k < |schema| && Replaces(schema[k]) && SlotOf(schema[k], s) && SlotOf(schema[k], t)
    ensures Influence(schema, k, s, r).Some? == Influence(schema, k, t, r).Some?
    ensures FieldWith(schema, r.tag) == k ==> Influence(schema, k, s, r) == Influence(schema, k, t, r)
    ensures Influence(schema, k, s, r).Some? ==> SlotOf(schema[k], Influence(schema, k, s, r).value)
  {
    hide Zero, FieldWith, DecodeValue;
    BaseFree(schema[k].kind, if s.One? || s.Maybe? then s.value else Num(0), if t.One? || t.Maybe? then t.value else Num(0), r.content);
  }

  /** Two slots that follow the same records agree from the first record of the field on. */
  lemma {:induction false} Forgets(schema: seq<Field>, k: nat, s: Slot, t: Slot, rs: seq<Record>)
    requires k < |schema| && Replaces(schema[k]) && SlotOf(schema[k], s) && SlotOf(schema[k], t)
    ensures Followed(schema, k, s, rs).Some? == Followed(schema, k, t, rs).Some?
    ensures Followed(schema, k, s, rs).Some? ==>
              SlotOf(schema[k], Followed(schema, k, s, rs).value) && SlotOf(schema[k], Followed(schema, k, t, rs).value)
    ensures (exists i :: 0 <= i < |rs| && FieldWith(schema, rs[i].tag) == k) ==> Followed(schema, k, s, rs) == Followed(schema, k, t, rs)
    decreases |rs|
  {
    hide Influence, FieldWith, Replaces, SlotOf;
    if rs != [] {
      var n := |rs| - 1;
      Forgets(schema, k, s, t, rs[..n]);
      if Followed(schema, k, s, rs[..n]).Some? {
        var u, v := Followed(schema, k, s, rs[..n]).value, Followed(schema, k, t, rs[..n]).value;
        Regardless(schema, k, u, v, rs[n]);
        Regardless(schema, k, v, u, rs[n]);
        if i :| 0 <= i < |rs| && FieldWith(schema, rs[i].tag) == k {
          if i < n {
            assert rs[..n][i] == rs[i];
          }
        }
      }
    }
  }

  lemma Unaffected(schema: seq<Field>, m: nat, k: nat, slot: Slot, r: Record)
    requires m < |schema| && k < |schema| && m != k && FieldWith(schema, r.tag) == k && !schema[k].rule.OneOf?
    ensures Influence(schema, m, slot, r) == Some(slot)
  {
    hide FieldWith, DecodeSlot, Zero;
  }

  /** The slots have the shape of their fields. */
  predicate Shaped(schema: seq<Field>, slots: seq<Slot>) {
    |slots| == |schema| && forall k :: 0 <= k < |schema| ==> SlotOf(schema[k], slots[k])
  }

  lemma {:induction false} KeepsShape(schema: seq<Field>, k: nat, slot: Slot, rs: seq<Record>)
    requires k < |schema| && SlotOf(schema[k], slot)
    ensures Followed(schema, k, slot, rs).Some? ==> SlotOf(schema[k], Followed(schema, k, slot, rs).value)
    decreases |rs|
  {
    hide FieldWith, DecodeValue, DecodePacked, ReadLength, Zero;
    if rs != [] {
      KeepsShape(schema, k, slot, rs[..|rs| - 1]);
    }
  }

  /** The last occurrence wins: a record of a singular or optional field that is not a message makes no difference
      if the field occurs again later, whatever comes in between, except that it must be readable. */
  lemma {:induction false} LastWins(schema: seq<Field>, slots: seq<Slot>, a: seq<Record>, r: Record, b: seq<Record>, k: nat)
    requires Shaped(schema, slots) && k < |schema| && FieldWith(schema, r.tag) == k && Replaces(schema[k])
    requires exists i :: 0 <= i < |b| && FieldWith(schema, b[i].tag) == k
    ensures Applied(schema, slots, a + [r] + b) ==
            if r.tag != 0 && Influence(schema, k, slots[k], r).Some? then Applied(schema, slots, a + b) else None
  {
    hide Influence, FieldWith, SlotOf, Followed, Applied, Replaces, Readable;
    FieldsIndependent(schema, slots, a + b);
    FieldsIndependent(schema, slots, a + [r] + b);
    forall m | 0 <= m < |schema|
      ensures Followed(schema, m, slots[m], a + [r] + b) ==
              if m == k && Influence(schema, k, slots[k], r).None? then None else Followed(schema, m, slots[m], a + b)
    {
      PastOccurrence(schema, slots[m], slots[k], a, r, b, k, m);
    }
    ReadableAll(schema, a, r, b);
    var u, v := Applied(schema, slots, a + [r] + b), Applied(schema, slots, a + b);
    if u.Some? && v.Some? {
      assert u.value == v.value;
    }
  }

  lemma PastOccurrence(schema: seq<Field>, slot: Slot, own: Slot, a: seq<Record>, r: Record, b: seq<Record>, k: nat, m: nat)
    requires k < |schema| && m < |schema| && FieldWith(schema, r.tag) == k && Replaces(schema[k])
    requires SlotOf(schema[k], own) && (m == k ==> slot == own)
    requires exists i :: 0 <= i < |b| && FieldWith(schema, b[i].tag) == k
    ensures Followed(schema, m, slot, a + [r] + b) ==
            if m == k && Influence(schema, k, own, r).None? then None else Followed(schema, m, slot, a + b)
  {
    hide Influence, FieldWith, SlotOf, Followed, Replaces;
    FollowedAppend(schema, m, slot, a, b);
    FollowedAppend(schema, m, slot, a + [r], b);
    FollowedAppend(schema, m, slot, a, [r]);
    if Followed(schema, m, slot, a).Some? {
      var t := Followed(schema, m, slot, a).value;
      FollowedOne(schema, m, t, r);
      if m == k {
        KeepsShape(schema, k, slot, a);
        Regardless(schema, k, t, own, r);
        if Influence(schema, k, t, r).Some? {
          Forgets(schema, k, t, Influence(schema, k, t, r).value, b);
        }
      } else {
        ReplacesAlone(schema[k]);
        Unaffected(schema, m, k, t, r);
      }
    }
  }

  lemma ReplacesAlone(f: Field)
    requires Replaces(f)
    ensures !f.rule.OneOf?
  {
  }

  lemma ReadableAll(schema: seq<Field>, a: seq<Record>, r: Record, b: seq<Record>)
    requires FieldWith(schema, r.tag) >= 0
    ensures (forall i :: 0 <= i < |a + [r] + b| ==> Readable(schema, (a + [r] + b)[i])) <==>
            r.tag != 0 && forall i :: 0 <= i < |a + b| ==> Readable(schema, (a + b)[i])
  {
    hide FieldWith, Skippable, Readable;
    var with, without := a + [r] + b, a + b;
    assert with[|a|] == r && (Readable(schema, r) <==> r.tag != 0) by { ReadableKnown(schema, r); }
    assert forall i :: 0 <= i < |a| ==> with[i] == without[i];
    assert forall i :: |a| <= i < |without| ==> with[i + 1] == without[i];
    assert forall i :: |a| < i < |with| ==> with[i] == without[i - 1];
  }

  lemma ReadableKnown(schema: seq<Field>, r: Record)
    requires FieldWith(schema, r.tag) >= 0
    ensures Readable(schema, r) <==> r.tag != 0
  {
  }

  // ---- a oneof is what its last member says ---------------------------------------------------------------

  /** A record that leaves field `k` and its oneof alone. */
  predicate Elsewhere(schema: seq<Field>, k: nat, r: Record)
    requires k < |schema|
  {
    var j := FieldWith(schema, r.tag);
    j != k && (schema[k].rule.OneOf? && j >= 0 ==> schema[j].rule != schema[k].rule)
  }

  /** Records of other fields, and not of its oneof, leave the slot of a field as it is. */
  lemma {:induction false} NotTouched(schema: seq<Field>, k: nat, slot: Slot, rs: seq<Record>)
    requires k < |schema| && forall i :: 0 <= i < |rs| ==> Elsewhere(schema, k, rs[i])
    ensures Followed(schema, k, slot, rs) == Some(slot)
    decreases |rs|
  {
    hide FieldWith, DecodeSlot, Zero;
    if rs != [] {
      NotTouched(schema, k, slot, rs[..|rs| - 1]);
    }
  }

  /** After any records the oneof holds the member that came last, and every other member is at its default. */
  lemma {:induction false} LastMemberChosen(schema: seq<Field>, slots: seq<Slot>, a: seq<Record>, r: Record, b: seq<Record>, k: nat)
    requires |slots| == |schema| && k < |schema| && FieldWith(schema, r.tag) == k && schema[k].rule.OneOf?
    requires forall i :: 0 <= i < |b| ==>
               var j := FieldWith(schema, b[i].tag); j < 0 || schema[j].rule != schema[k].rule
    requires Applied(schema, slots, a + [r] + b).Some?
    ensures var out := Applied(schema, slots, a + [r] + b).value;
            && out[k].Choice? && out[k].chosen
            && forall m :: 0 <= m < |schema| && m != k && schema[m].rule == schema[k].rule ==>
                 out[m] == Choice(false, Zero(schema[m].kind))
  {
    hide FieldWith, Applied, Followed, Influence, Zero;
    FieldsIndependent(schema, slots, a + [r] + b);
    forall m | 0 <= m < |schema| && schema[m].rule == schema[k].rule
      ensures var s := Followed(schema, m, slots[m], a + [r] + b);
              s.Some? && if m == k then s.value.Choice? && s.value.chosen else s.value == Choice(false, Zero(schema[m].kind))
    {
      FollowedAppend(schema, m, slots[m], a + [r], b);
      FollowedAppend(schema, m, slots[m], a, [r]);
      var t := Followed(schema, m, slots[m], a).value;
      FollowedOne(schema, m, t, r);
      MemberTaken(schema, m, k, t, r);
      NotTouched(schema, m, Influence(schema, m, t, r).value, b);
    }
  }

  lemma MemberTaken(schema: seq<Field>, m: nat, k: nat, slot: Slot, r: Record)
    requires m < |schema| && k < |schema| && FieldWith(schema, r.tag) == k && schema[k].rule.OneOf? && schema[m].rule == schema[k].rule
    ensures Influence(schema, m, slot, r).Some? ==>
              var s := Influence(schema, m, slot, r).value;
              if m == k then s.Choice? && s.chosen else s == Choice(false, Zero(schema[m].kind))
  {
    hide FieldWith, DecodeValue, ReadLength, DecodePacked, Zero;
  }

  // ---- occurrences of a message are merged ------------------------------------------------------------------

  lemma {:induction false} DecodeTwice(schema: seq<Field>, slots: seq<Slot>, a: seq<byte>, b: seq<byte>)
    requires |slots| == |schema| && DecodeSlots(schema, slots, a).Some?
    ensures DecodeSlots(schema, slots, a + b) == DecodeSlots(schema, DecodeSlots(schema, slots, a).value, b)
    decreases |a|
  {
    hide Parse32, DecodeField, DecodeSlots;
    if a == [] {
      assert a + b == b;
      SlotsNothing(schema, slots);
    } else {
      SlotsStep(schema, slots, a);
      SlotsStep(schema, slots, a + b);
      ParseLocal(a, b);
      var d := Parse32(a).value;
      var rest := a[d.size..];
      assert (a + b)[d.size..] == rest + b;
      DecodeFieldLocal(schema, slots, d.value / 8, d.value % 8, rest, b);
      var r := DecodeField(schema, slots, d.value / 8, d.value % 8, rest);
      assert a[d.size + r.size..] == rest[r.size..];
      assert (a + b)[d.size + r.size..] == rest[r.size..] + b;
      DecodeTwice(schema, r.value, rest[r.size..], b);
    }
  }

  lemma SlotsNothing(schema: seq<Field>, slots: seq<Slot>)
    requires |slots| == |schema|
    ensures DecodeSlots(schema, slots, []) == Some(slots)
  {
  }

  lemma SlotsStep(schema: seq<Field>, slots: seq<Slot>, s: seq<byte>)
    requires |slots| == |schema| && s != []
    ensures DecodeSlots(schema, slots, s).Some? ==>
              Parse32(s).Some? && var d := Parse32(s).value;
              DecodeField(schema, slots, d.value / 8, d.value % 8, s[d.size..]).Got?
    ensures Parse32(s).Some? ==>
              var d := Parse32(s).value;
              var r := DecodeField(schema, slots, d.value / 8, d.value % 8, s[d.size..]);
              r.Got? ==> DecodeSlots(schema, slots, s) == DecodeSlots(schema, r.value, s[d.size + r.size..])
  {
    hide DecodeField, Parse32, DecodeSlot, DecodeValue, DecodePacked, FieldWith, Store, Skip, Parse64, Len, Low;
  }

  /** A record that carries the bytes of a nested message. */
  function MessageRecord(f: Field, b: seq<byte>): Record {
    Record(f.tag, WT_STRING, WithLength(b))
  }

  /** A field that holds one message. */
  predicate Merges(f: Field) {
    (f.rule.Optional? || f.rule.OneOf?) && f.kind.Nested?
  }

  /** The next occurrence of the message is decoded over a struct of its type. */
  predicate Whole(f: Field, s: Slot) {
    Merges(f) && SlotOf(f, s) && BaseOf(f, s).Sub? && |BaseOf(f, s).slots| == |f.kind.schema|
  }

  /** Occurrences of a message field are merged: two of them, whatever comes in between, are one that carries
      the bytes of both, as long as the first can be read on its own. */
  lemma {:induction false} Merged(schema: seq<Field>, slots: seq<Slot>, a: seq<Record>, x: seq<byte>, between: seq<Record>, y: seq<byte>,
               c: seq<Record>, k: nat)
    requires |slots| == |schema| && k < |schema| && FieldWith(schema, schema[k].tag) == k && schema[k].tag != 0
    requires Merges(schema[k]) && |x| + |y| < TWO_32 && forall i :: 0 <= i < |between| ==> Elsewhere(schema, k, between[i])
    requires Followed(schema, k, slots[k], a).Some? && Whole(schema[k], Followed(schema, k, slots[k], a).value)
    ensures var f := schema[k];
            Applied(schema, slots, a + [MessageRecord(f, x)] + between + [MessageRecord(f, y)] + c) ==
            if DecodeSlots(f.kind.schema, BaseOf(f, Followed(schema, k, slots[k], a).value).slots, x).Some?
            then Applied(schema, slots, a + between + [MessageRecord(f, x + y)] + c)
            else None
  {
    hide FieldWith, Applied, Followed, Influence, Readable, Whole, Merges, Elsewhere, DecodeSlots, BaseOf;
    var f := schema[k];
    var p, q, pq := MessageRecord(f, x), MessageRecord(f, y), MessageRecord(f, x + y);
    var two, one := a + [p] + between + [q] + c, a + between + [pq] + c;
    var t := Followed(schema, k, slots[k], a).value;
    assert BaseOf(f, t).Sub? && |BaseOf(f, t).slots| == |f.kind.schema| by { WholeMeans(f, t); }
    FieldsIndependent(schema, slots, two);
    FieldsIndependent(schema, slots, one);
    forall m | 0 <= m < |schema|
      ensures Followed(schema, m, slots[m], two) ==
              if m == k && DecodeSlots(f.kind.schema, BaseOf(f, t).slots, x).None? then None else Followed(schema, m, slots[m], one)
    {
      if m == k {
        FollowedMerged(schema, slots[k], t, a, x, between, y, c, k);
      } else {
        FollowedPast(schema, m, slots[m], a, x, between, y, c, k);
      }
    }
    ReadableMerged(schema, a, p, between, q, c, pq);
    var u, v := Applied(schema, slots, one), Applied(schema, slots, two);
    if u.Some? && v.Some? {
      assert u.value == v.value;
    }
  }

  lemma WholeMeans(f: Field, s: Slot)
    requires Whole(f, s)
    ensures f.kind.Nested? && !f.rule.Repeated? && SlotOf(f, s) && BaseOf(f, s).Sub? && |BaseOf(f, s).slots| == |f.kind.schema|
  {
  }

  /** What the field itself makes of its two occurrences. */
  lemma FollowedMerged(schema: seq<Field>, slot: Slot, t: Slot, a: seq<Record>, x: seq<byte>, between: seq<Record>,
                       y: seq<byte>, c: seq<Record>, k: nat)
    requires k < |schema| && FieldWith(schema, schema[k].tag) == k && |x| + |y| < TWO_32
    requires forall i :: 0 <= i < |between| ==> Elsewhere(schema, k, between[i])
    requires Followed(schema, k, slot, a) == Some(t) && Whole(schema[k], t)
    ensures var f := schema[k];
            Followed(schema, k, slot, a + [MessageRecord(f, x)] + between + [MessageRecord(f, y)] + c) ==
            if DecodeSlots(f.kind.schema, BaseOf(f, t).slots, x).Some?
            then Followed(schema, k, slot, a + between + [MessageRecord(f, x + y)] + c)
            else None
  {
    hide FieldWith, Followed, Influence, Whole, Elsewhere, DecodeSlots, BaseOf;
    var f := schema[k];
    var p, q, pq := MessageRecord(f, x), MessageRecord(f, y), MessageRecord(f, x + y);
    FollowedAppend(schema, k, slot, a + [p] + between + [q], c);
    FollowedAppend(schema, k, slot, a + [p] + between, [q]);
    FollowedAppend(schema, k, slot, a + [p], between);
    FollowedAppend(schema, k, slot, a, [p]);
    FollowedAppend(schema, k, slot, a + between + [pq], c);
    FollowedAppend(schema, k, slot, a + between, [pq]);
    FollowedAppend(schema, k, slot, a, between);
    FollowedOne(schema, k, t, p);
    NotTouched(schema, k, t, between);
    FollowedOne(schema, k, t, pq);
    TwoAreOne(schema, k, t, x, y);
    if Influence(schema, k, t, p).Some? {
      NotTouched(schema, k, Influence(schema, k, t, p).value, between);
      FollowedOne(schema, k, Influence(schema, k, t, p).value, q);
    }
  }

  /** What another field makes of them. */
  lemma FollowedPast(schema: seq<Field>, m: nat, slot: Slot, a: seq<Record>, x: seq<byte>, between: seq<Record>,
                     y: seq<byte>, c: seq<Record>, k: nat)
    requires m < |schema| && k < |schema| && m != k && FieldWith(schema, schema[k].tag) == k
    requires forall i :: 0 <= i < |between| ==> Elsewhere(schema, k, between[i])
    ensures var f := schema[k];
            Followed(schema, m, slot, a + [MessageRecord(f, x)] + between + [MessageRecord(f, y)] + c) ==
            Followed(schema, m, slot, a + between + [MessageRecord(f, x + y)] + c)
  {
    hide FieldWith, Followed, Influence, Elsewhere;
    var f := schema[k];
    var p, q, pq := MessageRecord(f, x), MessageRecord(f, y), MessageRecord(f, x + y);
    FollowedAppend(schema, m, slot, a + [p] + between + [q], c);
    FollowedAppend(schema, m, slot, a + [p] + between, [q]);
    FollowedAppend(schema, m, slot, a + [p], between);
    FollowedAppend(schema, m, slot, a, [p]);
    FollowedAppend(schema, m, slot, a + between + [pq], c);
    FollowedAppend(schema, m, slot, a + between, [pq]);
    FollowedAppend(schema, m, slot, a, between);
    if Followed(schema, m, slot, a).Some? {
      var t := Followed(schema, m, slot, a).value;
      Passing(schema, m, k, t, p);
      FollowedOne(schema, m, t, p);
      if schema[k].rule.OneOf? && schema[m].rule == schema[k].rule {
        SiblingsRest(schema, m, k, between);
        NotTouched(schema, m, t, between);
        NotTouched(schema, m, Choice(false, Zero(schema[m].kind)), between);
        Passing(schema, m, k, Choice(false, Zero(schema[m].kind)), q);
        FollowedOne(schema, m, Choice(false, Zero(schema[m].kind)), q);
        Passing(schema, m, k, t, pq);
        FollowedOne(schema, m, t, pq);
      } else if Followed(schema, m, t, between).Some? {
        var u := Followed(schema, m, t, between).value;
        FollowedOne(schema, m, u, q);
        FollowedOne(schema, m, u, pq);
        Passing(schema, m, k, u, q);
        Passing(schema, m, k, u, pq);
      }
    }
  }

  /** A record of one field clears the other members of its oneof and leaves the rest alone. */
  lemma Passing(schema: seq<Field>, m: nat, k: nat, slot: Slot, r: Record)
    requires m < |schema| && k < |schema| && m != k && FieldWith(schema, r.tag) == k
    ensures Influence(schema, m, slot, r) ==
            Some(if schema[k].rule.OneOf? && schema[m].rule == schema[k].rule then Choice(false, Zero(schema[m].kind)) else slot)
  {
    hide FieldWith, DecodeSlot, Zero;
  }

  lemma SiblingsRest(schema: seq<Field>, m: nat, k: nat, rs: seq<Record>)
    requires m < |schema| && k < |schema| && schema[k].rule.OneOf? && schema[m].rule == schema[k].rule
    requires forall i :: 0 <= i < |rs| ==> Elsewhere(schema, k, rs[i])
    ensures forall i :: 0 <= i < |rs| ==> Elsewhere(schema, m, rs[i])
  {
    hide FieldWith;
  }

  /** A message decoded in two pieces. */
  lemma TwoAreOne(schema: seq<Field>, k: nat, t: Slot, x: seq<byte>, y: seq<byte>)
    requires k < |schema| && FieldWith(schema, schema[k].tag) == k && |x| + |y| < TWO_32 && Whole(schema[k], t)
    ensures var f := schema[k];
            var first := Influence(schema, k, t, MessageRecord(f, x));
            && (first.Some? <==> DecodeSlots(f.kind.schema, BaseOf(f, t).slots, x).Some?)
            && (first.Some? ==> Influence(schema, k, first.value, MessageRecord(f, y)) == Influence(schema, k, t, MessageRecord(f, x + y)))
  {
    hide DecodeSlot, DecodeValue, WithLength, FieldWith, DecodeSlots, Zero;
    var f := schema[k];
    var nested, slots := f.kind.schema, BaseOf(f, t).slots;
    assert BaseOf(f, t) == Sub(slots);
    MessageOver(nested, slots, x);
    DecodedOver(f, t, WT_STRING, WithLength(x));
    MessageOver(nested, slots, x + y);
    DecodedOver(f, t, WT_STRING, WithLength(x + y));
    if DecodeSlots(nested, slots, x).Some? {
      var s := DecodeSlots(nested, slots, x).value;
      DecodeTwice(nested, slots, x, y);
      assert BaseOf(f, Taken(f, Sub(s))) == Sub(s);
      MessageOver(nested, s, y);
      DecodedOver(f, Taken(f, Sub(s)), WT_STRING, WithLength(y));
    }
  }

  lemma ReadableMerged(schema: seq<Field>, a: seq<Record>, p: Record, between: seq<Record>, q: Record, c: seq<Record>, pq: Record)
    requires pq.tag == p.tag == q.tag != 0 && FieldWith(schema, pq.tag) >= 0
    ensures var two, one := a + [p] + between + [q] + c, a + between + [pq] + c;
            (forall i :: 0 <= i < |two| ==> Readable(schema, two[i])) <==> (forall i :: 0 <= i < |one| ==> Readable(schema, one[i]))
  {
    ReadableAll(schema, a, p, between + [q] + c);
    ReadableAll(schema, a + between, q, c);
    ReadableAll(schema, a + between, pq, c);
    assert a + [p] + (between + [q] + c) == a + [p] + between + [q] + c;
    assert a + (between + [q] + c) == a + between + [q] + c;
  }
}
