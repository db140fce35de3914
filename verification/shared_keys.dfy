/**
 The converse of the round trip: when exactly every instance of a descriptor is restored.
 A key shared by two fields, an array too long for cJSON or a float that conversion
 changes each make the trip fail for some instance.
 */
module SharedKeys {
  import opened Base
  import opened Memory
  import opened Meta
  import opened Json
  import opened DecodeFrame
  import opened RoundTrip
  import Built

  /** The bytes are the same outside the stretch. */
  ghost predicate SameOutside(a: Bytes, b: Bytes, from: nat, to: nat) {
    |a| == |b| && forall p: nat :: p < |a| && !(from <= p < to) ==> a[p] == b[p]
  }

  /** The same outside the storage of a field. */
  ghost predicate SameBeside(a: Bytes, b: Bytes, f: Field, base: nat) {
    SameOutside(a, b, base + f.offset, base + f.offset + Extent(f))
  }

  // ----------------------------------------------------- where fields touch

  lemma {:induction false} ItemsTouchFrom(g: Graph, f: Field, src: Bytes, whole: bool, base: nat, k: nat, i: nat)
    requires Ready(g, f, src, base, k) && i <= f.elementCount
    ensures Between(ItemsTouch(g, f, src, whole, base, k, i), At(f, base, i), base + f.offset + Extent(f))
    decreases f.elementCount - i
  {
    if i < f.elementCount {
      ElementTouchAt(g, f, src, whole, base, k, i);
      ItemsTouchFrom(g, f, src, whole, base, k, i + 1);
      assert At(f, base, i + 1) == At(f, base, i) + f.elementSize;
      ElementFits(f, base, i);
    }
  }

  lemma {:induction false} ElementTouchAt(g: Graph, f: Field, src: Bytes, whole: bool, base: nat, k: nat, i: nat)
    requires Ready(g, f, src, base, k) && i < f.elementCount
    ensures Between(ElementTouch(g, f, src, whole, base, k, i), At(f, base, i), At(f, base, i) + ElementExtent(f))
  {
    ElementReady(g, f, src, base, k, i);
    if f.kind.Struct? {
      StructTouchInside(g, f.nested.value, src, whole, At(f, base, i), k - 1);
    } else if f.kind.CharArray? {
      TextFits(src[At(f, base, i)..At(f, base, i) + f.charBufferSize]);
    }
  }

  /** The fields from i on touch nothing below their first byte. */
  lemma {:induction false} FieldsTouchFrom(
      g: Graph, d: Ref, src: Bytes, whole: bool, base: nat, k: nat, i: nat, low: nat)
    requires StructReady(g, d, src, base, k) && i <= |Fields(g, d)|
    requires forall m :: i <= m < |Fields(g, d)| ==> low <= base + Fields(g, d)[m].offset
    ensures forall p :: p in FieldsTouch(g, d, src, whole, base, k, i) ==> low <= p
    decreases |Fields(g, d)| - i
  {
    if i < |Fields(g, d)| {
      FieldsReady(g, d, src, base, k, i);
      ItemsTouchInside(g, Fields(g, d)[i], src, whole, base, k, 0);
      FieldsTouchFrom(g, d, src, whole, base, k, i + 1, low);
    }
  }

  lemma {:induction false} FieldTouchIncluded(g: Graph, d: Ref, src: Bytes, whole: bool, base: nat, k: nat, i: nat, j: nat)
    requires StructReady(g, d, src, base, k) && i <= j < |Fields(g, d)| && !Ignored(Fields(g, d)[j])
    ensures Ready(g, Fields(g, d)[j], src, base, k)
    ensures ItemsTouch(g, Fields(g, d)[j], src, whole, base, k, 0) <= FieldsTouch(g, d, src, whole, base, k, i)
    decreases j - i
  {
    hide ItemsTouch, FieldOk;
    FieldsReady(g, d, src, base, k, i);
    FieldsReady(g, d, src, base, k, j);
    if i < j {
      FieldTouchIncluded(g, d, src, whole, base, k, i + 1, j);
    }
  }

  /** In an ordered descriptor a change of field j is not seen by the encoding of another field. */
  lemma {:induction false} OtherFieldSame(
      ops: Floats, g: Graph, d: Ref, a: Bytes, b: Bytes, base: nat, k: nat, j: nat, m: nat)
    requires Built.Ordered(g) && StructReady(g, d, a, base, k) && StructReady(g, d, b, base, k)
    requires j < |Fields(g, d)| && m < |Fields(g, d)| && m != j && SameBeside(a, b, Fields(g, d)[j], base)
    ensures Ready(g, Fields(g, d)[m], a, base, k) && Ready(g, Fields(g, d)[m], b, base, k)
    ensures FieldToJson(ops, g, Fields(g, d)[m], a, base, k).Success? ==>
      FieldToJson(ops, g, Fields(g, d)[m], b, base, k) == FieldToJson(ops, g, Fields(g, d)[m], a, base, k)
  {
    FieldsReady(g, d, a, base, k, m);
    FieldsReady(g, d, b, base, k, m);
    var f, h := Fields(g, d)[m], Fields(g, d)[j];
    if FieldToJson(ops, g, f, a, base, k).Success? {
      ItemsTouchInside(g, f, a, false, base, k, 0);
      assert f.offset + Extent(f) <= h.offset || h.offset + Extent(h) <= f.offset;
      assert Agree(a, b, ItemsTouch(g, f, a, false, base, k, 0));
      FieldSeesTouch(ops, g, f, a, b, base, k);
    }
  }

  /** If field j stays encodable when only its bytes change, so does the structure. */
  lemma {:induction false} MembersSpliced(
      ops: Floats, g: Graph, d: Ref, a: Bytes, b: Bytes, base: nat, k: nat, j: nat, i: nat)
    requires Built.Ordered(g) && StructReady(g, d, a, base, k) && StructReady(g, d, b, base, k)
    requires j < |Fields(g, d)| && i <= |Fields(g, d)| && SameBeside(a, b, Fields(g, d)[j], base)
    requires MembersEncodable(g, d, a, base, k, i)
    requires Ready(g, Fields(g, d)[j], b, base, k) && FieldEncodable(g, Fields(g, d)[j], b, base, k)
    ensures MembersEncodable(g, d, b, base, k, i)
    decreases |Fields(g, d)| - i
  {
    if i < |Fields(g, d)| {
      var f := Fields(g, d)[i];
      FieldsReady(g, d, a, base, k, i);
      FieldsReady(g, d, b, base, k, i);
      if i != j {
        FieldEncodes(ops, g, f, a, base, k);
        FieldEncodes(ops, g, f, b, base, k);
        OtherFieldSame(ops, g, d, a, b, base, k, j, i);
      }
      MembersSpliced(ops, g, d, a, b, base, k, j, i + 1);
    }
  }

  // ------------------------------------------------------------ goals of decoding

  /** Decoding `members` should give the bytes of `want` at the positions in `touch`. */
  datatype Goal = Goal(members: seq<Member>, want: Bytes, touch: set<nat>)

  ghost predicate FieldMeets(ops: Floats, g: Graph, f: Field, goal: Goal, mem: Bytes, base: nat, k: nat)
    requires Ready(g, f, mem, base, k)
  {
    var (code, after) := FieldFromJson(ops, g, f, goal.members, mem, base, k);
    code == Ok && Agree(goal.want, after, goal.touch)
  }

  /** Whatever the memory, decoding one field cannot meet both goals. */
  ghost predicate FieldMeetsOne(ops: Floats, g: Graph, f: Field, a: Goal, b: Goal, n: nat, base: nat, k: nat) {
    forall mem: Bytes :: |mem| == n && Ready(g, f, mem, base, k) ==>
      !(FieldMeets(ops, g, f, a, mem, base, k) && FieldMeets(ops, g, f, b, mem, base, k))
  }

  ghost predicate FieldsMeet(ops: Floats, g: Graph, d: Ref, goal: Goal, mem: Bytes, base: nat, k: nat, i: nat)
    requires StructReady(g, d, mem, base, k) && i <= |Fields(g, d)|
  {
    var (code, out) := FieldsFromJson(ops, g, d, goal.members, mem, base, k, i);
    code == Ok && Agree(goal.want, out, goal.touch)
  }

  lemma {:induction false} FieldSeesLookup(
      ops: Floats, g: Graph, f: Field, a: seq<Member>, b: seq<Member>, mem: Bytes, base: nat, k: nat)
    requires Ready(g, f, mem, base, k)
    requires Ignored(f) || Lookup(a, JsonKey(f)) == Lookup(b, JsonKey(f))
    ensures FieldFromJson(ops, g, f, a, mem, base, k) == FieldFromJson(ops, g, f, b, mem, base, k)
  {
  }

  /** What the last field of a run achieves is not undone by the fields after it. */
  lemma {:induction false} MetByField(ops: Floats, g: Graph, d: Ref, goal: Goal, mem: Bytes, base: nat, k: nat, j: nat)
    requires Built.Ordered(g) && StructReady(g, d, mem, base, k) && j < |Fields(g, d)|
    requires var f := Fields(g, d)[j]; Between(goal.touch, base + f.offset, base + f.offset + Extent(f))
    requires FieldsMeet(ops, g, d, goal, mem, base, k, j)
    ensures Ready(g, Fields(g, d)[j], mem, base, k) && FieldMeets(ops, g, Fields(g, d)[j], goal, mem, base, k)
  {
    var f := Fields(g, d)[j];
    FieldsReady(g, d, mem, base, k, j);
    var (code, after) := FieldFromJson(ops, g, f, goal.members, mem, base, k);
    assert code == Ok;
    FieldsFrame(ops, g, d, goal.members, mem, after, base, k, j + 1);
    FieldsTouchFrom(g, d, mem, true, base, k, j + 1, base + f.offset + Extent(f));
  }

  lemma {:induction false} FieldsMeetOne(
      ops: Floats, g: Graph, d: Ref, a: Goal, b: Goal, mem: Bytes, base: nat, k: nat, j: nat, i: nat)
    requires Built.Ordered(g) && StructReady(g, d, mem, base, k) && i <= j < |Fields(g, d)|
    requires var f := Fields(g, d)[j];
      && Between(a.touch, base + f.offset, base + f.offset + Extent(f))
      && Between(b.touch, base + f.offset, base + f.offset + Extent(f))
    requires forall m :: 0 <= m < |Fields(g, d)| ==> Fields(g, d)[m].name.Some?
    requires forall m :: i <= m < j && !Ignored(Fields(g, d)[m]) ==>
      Lookup(a.members, JsonKey(Fields(g, d)[m])) == Lookup(b.members, JsonKey(Fields(g, d)[m]))
    requires FieldMeetsOne(ops, g, Fields(g, d)[j], a, b, |mem|, base, k)
    ensures !(FieldsMeet(ops, g, d, a, mem, base, k, i) && FieldsMeet(ops, g, d, b, mem, base, k, i))
    decreases j - i
  {
    FieldsReady(g, d, mem, base, k, i);
    if FieldsMeet(ops, g, d, a, mem, base, k, i) && FieldsMeet(ops, g, d, b, mem, base, k, i) {
      if i == j {
        MetByField(ops, g, d, a, mem, base, k, j);
        MetByField(ops, g, d, b, mem, base, k, j);
      } else {
        FieldSeesLookup(ops, g, Fields(g, d)[i], a.members, b.members, mem, base, k);
        var mid := FieldFromJson(ops, g, Fields(g, d)[i], a.members, mem, base, k).1;
        FieldsMeetOne(ops, g, d, a, b, mid, base, k, j, i + 1);
      }
    }
  }

  /** Decoding the JSON of src into mem succeeds and gives src its bytes back. */
  ghost predicate GivesBack(ops: Floats, g: Graph, d: Ref, src: Bytes, mem: Bytes, base: nat, k: nat)
    requires StructReady(g, d, src, base, k) && StructReady(g, d, mem, base, k)
    requires StructToJson(ops, g, d, src, base, k).Success?
  {
    var (code, out) := StructFromJson(ops, g, d, StructToJson(ops, g, d, src, base, k).value, mem, base, k);
    code == Ok && Agree(src, out, StructTouch(g, d, src, false, base, k))
  }

  /** Two encodable instances of which no memory can get both back. */
  ghost predicate Rivals(ops: Floats, g: Graph, d: Ref, a: Bytes, b: Bytes, base: nat, k: nat) {
    && StructReady(g, d, a, base, k) && StructReady(g, d, b, base, k) && |a| == |b|
    && StructToJson(ops, g, d, a, base, k).Success? && StructToJson(ops, g, d, b, base, k).Success?
    && forall mem: Bytes :: |mem| == |a| ==>
      !(GivesBack(ops, g, d, a, mem, base, k) && GivesBack(ops, g, d, b, mem, base, k))
  }

  /** The goal of field j in the round trip of src. */
  ghost function GoalOf(ops: Floats, g: Graph, d: Ref, src: Bytes, base: nat, k: nat, j: nat): Goal
    requires StructReady(g, d, src, base, k) && j < |Fields(g, d)|
    requires MembersToJson(ops, g, d, src, base, k, 0).Success?
  {
    FieldsReady(g, d, src, base, k, j);
    Goal(MembersToJson(ops, g, d, src, base, k, 0).value, src,
         ItemsTouch(g, Fields(g, d)[j], src, false, base, k, 0))
  }

  lemma {:induction false} GivenBackMeets(
      ops: Floats, g: Graph, d: Ref, src: Bytes, mem: Bytes, base: nat, k: nat, j: nat)
    requires StructReady(g, d, src, base, k) && StructReady(g, d, mem, base, k)
    requires j < |Fields(g, d)| && !Ignored(Fields(g, d)[j])
    requires StructToJson(ops, g, d, src, base, k).Success? && GivesBack(ops, g, d, src, mem, base, k)
    ensures FieldsMeet(ops, g, d, GoalOf(ops, g, d, src, base, k, j), mem, base, k, 0)
  {
    FieldTouchIncluded(g, d, src, false, base, k, 0, j);
  }

  lemma {:induction false} RivalsByField(ops: Floats, g: Graph, d: Ref, a: Bytes, b: Bytes, base: nat, k: nat, j: nat)
    requires Built.Ordered(g) && StructReady(g, d, a, base, k) && StructReady(g, d, b, base, k) && |a| == |b|
    requires StructToJson(ops, g, d, a, base, k).Success? && StructToJson(ops, g, d, b, base, k).Success?
    requires j < |Fields(g, d)| && !Ignored(Fields(g, d)[j]) && SameBeside(a, b, Fields(g, d)[j], base)
    requires FieldMeetsOne(ops, g, Fields(g, d)[j],
                           GoalOf(ops, g, d, a, base, k, j), GoalOf(ops, g, d, b, base, k, j), |a|, base, k)
    ensures Rivals(ops, g, d, a, b, base, k)
  {
    var goalA, goalB := GoalOf(ops, g, d, a, base, k, j), GoalOf(ops, g, d, b, base, k, j);
    FieldsReady(g, d, a, base, k, j);
    FieldsReady(g, d, b, base, k, j);
    ItemsTouchInside(g, Fields(g, d)[j], a, false, base, k, 0);
    ItemsTouchInside(g, Fields(g, d)[j], b, false, base, k, 0);
    forall m | 0 <= m < j && !Ignored(Fields(g, d)[m])
      ensures Lookup(goalA.members, JsonKey(Fields(g, d)[m])) == Lookup(goalB.members, JsonKey(Fields(g, d)[m]))
    {
      SameLookup(ops, g, d, a, b, base, k, j, m, m);
    }
    forall mem: Bytes | |mem| == |a|
      ensures !(GivesBack(ops, g, d, a, mem, base, k) && GivesBack(ops, g, d, b, mem, base, k))
    {
      if GivesBack(ops, g, d, a, mem, base, k) && GivesBack(ops, g, d, b, mem, base, k) {
        GivenBackMeets(ops, g, d, a, mem, base, k, j);
        GivenBackMeets(ops, g, d, b, mem, base, k, j);
        FieldsMeetOne(ops, g, d, goalA, goalB, mem, base, k, j, 0);
      }
    }
  }

  /** The first field with the key of field m. */
  lemma {:induction false} FirstOwner(fields: seq<Field>, m: nat) returns (q: nat)
    requires (forall p :: 0 <= p < |fields| ==> fields[p].name.Some?) && m < |fields| && !Ignored(fields[m])
    ensures q <= m && FirstWithKey(fields, 0, q) && JsonKey(fields[q]) == JsonKey(fields[m])
  {
    q := m;
    while !FirstWithKey(fields, 0, q)
      invariant q <= m && !Ignored(fields[q]) && JsonKey(fields[q]) == JsonKey(fields[m])
      decreases q
    {
      var p: nat :| p < q && !Ignored(fields[p]) && JsonKey(fields[p]) == JsonKey(fields[q]);
      q := p;
    }
  }

  /** A key owned by a field other than j has the same item when only field j changes. */
  lemma {:induction false} SameLookup(
      ops: Floats, g: Graph, d: Ref, a: Bytes, b: Bytes, base: nat, k: nat, j: nat, i: nat, m: nat)
    requires Built.Ordered(g) && StructReady(g, d, a, base, k) && StructReady(g, d, b, base, k)
    requires MembersToJson(ops, g, d, a, base, k, 0).Success? && MembersToJson(ops, g, d, b, base, k, 0).Success?
    requires i < j < |Fields(g, d)| && m < |Fields(g, d)| && SameBeside(a, b, Fields(g, d)[j], base)
    requires !Ignored(Fields(g, d)[i])
    requires Fields(g, d)[i].name.Some? && Fields(g, d)[m].name.Some?
    requires JsonKey(Fields(g, d)[i]) == JsonKey(Fields(g, d)[m])
    ensures Lookup(MembersToJson(ops, g, d, a, base, k, 0).value, JsonKey(Fields(g, d)[m]))
      == Lookup(MembersToJson(ops, g, d, b, base, k, 0).value, JsonKey(Fields(g, d)[m]))
  {
    var q := FirstOwner(Fields(g, d), i);
    MemberFound(ops, g, d, a, base, k, 0, q);
    MemberFound(ops, g, d, b, base, k, 0, q);
    OtherFieldSame(ops, g, d, a, b, base, k, j, q);
  }

  // ------------------------------------------------------------- a shared key

  /**
   Fields i < j share a key: two encodable instances that differ in a byte field j holds
   in both are never both given back, because field j is decoded from the item of another.
   */
  lemma {:induction false} SharedKeyRivals(
      ops: Floats, g: Graph, d: Ref, a: Bytes, b: Bytes, base: nat, k: nat, i: nat, j: nat, p: nat)
    requires Built.Ordered(g) && StructReady(g, d, a, base, k) && StructReady(g, d, b, base, k) && |a| == |b|
    requires StructEncodable(g, d, a, base, k) && StructEncodable(g, d, b, base, k)
    requires i < j < |Fields(g, d)| && !Ignored(Fields(g, d)[i]) && !Ignored(Fields(g, d)[j])
    requires Fields(g, d)[i].name.Some? && Fields(g, d)[j].name.Some?
    requires JsonKey(Fields(g, d)[i]) == JsonKey(Fields(g, d)[j]) && SameBeside(a, b, Fields(g, d)[j], base)
    requires Ready(g, Fields(g, d)[j], a, base, k) && Ready(g, Fields(g, d)[j], b, base, k)
    requires p in ItemsTouch(g, Fields(g, d)[j], a, false, base, k, 0)
    requires p in ItemsTouch(g, Fields(g, d)[j], b, false, base, k, 0)
    requires p < |a| && a[p] != b[p]
    ensures Rivals(ops, g, d, a, b, base, k)
  {
    StructEncodes(ops, g, d, a, base, k);
    StructEncodes(ops, g, d, b, base, k);
    var goalA, goalB := GoalOf(ops, g, d, a, base, k, j), GoalOf(ops, g, d, b, base, k, j);
    SameLookup(ops, g, d, a, b, base, k, j, i, j);
    forall mem: Bytes | |mem| == |a| && Ready(g, Fields(g, d)[j], mem, base, k)
      ensures !(FieldMeets(ops, g, Fields(g, d)[j], goalA, mem, base, k)
                && FieldMeets(ops, g, Fields(g, d)[j], goalB, mem, base, k))
    {
      FieldSeesLookup(ops, g, Fields(g, d)[j], goalA.members, goalB.members, mem, base, k);
    }
    RivalsByField(ops, g, d, a, b, base, k, j);
  }
}
