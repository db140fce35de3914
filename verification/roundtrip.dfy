/**
 The round trip: encoding succeeds exactly when every leaf can be represented, and
 decoding the result into any other instance makes every field that is not ignored
 equal to the original and leaves everything else as it was.
 */
module RoundTrip {
  import opened Base
  import opened Memory
  import opened Meta
  import opened Integers
  import opened Json
  import opened DecodeFrame
  import Hex

  // ------------------------------------------------- when encoding succeeds

  ghost predicate ElementEncodable(g: Graph, f: Field, src: Bytes, base: nat, k: nat, i: nat)
    requires Ready(g, f, src, base, k) && i < f.elementCount
    decreases k, 0
  {
    ElementReady(g, f, src, base, k, i);
    match f.kind
    case Struct => StructEncodable(g, f.nested.value, src, At(f, base, i), k - 1)
    case Float => f.elementSize == 4
    case Double => f.elementSize == 8
    case CharArray => 0 in src[At(f, base, i)..At(f, base, i) + f.charBufferSize]
    case _ => true
  }

  ghost predicate ItemsEncodable(g: Graph, f: Field, src: Bytes, base: nat, k: nat, i: nat)
    requires Ready(g, f, src, base, k) && i <= f.elementCount
    decreases k, 1, f.elementCount - i
  {
    i == f.elementCount || (ElementEncodable(g, f, src, base, k, i) && ItemsEncodable(g, f, src, base, k, i + 1))
  }

  ghost predicate FieldEncodable(g: Graph, f: Field, src: Bytes, base: nat, k: nat)
    requires Ready(g, f, src, base, k)
    decreases k, 2, 0
  {
    if AsHexText(f) then f.elementCount <= (SIZE_MAX - 1) / 3 else ItemsEncodable(g, f, src, base, k, 0)
  }

  /** Char arrays hold a NUL and floating-point fields have the width of their type. */
  ghost predicate StructEncodable(g: Graph, d: Ref, src: Bytes, base: nat, k: nat)
    requires StructReady(g, d, src, base, k)
    decreases k, 4
  {
    MembersEncodable(g, d, src, base, k, 0)
  }

  /** From field i on, every field that is not ignored can be encoded. */
  ghost predicate MembersEncodable(g: Graph, d: Ref, src: Bytes, base: nat, k: nat, i: nat)
    requires StructReady(g, d, src, base, k) && i <= |Fields(g, d)|
    decreases k, 3, |Fields(g, d)| - i
  {
    i == |Fields(g, d)| || (
      FieldsReady(g, d, src, base, k, i);
      && (!Ignored(Fields(g, d)[i]) ==> FieldEncodable(g, Fields(g, d)[i], src, base, k))
      && MembersEncodable(g, d, src, base, k, i + 1))
  }

  lemma {:induction false} TextIffZero(bytes: Bytes)
    ensures TextAt(bytes).Some? <==> 0 in bytes
  {
    if bytes != [] {
      TextIffZero(bytes[1..]);
      assert bytes == [bytes[0]] + bytes[1..];
    }
  }

  lemma {:induction false} ElementEncodes(ops: Floats, g: Graph, f: Field, src: Bytes, base: nat, k: nat, i: nat)
    requires Ready(g, f, src, base, k) && i < f.elementCount
    ensures ElementToJson(ops, g, f, src, base, k, i).Success? <==> ElementEncodable(g, f, src, base, k, i)
    decreases k, 0
  {
    ElementReady(g, f, src, base, k, i);
    if f.kind.Struct? {
      StructEncodes(ops, g, f.nested.value, src, At(f, base, i), k - 1);
    } else if f.kind.CharArray? {
      TextIffZero(src[At(f, base, i)..At(f, base, i) + f.charBufferSize]);
    }
  }

  lemma {:induction false} ItemsEncode(ops: Floats, g: Graph, f: Field, src: Bytes, base: nat, k: nat, i: nat)
    requires Ready(g, f, src, base, k) && i <= f.elementCount
    ensures ItemsToJson(ops, g, f, src, base, k, i).Success? <==> ItemsEncodable(g, f, src, base, k, i)
    ensures ItemsToJson(ops, g, f, src, base, k, i).Success? ==>
      |ItemsToJson(ops, g, f, src, base, k, i).value| == f.elementCount - i
    decreases k, 1, f.elementCount - i
  {
    if i < f.elementCount {
      ElementEncodes(ops, g, f, src, base, k, i);
      ItemsEncode(ops, g, f, src, base, k, i + 1);
    }
  }

  lemma {:induction false} FieldEncodes(ops: Floats, g: Graph, f: Field, src: Bytes, base: nat, k: nat)
    requires Ready(g, f, src, base, k)
    ensures FieldToJson(ops, g, f, src, base, k).Success? <==> FieldEncodable(g, f, src, base, k)
    decreases k, 2, 0
  {
    if AsHexText(f) {
    } else if AsOneItem(f) {
      ElementEncodes(ops, g, f, src, base, k, 0);
      assert ItemsEncodable(g, f, src, base, k, 1);
    } else {
      ItemsEncode(ops, g, f, src, base, k, 0);
    }
  }

  lemma {:induction false} MembersEncode(ops: Floats, g: Graph, d: Ref, src: Bytes, base: nat, k: nat, i: nat)
    requires StructReady(g, d, src, base, k) && i <= |Fields(g, d)|
    ensures MembersToJson(ops, g, d, src, base, k, i).Success? <==> MembersEncodable(g, d, src, base, k, i)
    decreases k, 3, |Fields(g, d)| - i
  {
    if i < |Fields(g, d)| {
      FieldsReady(g, d, src, base, k, i);
      FieldEncodes(ops, g, Fields(g, d)[i], src, base, k);
      MembersEncode(ops, g, d, src, base, k, i + 1);
    }
  }

  /** Encoding an instance of a valid descriptor succeeds exactly when it is encodable. */
  lemma {:induction false} StructEncodes(ops: Floats, g: Graph, d: Ref, src: Bytes, base: nat, k: nat)
    requires StructReady(g, d, src, base, k)
    ensures StructToJson(ops, g, d, src, base, k).Success? <==> StructEncodable(g, d, src, base, k)
    decreases k, 4
  {
    MembersEncode(ops, g, d, src, base, k, 0);
  }

  // ------------------------------------------------------- what must be assumed

  ghost predicate KeysDistinct(fields: seq<Field>)
    requires forall i :: 0 <= i < |fields| ==> fields[i].name.Some?
  {
    forall i, j :: 0 <= i < j < |fields| && !Ignored(fields[i]) && !Ignored(fields[j]) ==>
      JsonKey(fields[i]) != JsonKey(fields[j])
  }

  ghost predicate ElementFaithful(ops: Floats, g: Graph, f: Field, src: Bytes, base: nat, k: nat, i: nat)
    requires Ready(g, f, src, base, k) && i < f.elementCount
    decreases k, 0
  {
    ElementReady(g, f, src, base, k, i);
    && (f.kind.Struct? ==> StructFaithful(ops, g, f.nested.value, src, At(f, base, i), k - 1))
    && (f.kind.Float? && f.elementSize == 4 ==>
        ops.narrow(ops.widen(src[At(f, base, i)..At(f, base, i) + 4])) == src[At(f, base, i)..At(f, base, i) + 4])
  }

  ghost predicate FieldFaithful(ops: Floats, g: Graph, f: Field, src: Bytes, base: nat, k: nat)
    requires Ready(g, f, src, base, k)
    decreases k, 1
  {
    && (AsHexText(f) || AsOneItem(f) || f.elementCount <= INT_MAX)
    && forall i :: 0 <= i < f.elementCount ==> ElementFaithful(ops, g, f, src, base, k, i)
  }

  /**
   The keys of each structure are distinct, array lengths fit int, and converting the
   instance's floats to double and back restores them.
   */
  ghost predicate StructFaithful(ops: Floats, g: Graph, d: Ref, src: Bytes, base: nat, k: nat)
    requires StructReady(g, d, src, base, k)
    decreases k, 2
  {
    && KeysDistinct(Fields(g, d))
    && forall i :: 0 <= i < |Fields(g, d)| && !Ignored(Fields(g, d)[i]) ==>
      (FieldsReady(g, d, src, base, k, i); FieldFaithful(ops, g, Fields(g, d)[i], src, base, k))
  }

  // ---------------------------------------------------------- the round trip

  /** `out` is `dst` with the bytes of `src` at the positions in s. */
  ghost predicate Merged(src: Bytes, dst: Bytes, out: Bytes, s: set<nat>) {
    && |out| == |dst|
    && forall p: nat :: p < |dst| ==> out[p] == if p in s && p < |src| then src[p] else dst[p]
  }

  lemma {:induction false} MergedTwice(src: Bytes, dst: Bytes, mid: Bytes, out: Bytes, s: set<nat>, t: set<nat>)
    requires Merged(src, dst, mid, s) && Merged(src, mid, out, t)
    ensures Merged(src, dst, out, s + t)
  {
  }

  lemma {:induction false} OverwriteMerges(src: Bytes, dst: Bytes, at: nat, n: nat)
    requires at + n <= |src| && at + n <= |dst|
    ensures Merged(src, dst, Overwrite(dst, at, src[at..at + n]), Range(at, n))
  {
  }

  lemma {:induction false} TextBytesOfText(bytes: Bytes)
    requires TextAt(bytes).Some?
    ensures |TextAt(bytes).value| < |bytes| && TextBytes(TextAt(bytes).value) == bytes[..|TextAt(bytes).value| + 1]
  {
    if bytes[0] != 0 {
      TextBytesOfText(bytes[1..]);
      var text := TextAt(bytes).value;
      assert text[1..] == TextAt(bytes[1..]).value;
      assert bytes[..|text| + 1] == [bytes[0]] + bytes[1..][..|text|];
    }
  }

  lemma {:induction false} TextRestored(ops: Floats, f: Field, src: Bytes, dst: Bytes, at: nat)
    requires f.kind.CharArray? && at + f.charBufferSize <= |src| && at + f.charBufferSize <= |dst|
    requires ScalarToJson(ops, f, src, at).Success?
    ensures var (code, out) := ScalarFromJson(ops, f, ScalarToJson(ops, f, src, at).value, dst, at);
      code == Ok && Merged(src, dst, out, Range(at, TextSpan(f, src, at)))
  {
    var buffer := src[at..at + f.charBufferSize];
    TextBytesOfText(buffer);
    var n := TextSpan(f, src, at);
    assert buffer[..n] == src[at..at + n];
    OverwriteMerges(src, dst, at, n);
  }

  lemma {:induction false} SignedRestored(ops: Floats, f: Field, src: Bytes, dst: Bytes, at: nat)
    requires f.kind.SignedInteger? && SupportedSize(f.elementSize)
    requires at + f.elementSize <= |src| && at + f.elementSize <= |dst|
    ensures ScalarToJson(ops, f, src, at).Success?
    ensures ScalarFromJson(ops, f, ScalarToJson(ops, f, src, at).value, dst, at)
      == (Ok, Overwrite(dst, at, src[at..at + f.elementSize]))
  {
    LoadedFits(src, at, f.elementSize);
    SignedWritesBack(src[at..at + f.elementSize]);
  }

  lemma {:induction false} UnsignedRestored(ops: Floats, f: Field, src: Bytes, dst: Bytes, at: nat)
    requires f.kind.UnsignedInteger? && SupportedSize(f.elementSize)
    requires at + f.elementSize <= |src| && at + f.elementSize <= |dst|
    ensures ScalarToJson(ops, f, src, at).Success?
    ensures ScalarFromJson(ops, f, ScalarToJson(ops, f, src, at).value, dst, at)
      == (Ok, Overwrite(dst, at, src[at..at + f.elementSize]))
  {
    LoadedFits(src, at, f.elementSize);
    UnsignedWritesBack(src[at..at + f.elementSize]);
    UnsignedInRange(src[at..at + f.elementSize]);
  }

  lemma {:induction false} ScalarRestored(ops: Floats, f: Field, src: Bytes, dst: Bytes, at: nat)
    requires ShapeOk(f) && !f.kind.CharArray? && !f.kind.Struct?
    requires at + f.elementSize <= |src| && at + f.elementSize <= |dst|
    requires ScalarToJson(ops, f, src, at).Success?
    requires f.kind.Float? ==> ops.narrow(ops.widen(src[at..at + 4])) == src[at..at + 4]
    ensures var (code, out) := ScalarFromJson(ops, f, ScalarToJson(ops, f, src, at).value, dst, at);
      code == Ok && Merged(src, dst, out, Range(at, f.elementSize))
  {
    OverwriteMerges(src, dst, at, f.elementSize);
    if f.kind.SignedInteger? {
      SignedRestored(ops, f, src, dst, at);
    } else if f.kind.UnsignedInteger? {
      UnsignedRestored(ops, f, src, dst, at);
    }
  }

  lemma {:induction false} ElementRestored(
      ops: Floats, g: Graph, f: Field, src: Bytes, dst: Bytes, base: nat, k: nat, i: nat)
    requires Ready(g, f, src, base, k) && Ready(g, f, dst, base, k) && i < f.elementCount
    requires ElementFaithful(ops, g, f, src, base, k, i) && ElementToJson(ops, g, f, src, base, k, i).Success?
    ensures var (code, out) := ElementFromJson(ops, g, f, ElementToJson(ops, g, f, src, base, k, i).value, dst, base, k, i);
      code == Ok && Merged(src, dst, out, ElementTouch(g, f, src, false, base, k, i))
    decreases k, 0
  {
    ElementReady(g, f, src, base, k, i);
    ElementReady(g, f, dst, base, k, i);
    if f.kind.Struct? {
      StructRestored(ops, g, f.nested.value, src, dst, At(f, base, i), k - 1);
    } else if f.kind.CharArray? {
      TextRestored(ops, f, src, dst, At(f, base, i));
    } else {
      ScalarRestored(ops, f, src, dst, At(f, base, i));
    }
  }

  lemma {:induction false} HeadAndRest<T>(items: seq<T>, i: nat, first: T, rest: seq<T>)
    requires i < |items| && items[i..] == [first] + rest
    ensures items[i] == first && items[i + 1..] == rest
  {
    assert items[i..][0] == first && items[i..][1..] == rest;
    assert items[i..][1..] == items[i + 1..];
  }

  lemma {:induction false} ItemsRestored(
      ops: Floats, g: Graph, f: Field, items: seq<Json>, src: Bytes, dst: Bytes, base: nat, k: nat, i: nat)
    requires Ready(g, f, src, base, k) && Ready(g, f, dst, base, k) && i <= f.elementCount == |items|
    requires FieldFaithful(ops, g, f, src, base, k)
    requires ItemsToJson(ops, g, f, src, base, k, i) == Success(items[i..])
    ensures var (code, out) := ItemsFromJson(ops, g, f, items, dst, base, k, i);
      code == Ok && Merged(src, dst, out, ItemsTouch(g, f, src, false, base, k, i))
    decreases k, 1, f.elementCount - i
  {
    if i < f.elementCount {
      ElementRestored(ops, g, f, src, dst, base, k, i);
      var item := ElementToJson(ops, g, f, src, base, k, i).value;
      var rest := ItemsToJson(ops, g, f, src, base, k, i + 1).value;
      HeadAndRest(items, i, item, rest);
      var mid := ElementFromJson(ops, g, f, item, dst, base, k, i).1;
      ItemsRestored(ops, g, f, items, src, mid, base, k, i + 1);
      var out := ItemsFromJson(ops, g, f, items, mid, base, k, i + 1).1;
      MergedTwice(src, dst, mid, out, ElementTouch(g, f, src, false, base, k, i),
                  ItemsTouch(g, f, src, false, base, k, i + 1));
    }
  }

  lemma {:induction false} HexReadsBack(bytes: Bytes, n: nat)
    requires |bytes| == n > 0
    ensures Hex.DecodeHex(Hex.HexText(bytes), n) == Some(bytes)
  {
    Hex.PrintedSpells(bytes);
    Hex.DecodesIffSpells(Hex.HexText(bytes), n, bytes);
  }

  lemma {:induction false} HexIsByteArray(f: Field, base: nat)
    requires AsHexText(f)
    ensures IsByteArray(f) && At(f, base, f.elementCount) == At(f, base, 0) + f.elementCount
    ensures At(f, base, f.elementCount) == base + f.offset + Extent(f)
  {
  }

  lemma {:induction false} HexMerged(g: Graph, f: Field, src: Bytes, dst: Bytes, base: nat, k: nat)
    requires Ready(g, f, src, base, k) && Ready(g, f, dst, base, k) && AsHexText(f)
    ensures At(f, base, f.elementCount) <= |src| && At(f, base, f.elementCount) <= |dst|
    ensures var at := At(f, base, 0);
      Merged(src, dst, Overwrite(dst, at, src[at..at + f.elementCount]), ItemsTouch(g, f, src, false, base, k, 0))
  {
    HexIsByteArray(f, base);
    ByteArrayTouch(g, f, src, false, base, k, 0);
    OverwriteMerges(src, dst, At(f, base, 0), f.elementCount);
  }

  lemma {:induction false} SingleItemTouch(g: Graph, f: Field, src: Bytes, base: nat, k: nat)
    requires Ready(g, f, src, base, k) && AsOneItem(f)
    ensures ItemsTouch(g, f, src, false, base, k, 0) == ElementTouch(g, f, src, false, base, k, 0)
  {
    assert f.elementCount == 1;
    assert ItemsTouch(g, f, src, false, base, k, 1) == {};
  }

  lemma {:induction false} FieldRestored(
      ops: Floats, g: Graph, f: Field, members: seq<Member>, src: Bytes, dst: Bytes, base: nat, k: nat)
    requires Ready(g, f, src, base, k) && Ready(g, f, dst, base, k) && !Ignored(f)
    requires FieldFaithful(ops, g, f, src, base, k) && FieldToJson(ops, g, f, src, base, k).Success?
    requires Lookup(members, JsonKey(f)) == Some(FieldToJson(ops, g, f, src, base, k).value)
    ensures var (code, out) := FieldFromJson(ops, g, f, members, dst, base, k);
      code == Ok && Merged(src, dst, out, ItemsTouch(g, f, src, false, base, k, 0))
    decreases k, 2
  {
    hide Merged, ElementToJson, ElementFromJson, ItemsToJson, ItemsFromJson, ItemsTouch;
    if AsHexText(f) {
      HexRestored(ops, g, f, members, src, dst, base, k);
    } else if AsOneItem(f) {
      ElementRestored(ops, g, f, src, dst, base, k, 0);
      SingleItemTouch(g, f, src, base, k);
    } else {
      var items := ItemsToJson(ops, g, f, src, base, k, 0).value;
      ItemsEncode(ops, g, f, src, base, k, 0);
      assert items[0..] == items;
      ItemsRestored(ops, g, f, items, src, dst, base, k, 0);
    }
  }

  lemma {:induction false} HexRestored(
      ops: Floats, g: Graph, f: Field, members: seq<Member>, src: Bytes, dst: Bytes, base: nat, k: nat)
    requires Ready(g, f, src, base, k) && Ready(g, f, dst, base, k) && !Ignored(f) && AsHexText(f)
    requires FieldToJson(ops, g, f, src, base, k).Success?
    requires Lookup(members, JsonKey(f)) == Some(FieldToJson(ops, g, f, src, base, k).value)
    ensures var (code, out) := FieldFromJson(ops, g, f, members, dst, base, k);
      code == Ok && Merged(src, dst, out, ItemsTouch(g, f, src, false, base, k, 0))
  {
    HexIsByteArray(f, base);
    HexMerged(g, f, src, dst, base, k);
    HexReadsBack(src[At(f, base, 0)..At(f, base, f.elementCount)], f.elementCount);
  }

  /** Field j is the first one from i on, not ignored, with its key. */
  ghost predicate FirstWithKey(fields: seq<Field>, i: nat, j: nat)
    requires forall p :: 0 <= p < |fields| ==> fields[p].name.Some?
    requires i <= j < |fields|
  {
    !Ignored(fields[j]) && forall p :: i <= p < j && !Ignored(fields[p]) ==> JsonKey(fields[p]) != JsonKey(fields[j])
  }

  lemma {:induction false} MembersSplit(ops: Floats, g: Graph, d: Ref, src: Bytes, base: nat, k: nat, i: nat)
    requires StructReady(g, d, src, base, k) && i < |Fields(g, d)|
    requires MembersToJson(ops, g, d, src, base, k, i).Success?
    ensures var f := Fields(g, d)[i];
      && Ready(g, f, src, base, k) && MembersToJson(ops, g, d, src, base, k, i + 1).Success?
      && (if Ignored(f) then MembersToJson(ops, g, d, src, base, k, i) == MembersToJson(ops, g, d, src, base, k, i + 1)
          else
            && FieldToJson(ops, g, f, src, base, k).Success?
            && MembersToJson(ops, g, d, src, base, k, i).value ==
               [Member(JsonKey(f), FieldToJson(ops, g, f, src, base, k).value)]
               + MembersToJson(ops, g, d, src, base, k, i + 1).value)
  {
    hide FieldToJson;
    FieldsReady(g, d, src, base, k, i);
  }

  lemma {:induction false} LookupInFront(key: CString, item: Json, rest: seq<Member>, wanted: CString)
    ensures Lookup([Member(key, item)] + rest, wanted) == if key == wanted then Some(item) else Lookup(rest, wanted)
  {
    assert ([Member(key, item)] + rest)[1..] == rest;
  }

  /**
   A key is looked up as the item of the first field that has it: with distinct keys each
   field finds its own item again, otherwise the later ones are shadowed.
   */
  lemma {:induction false} MemberFound(ops: Floats, g: Graph, d: Ref, src: Bytes, base: nat, k: nat, i: nat, j: nat)
    requires StructReady(g, d, src, base, k) && i <= j < |Fields(g, d)|
    requires FirstWithKey(Fields(g, d), i, j)
    requires MembersToJson(ops, g, d, src, base, k, i).Success?
    ensures Ready(g, Fields(g, d)[j], src, base, k)
    ensures FieldToJson(ops, g, Fields(g, d)[j], src, base, k).Success?
    ensures Lookup(MembersToJson(ops, g, d, src, base, k, i).value, JsonKey(Fields(g, d)[j]))
      == Some(FieldToJson(ops, g, Fields(g, d)[j], src, base, k).value)
    decreases j - i
  {
    hide MembersToJson, FieldToJson, Lookup;
    MembersSplit(ops, g, d, src, base, k, i);
    if i < j {
      MemberFound(ops, g, d, src, base, k, i + 1, j);
    }
    if !Ignored(Fields(g, d)[i]) {
      var rest := MembersToJson(ops, g, d, src, base, k, i + 1).value;
      LookupInFront(JsonKey(Fields(g, d)[i]), FieldToJson(ops, g, Fields(g, d)[i], src, base, k).value, rest,
                    JsonKey(Fields(g, d)[j]));
    }
  }

  lemma {:induction false} FieldsRestored(
      ops: Floats, g: Graph, d: Ref, src: Bytes, dst: Bytes, base: nat, k: nat, i: nat)
    requires StructReady(g, d, src, base, k) && StructReady(g, d, dst, base, k) && i <= |Fields(g, d)|
    requires StructFaithful(ops, g, d, src, base, k) && MembersToJson(ops, g, d, src, base, k, 0).Success?
    ensures var members := MembersToJson(ops, g, d, src, base, k, 0).value;
      var (code, out) := FieldsFromJson(ops, g, d, members, dst, base, k, i);
      code == Ok && Merged(src, dst, out, FieldsTouch(g, d, src, false, base, k, i))
    decreases k, 3, |Fields(g, d)| - i
  {
    hide ItemsTouch, ItemsToJson, ElementToJson, FieldToJson, FieldFaithful;
    if i < |Fields(g, d)| {
      var f := Fields(g, d)[i];
      var members := MembersToJson(ops, g, d, src, base, k, 0).value;
      FieldsReady(g, d, src, base, k, i);
      FieldsReady(g, d, dst, base, k, i);
      var touched := {};
      if !Ignored(f) {
        assert FirstWithKey(Fields(g, d), 0, i);
        MemberFound(ops, g, d, src, base, k, 0, i);
        FieldRestored(ops, g, f, members, src, dst, base, k);
        touched := ItemsTouch(g, f, src, false, base, k, 0);
      }
      var mid := FieldFromJson(ops, g, f, members, dst, base, k).1;
      FieldsRestored(ops, g, d, src, mid, base, k, i + 1);
      var out := FieldsFromJson(ops, g, d, members, mid, base, k, i + 1).1;
      MergedTwice(src, dst, mid, out, touched, FieldsTouch(g, d, src, false, base, k, i + 1));
    }
  }

  /**
   Decoding an encoded instance into any other instance succeeds; the result holds the
   original's bytes wherever a field that is not ignored has one, and is otherwise unchanged.
   */
  lemma {:induction false} StructRestored(ops: Floats, g: Graph, d: Ref, src: Bytes, dst: Bytes, base: nat, k: nat)
    requires StructReady(g, d, src, base, k) && StructReady(g, d, dst, base, k)
    requires StructFaithful(ops, g, d, src, base, k) && StructToJson(ops, g, d, src, base, k).Success?
    ensures var (code, out) := StructFromJson(ops, g, d, StructToJson(ops, g, d, src, base, k).value, dst, base, k);
      code == Ok && Merged(src, dst, out, StructTouch(g, d, src, false, base, k))
    decreases k, 4
  {
    FieldsRestored(ops, g, d, src, dst, base, k, 0);
  }

  /** A one-byte field named a. */
  ghost function ByteField(offset: Size): Field {
    Field(Some("a"), UnsignedInteger, offset, 1, 1, 0, None, NullTable(0))
  }

  /** A structure with two such fields. */
  ghost function TwoFieldsOneName(): Graph {
    [Descriptor(Some("s"), 2, Rows([ByteField(0), ByteField(1)]), NullTable(0))]
  }

  lemma {:induction false} SharedKeyReady(mem: Bytes)
    requires |mem| == 2
    ensures StructReady(TwoFieldsOneName(), 0, mem, 0, 0)
  {
    var g := TwoFieldsOneName();
    assert Fields(g, 0) == [ByteField(0), ByteField(1)];
    assert FieldOk(g, ByteField(0), 2) && FieldOk(g, ByteField(1), 2);
  }

  lemma {:induction false} ByteConverted(ops: Floats, g: Graph, offset: Size, src: Bytes)
    requires Ready(g, ByteField(offset), src, 0, 0)
    ensures FieldToJson(ops, g, ByteField(offset), src, 0, 0)
      == Success(Number(Some(src[offset]), ops.ofInteger(src[offset])))
  {
    var f := ByteField(offset);
    assert AttributeOf(f, "meta.kind") == None && AttributeOf(f, "meta.format") == None;
    assert src[At(f, 0, 0)..At(f, 0, 0) + 1] == [src[offset]];
    assert Unsigned([src[offset]]) == src[offset] + 256 * Unsigned([src[offset]][1..]);
  }

  lemma {:induction false} ByteStored(ops: Floats, g: Graph, offset: Size, members: seq<Member>, value: Byte, dst: Bytes)
    requires Ready(g, ByteField(offset), dst, 0, 0)
    requires Lookup(members, "a") == Some(Number(Some(value), ops.ofInteger(value)))
    ensures FieldFromJson(ops, g, ByteField(offset), members, dst, 0, 0) == (Ok, Overwrite(dst, offset, [value]))
  {
    var f := ByteField(offset);
    assert AttributeOf(f, "json.name") == None && AttributeOf(f, "json.ignore") == None;
    assert AttributeOf(f, "meta.kind") == None && AttributeOf(f, "meta.format") == None;
    assert Span(1) == 256 * Span(0);
    assert UnsignedBytes(1, value) == [value];
    assert StoreUnsignedTo(dst, offset, 1, value) == (Ok, Overwrite(dst, offset, [value]));
    assert JsonKey(f) == "a" && AsOneItem(f) && !AsHexText(f) && At(f, 0, 0) == offset;
  }

  /** When two fields share a key, both get the value of the first. */
  lemma {:induction false} SharedKeyLosesAValue(ops: Floats, src: Bytes, dst: Bytes)
    requires |src| == 2 && |dst| == 2
    ensures var g := TwoFieldsOneName();
      && StructReady(g, 0, src, 0, 0) && StructReady(g, 0, dst, 0, 0)
      && StructToJson(ops, g, 0, src, 0, 0).Success?
      && StructFromJson(ops, g, 0, StructToJson(ops, g, 0, src, 0, 0).value, dst, 0, 0) == (Ok, [src[0], src[0]])
  {
    var g := TwoFieldsOneName();
    SharedKeyReady(src);
    SharedKeyReady(dst);
    SharedKeyMembers(ops, g, src);
    SharedKeyFields(ops, g, MembersToJson(ops, g, 0, src, 0, 0, 0).value, src[0], dst);
  }

  lemma {:induction false} SharedKeyMembers(ops: Floats, g: Graph, src: Bytes)
    requires g == TwoFieldsOneName() && StructReady(g, 0, src, 0, 0)
    ensures MembersToJson(ops, g, 0, src, 0, 0, 0).Success?
    ensures Lookup(MembersToJson(ops, g, 0, src, 0, 0, 0).value, "a")
      == Some(Number(Some(src[0]), ops.ofInteger(src[0])))
  {
    assert Fields(g, 0) == [ByteField(0), ByteField(1)];
    FieldsReady(g, 0, src, 0, 0, 0);
    FieldsReady(g, 0, src, 0, 0, 1);
    ByteConverted(ops, g, 0, src);
    ByteConverted(ops, g, 1, src);
    assert !Ignored(ByteField(0)) && !Ignored(ByteField(1)) && JsonKey(ByteField(0)) == "a";
    assert MembersToJson(ops, g, 0, src, 0, 0, 2) == Success([]);
    assert MembersToJson(ops, g, 0, src, 0, 0, 1).Success?;
  }

  lemma {:induction false} SharedKeyFields(ops: Floats, g: Graph, members: seq<Member>, value: Byte, dst: Bytes)
    requires g == TwoFieldsOneName() && StructReady(g, 0, dst, 0, 0) && |dst| == 2
    requires Lookup(members, "a") == Some(Number(Some(value), ops.ofInteger(value)))
    ensures FieldsFromJson(ops, g, 0, members, dst, 0, 0, 0) == (Ok, [value, value])
  {
    assert Fields(g, 0) == [ByteField(0), ByteField(1)];
    FieldsReady(g, 0, dst, 0, 0, 0);
    ByteStored(ops, g, 0, members, value, dst);
    var mid := Overwrite(dst, 0, [value]);
    SharedKeyReady(mid);
    FieldsReady(g, 0, mid, 0, 0, 1);
    ByteStored(ops, g, 1, members, value, mid);
    assert Overwrite(mid, 1, [value]) == [value, value];
    assert FieldsFromJson(ops, g, 0, members, [value, value], 0, 0, 2) == (Ok, [value, value]);
  }

  /** An array too long for cJSON's int-valued length is refused whatever its items are. */
  lemma {:induction false} LongArrayRefused(
      ops: Floats, g: Graph, f: Field, members: seq<Member>, mem: Bytes, base: nat, k: nat)
    requires Ready(g, f, mem, base, k) && !Ignored(f) && !AsHexText(f) && f.elementCount > INT_MAX
    requires Lookup(members, JsonKey(f)).Some?
    ensures FieldFromJson(ops, g, f, members, mem, base, k) == (InvalidArgument, mem)
  {
  }

  // ------------------------------------------- encoding sees only those bytes

  ghost predicate Agree(a: Bytes, b: Bytes, s: set<nat>) {
    |a| == |b| && forall p: nat :: p in s && p < |a| ==> a[p] == b[p]
  }

  lemma {:induction false} SameText(a: Bytes, b: Bytes)
    requires |a| == |b| && TextAt(a).Some?
    requires forall p :: 0 <= p <= |TextAt(a).value| && p < |a| ==> a[p] == b[p]
    ensures TextAt(b) == TextAt(a)
  {
    TextFits(a);
    if a[0] != 0 {
      SameText(a[1..], b[1..]);
    }
  }

  lemma {:induction false} ScalarSeesRange(ops: Floats, f: Field, a: Bytes, b: Bytes, at: nat)
    requires ShapeOk(f) && !f.kind.Struct? && at + ElementExtent(f) <= |a| == |b|
    requires ScalarToJson(ops, f, a, at).Success?
    requires Agree(a, b, Range(at, if f.kind.CharArray? then TextSpan(f, a, at) else f.elementSize))
    ensures ScalarToJson(ops, f, b, at) == ScalarToJson(ops, f, a, at)
  {
    if f.kind.CharArray? {
      SameText(a[at..at + f.charBufferSize], b[at..at + f.charBufferSize]);
    } else {
      assert a[at..at + f.elementSize] == b[at..at + f.elementSize];
    }
  }

  lemma {:induction false} ElementSeesTouch(ops: Floats, g: Graph, f: Field, a: Bytes, b: Bytes, base: nat, k: nat, i: nat)
    requires Ready(g, f, a, base, k) && Ready(g, f, b, base, k) && i < f.elementCount
    requires ElementToJson(ops, g, f, a, base, k, i).Success?
    requires Agree(a, b, ElementTouch(g, f, a, false, base, k, i))
    ensures ElementToJson(ops, g, f, b, base, k, i) == ElementToJson(ops, g, f, a, base, k, i)
    decreases k, 0
  {
    ElementReady(g, f, a, base, k, i);
    if f.kind.Struct? {
      StructSeesTouch(ops, g, f.nested.value, a, b, At(f, base, i), k - 1);
    } else {
      ScalarSeesRange(ops, f, a, b, At(f, base, i));
    }
  }

  lemma {:induction false} ItemsSeeTouch(ops: Floats, g: Graph, f: Field, a: Bytes, b: Bytes, base: nat, k: nat, i: nat)
    requires Ready(g, f, a, base, k) && Ready(g, f, b, base, k) && i <= f.elementCount
    requires ItemsToJson(ops, g, f, a, base, k, i).Success?
    requires Agree(a, b, ItemsTouch(g, f, a, false, base, k, i))
    ensures ItemsToJson(ops, g, f, b, base, k, i) == ItemsToJson(ops, g, f, a, base, k, i)
    decreases k, 1, f.elementCount - i
  {
    if i < f.elementCount {
      ElementSeesTouch(ops, g, f, a, b, base, k, i);
      ItemsSeeTouch(ops, g, f, a, b, base, k, i + 1);
    }
  }

  lemma {:induction false} FieldSeesTouch(ops: Floats, g: Graph, f: Field, a: Bytes, b: Bytes, base: nat, k: nat)
    requires Ready(g, f, a, base, k) && Ready(g, f, b, base, k)
    requires FieldToJson(ops, g, f, a, base, k).Success?
    requires Agree(a, b, ItemsTouch(g, f, a, false, base, k, 0))
    ensures FieldToJson(ops, g, f, b, base, k) == FieldToJson(ops, g, f, a, base, k)
    decreases k, 2
  {
    if AsHexText(f) {
      HexIsByteArray(f, base);
      ByteArrayTouch(g, f, a, false, base, k, 0);
      assert a[At(f, base, 0)..At(f, base, f.elementCount)] == b[At(f, base, 0)..At(f, base, f.elementCount)];
    } else if AsOneItem(f) {
      SingleItemTouch(g, f, a, base, k);
      ElementSeesTouch(ops, g, f, a, b, base, k, 0);
    } else {
      ItemsSeeTouch(ops, g, f, a, b, base, k, 0);
    }
  }

  lemma {:induction false} MembersSeeTouch(ops: Floats, g: Graph, d: Ref, a: Bytes, b: Bytes, base: nat, k: nat, i: nat)
    requires StructReady(g, d, a, base, k) && StructReady(g, d, b, base, k) && i <= |Fields(g, d)|
    requires MembersToJson(ops, g, d, a, base, k, i).Success?
    requires Agree(a, b, FieldsTouch(g, d, a, false, base, k, i))
    ensures MembersToJson(ops, g, d, b, base, k, i) == MembersToJson(ops, g, d, a, base, k, i)
    decreases k, 3, |Fields(g, d)| - i
  {
    if i < |Fields(g, d)| {
      FieldsReady(g, d, a, base, k, i);
      FieldsReady(g, d, b, base, k, i);
      if !Ignored(Fields(g, d)[i]) {
        FieldSeesTouch(ops, g, Fields(g, d)[i], a, b, base, k);
      }
      MembersSeeTouch(ops, g, d, a, b, base, k, i + 1);
    }
  }

  lemma {:induction false} StructSeesTouch(ops: Floats, g: Graph, d: Ref, a: Bytes, b: Bytes, base: nat, k: nat)
    requires StructReady(g, d, a, base, k) && StructReady(g, d, b, base, k)
    requires StructToJson(ops, g, d, a, base, k).Success?
    requires Agree(a, b, StructTouch(g, d, a, false, base, k))
    ensures StructToJson(ops, g, d, b, base, k) == StructToJson(ops, g, d, a, base, k)
    decreases k, 4
  {
    MembersSeeTouch(ops, g, d, a, b, base, k, 0);
  }

  /**
   The round trip as a whole: encode, decode into any instance of the same size, encode
   again. The decoding succeeds and the second tree equals the first.
   */
  lemma {:induction false} ReencodingIsIdentical(ops: Floats, g: Graph, d: Ref, src: Bytes, dst: Bytes, base: nat, k: nat)
    requires StructReady(g, d, src, base, k) && |dst| == |src|
    requires StructEncodable(g, d, src, base, k) && StructFaithful(ops, g, d, src, base, k)
    ensures StructToJson(ops, g, d, src, base, k).Success?
    ensures var json := StructToJson(ops, g, d, src, base, k).value;
      var (code, out) := StructFromJson(ops, g, d, json, dst, base, k);
      code == Ok && StructToJson(ops, g, d, out, base, k) == Success(json)
  {
    StructEncodes(ops, g, d, src, base, k);
    StructRestored(ops, g, d, src, dst, base, k);
    var out := StructFromJson(ops, g, d, StructToJson(ops, g, d, src, base, k).value, dst, base, k).1;
    StructSeesTouch(ops, g, d, src, out, base, k);
  }
}
