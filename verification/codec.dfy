/**
 The encoder and the decoder: loops over fields and elements that read, or update in
 place, the bytes of an instance, exactly as module Json says.
 */
module Codec {
  import opened Base
  import opened Memory
  import opened Meta
  import opened Integers
  import opened Json
  import Hex
  import JsonDecoding
  import JsonEncoding
  import JsonMeaning
  import Registry

  // ----------------------------------------------------------------- encoding

  method ScalarOut(ops: Floats, f: Field, mem: array<Byte>, at: nat) returns (r: Outcome<Json>)
    requires at + ElementExtent(f) <= mem.Length
    ensures r == ScalarToJson(ops, f, mem[..], at)
  {
    match f.kind {
      case SignedInteger =>
        var v := LoadSigned(mem[..], at, f.elementSize);
        if v.Failure? {
          return Failure(v.code);
        }
        return Success(Number(Some(v.value), ops.ofInteger(v.value)));
      case UnsignedInteger =>
        var v := LoadUnsigned(mem[..], at, f.elementSize);
        if v.Failure? {
          return Failure(v.code);
        }
        return Success(Number(Some(v.value), ops.ofInteger(v.value)));
      case Float =>
        if f.elementSize != 4 {
          return Failure(Unsupported);
        }
        return Success(Number(None, ops.widen(mem[..][at..at + 4])));
      case Double =>
        if f.elementSize != 8 {
          return Failure(Unsupported);
        }
        return Success(Number(None, mem[..][at..at + 8]));
      case CharArray =>
        var text := TextAt(mem[..][at..at + f.charBufferSize]);
        if text.None? {
          return Failure(InvalidEncoding);
        }
        return Success(Str(text.value));
      case _ =>
        return Failure(InvalidArgument);
    }
  }

  method ElementOut(ops: Floats, g: Graph, f: Field, mem: array<Byte>, base: nat, ghost k: nat, i: nat)
    returns (r: Outcome<Json>)
    requires Ready(g, f, mem[..], base, k) && i < f.elementCount
    ensures r == ElementToJson(ops, g, f, mem[..], base, k, i)
    decreases k, 0
  {
    ElementReady(g, f, mem[..], base, k, i);
    if f.kind.Struct? {
      r := StructOut(ops, g, f.nested.value, mem, At(f, base, i), k - 1);
    } else {
      r := ScalarOut(ops, f, mem, At(f, base, i));
    }
  }

  /** A byte array as one hexadecimal string. */
  method ByteArrayOut(f: Field, mem: array<Byte>, base: nat) returns (r: Outcome<Json>)
    requires IsByteArray(f) && At(f, base, f.elementCount) <= mem.Length
    ensures r ==
      match Hex.HexTextSize(f.elementCount)
      case Failure(code) => Failure(code)
      case Success(_) => Success(Str(Hex.HexText(mem[..][At(f, base, 0)..At(f, base, f.elementCount)])))
  {
    var size := Hex.HexTextSize(f.elementCount);
    if size.Failure? {
      return Failure(size.code);
    }
    var bytes := mem[..][At(f, base, 0)..At(f, base, f.elementCount)];
    var text := new char[size.value];
    var ret := Hex.ToHex(bytes, text);
    Hex.HexTextLength(bytes);
    assert text[..size.value - 1] == text[..size.value][..size.value - 1] == Hex.HexText(bytes);
    return Success(Str(text[..size.value - 1]));
  }

  method FieldOut(ops: Floats, g: Graph, f: Field, mem: array<Byte>, base: nat, ghost k: nat) returns (r: Outcome<Json>)
    requires Ready(g, f, mem[..], base, k)
    ensures r == FieldToJson(ops, g, f, mem[..], base, k)
    decreases k, 1
  {
    ElementReady(g, f, mem[..], base, k, f.elementCount - 1);
    var format := FieldByteFormat(f);
    assert format.Success?;  // on a validated field the error return is never taken
    if format.value.AsHex? {
      r := ByteArrayOut(f, mem, base);
      return;
    }
    if f.kind.CharArray? || f.elementCount <= 1 {
      r := ElementOut(ops, g, f, mem, base, k, 0);
      return;
    }
    var items: seq<Json> := [];
    var i := 0;
    PrependNothing(ItemsToJson(ops, g, f, mem[..], base, k, 0));
    while i < f.elementCount
      invariant 0 <= i <= f.elementCount
      invariant ItemsToJson(ops, g, f, mem[..], base, k, 0) ==
        Prepend(items, ItemsToJson(ops, g, f, mem[..], base, k, i))
    {
      var item := ElementOut(ops, g, f, mem, base, k, i);
      if item.Failure? {
        return Failure(item.code);
      }
      PrependMore(items, item.value, ItemsToJson(ops, g, f, mem[..], base, k, i + 1));
      items := items + [item.value];
      i := i + 1;
    }
    PrependedAll(items);
    return Success(Arr(items));
  }

  /** One round of the loop below, on the specification. */
  lemma {:induction false} MembersGrow(
      ops: Floats, g: Graph, d: Ref, mem: Bytes, base: nat, k: nat, i: nat, members: seq<Member>)
    requires StructReady(g, d, mem, base, k) && i < |Fields(g, d)|
    ensures Ready(g, Fields(g, d)[i], mem, base, k)
    ensures var f := Fields(g, d)[i];
      var later := MembersToJson(ops, g, d, mem, base, k, i + 1);
      Prepend(members, MembersToJson(ops, g, d, mem, base, k, i)) ==
      if Ignored(f) then Prepend(members, later)
      else match FieldToJson(ops, g, f, mem, base, k)
        case Failure(code) => Failure(code)
        case Success(item) => Prepend(members + [Member(JsonKey(f), item)], later)
  {
    var f := Fields(g, d)[i];
    FieldsReady(g, d, mem, base, k, i);
    if !Ignored(f) && FieldToJson(ops, g, f, mem, base, k).Success? {
      PrependMore(members, Member(JsonKey(f), FieldToJson(ops, g, f, mem, base, k).value),
                  MembersToJson(ops, g, d, mem, base, k, i + 1));
    }
  }

  lemma PrependMore<T>(items: seq<T>, item: T, rest: Outcome<seq<T>>)
    ensures Prepend(items, Prepend([item], rest)) == Prepend(items + [item], rest)
  {
    if rest.Success? {
      assert items + ([item] + rest.value) == items + [item] + rest.value;
    }
  }

  lemma PrependNothing<T>(rest: Outcome<seq<T>>)
    ensures Prepend([], rest) == rest
  {
    if rest.Success? {
      assert [] + rest.value == rest.value;
    }
  }

  lemma PrependedAll<T>(items: seq<T>)
    ensures Prepend(items, Success([])) == Success(items)
  {
    assert items + [] == items;
  }

  method StructOut(ops: Floats, g: Graph, d: Ref, mem: array<Byte>, base: nat, ghost k: nat) returns (r: Outcome<Json>)
    requires StructReady(g, d, mem[..], base, k)
    ensures r == StructToJson(ops, g, d, mem[..], base, k)
    decreases k, 2
  {
    hide FieldToJson;
    var fields := Fields(g, d);
    var members: seq<Member> := [];
    var i := 0;
    PrependNothing(MembersToJson(ops, g, d, mem[..], base, k, 0));
    while i < |fields|
      invariant 0 <= i <= |fields|
      invariant MembersToJson(ops, g, d, mem[..], base, k, 0) ==
        Prepend(members, MembersToJson(ops, g, d, mem[..], base, k, i))
    {
      MembersGrow(ops, g, d, mem[..], base, k, i, members);
      var ignore := FindAttribute(fields[i], "json.ignore");
      if ignore.None? {
        var item := FieldOut(ops, g, fields[i], mem, base, k);
        if item.Failure? {
          return Failure(item.code);
        }
        members := members + [Member(JsonKey(fields[i]), item.value)];
      }
      i := i + 1;
    }
    PrependedAll(members);
    return Success(Obj(members));
  }

  // ----------------------------------------------------------------- decoding

  method ScalarIn(ops: Floats, f: Field, item: Json, mem: array<Byte>, at: nat) returns (ret: Code)
    requires at + ElementExtent(f) <= mem.Length
    modifies mem
    ensures (ret, mem[..]) == ScalarFromJson(ops, f, item, old(mem[..]), at)
  {
    match f.kind {
      case SignedInteger =>
        if !item.Number? {
          return InvalidArgument;
        }
        if item.exact.None? || !(-0x8000_0000_0000_0000 <= item.exact.value <= 0x7FFF_FFFF_FFFF_FFFF) {
          return OutOfRange;
        }
        ret := StoreSigned(mem, at, f.elementSize, item.exact.value);
      case UnsignedInteger =>
        if !item.Number? {
          return InvalidArgument;
        }
        if item.exact.None? || !(0 <= item.exact.value <= 0xFFFF_FFFF_FFFF_FFFF) {
          return OutOfRange;
        }
        ret := StoreUnsigned(mem, at, f.elementSize, item.exact.value);
      case Float =>
        if f.elementSize != 4 || !item.Number? {
          return InvalidArgument;
        }
        Copy(mem, at, ops.narrow(item.double));
        return Ok;
      case Double =>
        if f.elementSize != 8 || !item.Number? {
          return InvalidArgument;
        }
        Copy(mem, at, item.double);
        return Ok;
      case CharArray =>
        if !item.Str? {
          return InvalidArgument;
        }
        if f.charBufferSize == 0 || |item.text| >= f.charBufferSize {
          return BufferTooSmall;
        }
        Copy(mem, at, TextBytes(item.text));
        return Ok;
      case _ =>
        return InvalidArgument;
    }
  }

  method ElementIn(ops: Floats, g: Graph, f: Field, item: Json, mem: array<Byte>, base: nat, ghost k: nat, i: nat)
    returns (ret: Code)
    requires Ready(g, f, mem[..], base, k) && i < f.elementCount
    modifies mem
    ensures (ret, mem[..]) == ElementFromJson(ops, g, f, item, old(mem[..]), base, k, i)
    decreases k, 0
  {
    ElementReady(g, f, mem[..], base, k, i);
    if f.kind.Struct? {
      ret := StructIn(ops, g, f.nested.value, item, mem, At(f, base, i), k - 1);
    } else {
      ret := ScalarIn(ops, f, item, mem, At(f, base, i));
    }
  }

  /** The items of an array field, in order, up to the first that is refused. */
  method ItemsIn(ops: Floats, g: Graph, f: Field, items: seq<Json>, mem: array<Byte>, base: nat, ghost k: nat)
    returns (ret: Code)
    requires Ready(g, f, mem[..], base, k) && f.elementCount <= |items|
    modifies mem
    ensures (ret, mem[..]) == ItemsFromJson(ops, g, f, items, old(mem[..]), base, k, 0)
    decreases k, 1
  {
    var i := 0;
    while i < f.elementCount
      invariant 0 <= i <= f.elementCount
      invariant ItemsFromJson(ops, g, f, items, old(mem[..]), base, k, 0) ==
        ItemsFromJson(ops, g, f, items, mem[..], base, k, i)
    {
      ret := ElementIn(ops, g, f, items[i], mem, base, k, i);
      if ret != Ok {
        return;
      }
      i := i + 1;
    }
    return Ok;
  }

  method FieldIn(ops: Floats, g: Graph, f: Field, members: seq<Member>, mem: array<Byte>, base: nat, ghost k: nat)
    returns (ret: Code)
    requires Ready(g, f, mem[..], base, k)
    modifies mem
    ensures (ret, mem[..]) == FieldFromJson(ops, g, f, members, old(mem[..]), base, k)
    decreases k, 2
  {
    ElementReady(g, f, mem[..], base, k, f.elementCount - 1);
    var ignore := FindAttribute(f, "json.ignore");
    if ignore.Some? {
      return Ok;
    }
    var found := Lookup(members, JsonKey(f));
    if found.None? {
      var required := FindAttribute(f, "json.required");
      return if required.Some? then MissingRequired else Ok;
    }
    var item := found.value;
    var format := FieldByteFormat(f);
    assert format.Success?;  // on a validated field the error return is never taken
    if format.value.AsHex? {
      if !item.Str? {
        return InvalidArgument;
      }
      ret := Hex.FromHex(mem, At(f, base, 0), f.elementCount, item.text);
    } else if f.kind.CharArray? || f.elementCount <= 1 {
      ret := ElementIn(ops, g, f, item, mem, base, k, 0);
    } else {
      if !item.Arr? {
        return InvalidArgument;
      }
      var size := ArraySize(item.items);
      if size < 0 || size != f.elementCount {
        return InvalidArgument;
      }
      ret := ItemsIn(ops, g, f, item.items, mem, base, k);
    }
  }

  method StructIn(ops: Floats, g: Graph, d: Ref, json: Json, mem: array<Byte>, base: nat, ghost k: nat)
    returns (ret: Code)
    requires StructReady(g, d, mem[..], base, k)
    modifies mem
    ensures (ret, mem[..]) == StructFromJson(ops, g, d, json, old(mem[..]), base, k)
    decreases k, 3
  {
    if !json.Obj? {
      return InvalidArgument;
    }
    var i := 0;
    while i < |Fields(g, d)|
      invariant 0 <= i <= |Fields(g, d)|
      invariant FieldsFromJson(ops, g, d, json.members, old(mem[..]), base, k, 0) ==
        FieldsFromJson(ops, g, d, json.members, mem[..], base, k, i)
    {
      FieldsReady(g, d, mem[..], base, k, i);
      ret := FieldIn(ops, g, Fields(g, d)[i], json.members, mem, base, k);
      if ret != Ok {
        return;
      }
      i := i + 1;
    }
    return Ok;
  }

  // -------------------------------------------------------------- entry points

  /** Encodes an instance that fills its descriptor's size; the registry is only a cache. */
  method Encode(index: Registry.Index, ops: Floats, d: Ref, mem: array<Byte>) returns (r: Outcome<Json>)
    requires index.Valid() && d < |index.graph| && index.graph[d].size <= mem.Length
    ensures r == if !Valid(index.graph, d) then Failure(CorruptDescriptor)
      else StructToJson(ops, index.graph, d, mem[..], 0, Depth(index.graph, d))
    ensures Valid(index.graph, d) ==>
      && JsonEncoding.Answers(r, JsonEncoding.StructFault(index.graph, d, mem[..], 0, Depth(index.graph, d)))
      && (r.Success? ==> JsonMeaning.StructMeans(ops, index.graph, d, r.value, mem[..], 0, Depth(index.graph, d)))
  {
    var ret := index.Validate(d);
    if ret != Ok {
      return Failure(ret);
    }
    r := StructOut(ops, index.graph, d, mem, 0, Depth(index.graph, d));
    JsonEncoding.StructAnswers(ops, index.graph, d, mem[..], 0, Depth(index.graph, d));
    if r.Success? {
      JsonMeaning.StructIsMeant(ops, index.graph, d, mem[..], 0, Depth(index.graph, d));
    }
  }

  method Decode(index: Registry.Index, ops: Floats, d: Ref, json: Json, mem: array<Byte>) returns (ret: Code)
    requires index.Valid() && d < |index.graph| && index.graph[d].size <= mem.Length
    modifies mem
    ensures (ret, mem[..]) == if !Valid(index.graph, d) then (CorruptDescriptor, old(mem[..]))
      else StructFromJson(ops, index.graph, d, json, old(mem[..]), 0, Depth(index.graph, d))
    ensures Valid(index.graph, d) ==>
      && (ret == Ok <==> JsonDecoding.StructAccepts(index.graph, d, json, Depth(index.graph, d)))
      && (ret != Ok ==> ret == JsonDecoding.StructRefusal(index.graph, d, json, Depth(index.graph, d)))
  {
    ret := index.Validate(d);
    if ret != Ok {
      return;
    }
    ghost var k := Depth(index.graph, d);
    JsonDecoding.StructAccepted(ops, index.graph, d, json, mem[..], 0, k);
    if !JsonDecoding.StructAccepts(index.graph, d, json, k) {
      JsonDecoding.StructRefused(ops, index.graph, d, json, mem[..], 0, k);
    }
    ret := StructIn(ops, index.graph, d, json, mem, 0, k);
  }
}
