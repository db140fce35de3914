/**
 When an instance has no JSON form and with which code it is refused: the first field that
 has none decides, told by attributes and bytes.
 */
module JsonEncoding {
  import opened Base
  import opened Memory
  import opened Meta
  import opened Json
  import opened JsonMeaning
  import opened RoundTrip
  import Hex

  /** A text needs a NUL in its buffer, a floating-point number its width. */
  ghost function ScalarFault(f: Field, src: Bytes, at: nat): Option<Code>
    requires at + ElementExtent(f) <= |src|
  {
    match f.kind
    case Float => if f.elementSize == 4 then None else Some(Unsupported)
    case Double => if f.elementSize == 8 then None else Some(Unsupported)
    case CharArray =>
      if exists c :: at <= c < at + f.charBufferSize && src[c] == 0 then None else Some(InvalidEncoding)
    case _ => None
  }

  ghost function ElementFault(g: Graph, f: Field, src: Bytes, base: nat, k: nat, i: nat): Option<Code>
    requires Ready(g, f, src, base, k) && i < f.elementCount
    decreases k, 0
  {
    ElementReady(g, f, src, base, k, i);
    var at := base + f.offset + i * f.elementSize;
    if f.kind.Struct? then StructFault(g, f.nested.value, src, at, k - 1) else ScalarFault(f, src, at)
  }

  ghost function ItemsFault(g: Graph, f: Field, src: Bytes, base: nat, k: nat, i: nat): Option<Code>
    requires Ready(g, f, src, base, k) && i <= f.elementCount
    decreases k, 1, f.elementCount - i
  {
    if i == f.elementCount then None
    else
      match ElementFault(g, f, src, base, k, i)
      case Some(code) => Some(code)
      case None => ItemsFault(g, f, src, base, k, i + 1)
  }

  /** Hex text of the array and its terminator must fit size_t. */
  ghost function FieldFault(g: Graph, f: Field, src: Bytes, base: nat, k: nat): Option<Code>
    requires Ready(g, f, src, base, k)
    decreases k, 2
  {
    if HasAttribute(f, "meta.format") then if 3 * f.elementCount < SIZE_MAX then None else Some(OutOfRange)
    else if f.kind.CharArray? || f.elementCount == 1 then ElementFault(g, f, src, base, k, 0)
    else ItemsFault(g, f, src, base, k, 0)
  }

  ghost function FieldsFault(g: Graph, d: Ref, src: Bytes, base: nat, k: nat, i: nat): Option<Code>
    requires StructReady(g, d, src, base, k) && i <= |Fields(g, d)|
    decreases k, 3, |Fields(g, d)| - i
  {
    if i == |Fields(g, d)| then None
    else
      FieldsReady(g, d, src, base, k, i);
      var f := Fields(g, d)[i];
      if HasAttribute(f, "json.ignore") then FieldsFault(g, d, src, base, k, i + 1)
      else
        match FieldFault(g, f, src, base, k)
        case Some(code) => Some(code)
        case None => FieldsFault(g, d, src, base, k, i + 1)
  }

  ghost function StructFault(g: Graph, d: Ref, src: Bytes, base: nat, k: nat): Option<Code>
    requires StructReady(g, d, src, base, k)
    decreases k, 4
  {
    FieldsFault(g, d, src, base, k, 0)
  }

  /** An encoding and the fault that stands in its way, if there is one. */
  ghost predicate Answers<T>(r: Outcome<T>, fault: Option<Code>) {
    match fault
    case None => r.Success?
    case Some(code) => r.Failure? && r.code == code
  }

  lemma {:induction false} ScalarAnswers(ops: Floats, f: Field, src: Bytes, at: nat)
    requires ShapeOk(f) && !f.kind.Struct? && at + ElementExtent(f) <= |src|
    ensures Answers(ScalarToJson(ops, f, src, at), ScalarFault(f, src, at))
  {
    if f.kind.CharArray? {
      var buffer := src[at..at + f.charBufferSize];
      TextIffZero(buffer);
      assert forall c :: 0 <= c < |buffer| ==> buffer[c] == src[at + c];
      assert forall c :: at <= c < at + |buffer| ==> src[c] == buffer[c - at];
    }
  }

  lemma {:induction false} ElementAnswers(ops: Floats, g: Graph, f: Field, src: Bytes, base: nat, k: nat, i: nat)
    requires Ready(g, f, src, base, k) && i < f.elementCount
    ensures Answers(ElementToJson(ops, g, f, src, base, k, i), ElementFault(g, f, src, base, k, i))
    decreases k, 0
  {
    ElementReady(g, f, src, base, k, i);
    if f.kind.Struct? {
      StructAnswers(ops, g, f.nested.value, src, At(f, base, i), k - 1);
    } else {
      ScalarAnswers(ops, f, src, At(f, base, i));
    }
  }

  lemma {:induction false} ItemsAnswer(ops: Floats, g: Graph, f: Field, src: Bytes, base: nat, k: nat, i: nat)
    requires Ready(g, f, src, base, k) && i <= f.elementCount
    ensures Answers(ItemsToJson(ops, g, f, src, base, k, i), ItemsFault(g, f, src, base, k, i))
    decreases k, 1, f.elementCount - i
  {
    hide ElementToJson, ElementFault;
    if i < f.elementCount {
      ElementAnswers(ops, g, f, src, base, k, i);
      ItemsAnswer(ops, g, f, src, base, k, i + 1);
    }
  }

  lemma {:induction false} FieldAnswers(ops: Floats, g: Graph, f: Field, src: Bytes, base: nat, k: nat)
    requires Ready(g, f, src, base, k)
    ensures Answers(FieldToJson(ops, g, f, src, base, k), FieldFault(g, f, src, base, k))
    decreases k, 2
  {
    hide ElementToJson, ElementFault, ItemsToJson, ItemsFault;
    FormatMeans(f);
    if AsHexText(f) {
      Hex.TextSizeMeans(f.elementCount);
    } else if AsOneItem(f) {
      ElementAnswers(ops, g, f, src, base, k, 0);
    } else {
      ItemsAnswer(ops, g, f, src, base, k, 0);
    }
  }

  lemma {:induction false} MembersAnswer(ops: Floats, g: Graph, d: Ref, src: Bytes, base: nat, k: nat, i: nat)
    requires StructReady(g, d, src, base, k) && i <= |Fields(g, d)|
    ensures Answers(MembersToJson(ops, g, d, src, base, k, i), FieldsFault(g, d, src, base, k, i))
    decreases k, 3, |Fields(g, d)| - i
  {
    hide FieldToJson, FieldFault;
    if i < |Fields(g, d)| {
      var f := Fields(g, d)[i];
      FieldsReady(g, d, src, base, k, i);
      MembersAnswer(ops, g, d, src, base, k, i + 1);
      FlagsMean(f);
      FieldAnswers(ops, g, f, src, base, k);
    }
  }

  /** Encoding succeeds exactly when no field stands in its way, and otherwise the first that does gives the code. */
  lemma {:induction false} StructAnswers(ops: Floats, g: Graph, d: Ref, src: Bytes, base: nat, k: nat)
    requires StructReady(g, d, src, base, k)
    ensures Answers(StructToJson(ops, g, d, src, base, k), StructFault(g, d, src, base, k))
    decreases k, 4
  {
    MembersAnswer(ops, g, d, src, base, k, 0);
  }
}
