/**
 The parsed header, and the ideal layout it stands for: the layout over unbounded
 integers of every struct whose nesting is well founded.
 */
module Ast {
  import opened Base
  import opened Arithmetic
  import opened Meta
  import opened Layout
  import Digraph

  type Long = n: int | -0x8000_0000_0000_0000 <= n <= 0x7FFF_FFFF_FFFF_FFFF

  datatype AstAttribute = AstAttribute(key: CString, value: Option<CString>)

  datatype AstField = AstField(
    name: CString,
    typeName: CString,
    isStruct: bool,
    arrayCount: Long,
    attributes: seq<AstAttribute>)

  datatype AstStruct = AstStruct(name: CString, fields: seq<AstField>, attributes: seq<AstAttribute>)

  /** The structs of a header in source order. */
  type Header = seq<AstStruct>

  /** The first attribute with the given key. */
  function FirstOf(attributes: seq<AstAttribute>, key: CString): (r: Option<AstAttribute>)
    ensures r.Some? ==> r.value in attributes && r.value.key == key
  {
    if attributes == [] then None
    else if attributes[0].key == key then Some(attributes[0])
    else FirstOf(attributes[1..], key)
  }

  predicate DeclaredByteArray(f: AstField) {
    && f.arrayCount > 0
    && (ExplicitByteType(f.typeName) ||
        (f.typeName == "char" &&
         var kind := FirstOf(f.attributes, "meta.kind");
         kind.Some? && kind.value.value == Some("bytes")))
  }

  /** meta.kind and meta.format, where present, are spelled correctly and stand on a byte array. */
  predicate MetaLegal(f: AstField) {
    var kind := FirstOf(f.attributes, "meta.kind");
    var format := FirstOf(f.attributes, "meta.format");
    && (kind.Some? ==> kind.value.value == Some("bytes") && DeclaredByteArray(f))
    && (format.Some? ==> format.value.value == Some("hex") && DeclaredByteArray(f))
  }

  function DeclaredCount(f: AstField): Size {
    if f.arrayCount > 0 then f.arrayCount else 1
  }

  /** The first struct with the given name. */
  function FirstStruct(header: Header, name: CString): (r: Option<nat>)
    ensures r.None? <==> forall i :: 0 <= i < |header| ==> header[i].name != name
    ensures r.Some? ==> r.value < |header| && header[r.value].name == name
    ensures r.Some? ==> forall i :: 0 <= i < r.value ==> header[i].name != name
  {
    if header == [] then None
    else
      var n := |header| - 1;
      var before := FirstStruct(header[..n], name);
      if before.Some? then before else if header[n].name == name then Some(n) else None
  }

  predicate Resolves(header: Header, f: AstField) {
    if f.isStruct then FirstStruct(header, f.typeName).Some? else TypeOf(f.typeName).Some?
  }

  /** What a struct must satisfy by itself. */
  ghost predicate StructLegal(header: Header, i: nat)
    requires i < |header|
  {
    && header[i].fields != []
    && forall j :: 0 <= j < |header[i].fields| ==>
      MetaLegal(header[i].fields[j]) && Resolves(header, header[i].fields[j])
  }

  /** Which struct contains which, by name, the first match winning. */
  ghost function Containment(header: Header): (G: Digraph.Graph)
    ensures |G| == |header| && Digraph.Closed(G)
  {
    seq(|header|, i requires 0 <= i < |header| =>
      set j | 0 <= j < |header[i].fields| && header[i].fields[j].isStruct
              && FirstStruct(header, header[i].fields[j].typeName).Some?
        :: FirstStruct(header, header[i].fields[j].typeName).value)
  }

  ghost predicate Acyclic(header: Header) {
    forall i: nat :: i < |header| ==> !Digraph.OnCycle(Containment(header), i)
  }

  // ------------------------------------------------------ the ideal layout

  /** Struct i is legal down to nesting depth k. */
  ghost predicate LaidWithin(header: Header, i: nat, k: nat)
    requires i < |header|
    decreases k
  {
    && StructLegal(header, i)
    && forall j :: 0 <= j < |header[i].fields| && header[i].fields[j].isStruct ==>
      k > 0 && LaidWithin(header, FirstStruct(header, header[i].fields[j].typeName).value, k - 1)
  }

  ghost predicate FieldLaidWithin(header: Header, f: AstField, k: nat) {
    && MetaLegal(f) && Resolves(header, f)
    && (f.isStruct ==> k > 0 && LaidWithin(header, FirstStruct(header, f.typeName).value, k - 1))
  }

  /** The storage one field occupies. */
  ghost function MemberWithin(header: Header, f: AstField, k: nat): (m: Member)
    requires FieldLaidWithin(header, f, k)
    ensures m.Legal()
    decreases k, 0
  {
    if f.isStruct then
      var t := FirstStruct(header, f.typeName).value;
      var inner := MembersWithin(header, t, k - 1, |header[t].fields|);
      SizeIsPositive(inner);
      Member(SizeOf(inner), DeclaredCount(f), AlignmentOf(inner))
    else
      TypeIsLegal(f.typeName);
      var t := TypeOf(f.typeName).value;
      Member(t.size, DeclaredCount(f), t.alignment)
  }

  ghost function MembersWithin(header: Header, i: nat, k: nat, n: nat): (members: seq<Member>)
    requires i < |header| && LaidWithin(header, i, k) && n <= |header[i].fields|
    ensures |members| == n && AllLegal(members)
    decreases k, 1, n
  {
    if n == 0 then []
    else MembersWithin(header, i, k, n - 1) + [MemberWithin(header, header[i].fields[n - 1], k)]
  }

  lemma {:induction false} SizeIsPositive(members: seq<Member>)
    requires AllLegal(members) && members != []
    ensures SizeOf(members) > 0
  {
    EndIsPositive(members);
  }

  lemma {:induction false} TypeIsLegal(spelling: CString)
    requires TypeOf(spelling).Some?
    ensures PowerOfTwo(TypeOf(spelling).value.alignment)
  {
    assert Pow2(0) == 1 && Pow2(1) == 2 && Pow2(2) == 4 && Pow2(3) == 8;
  }

  /** Struct i has an ideal layout: everything it contains is legal and nesting is well founded. */
  ghost predicate Laid(header: Header, i: nat)
    requires i < |header|
  {
    LaidWithin(header, i, |header|)
  }

  ghost function Ideal(header: Header, i: nat): (members: seq<Member>)
    requires i < |header| && Laid(header, i)
    ensures |members| == |header[i].fields| && members != [] && AllLegal(members)
  {
    MembersWithin(header, i, |header|, |header[i].fields|)
  }

  ghost predicate FieldLaid(header: Header, f: AstField) {
    && MetaLegal(f) && Resolves(header, f)
    && (f.isStruct ==> Laid(header, FirstStruct(header, f.typeName).value))
  }

  /** The storage of a field, from the ideal layout of its type. */
  ghost function MemberOf(header: Header, f: AstField): (m: Member)
    requires FieldLaid(header, f)
    ensures m.Legal()
  {
    MemberWithin(header, f, |header| + 1)
  }

  lemma {:induction false} LaidIsGrounded(header: Header, i: nat, k: nat)
    requires i < |header| && LaidWithin(header, i, k)
    ensures Digraph.Grounded(Containment(header), i, k)
    decreases k
  {
    forall t | t in Containment(header)[i] ensures k > 0 && Digraph.Grounded(Containment(header), t, k - 1) {
      LaidIsGrounded(header, t, k - 1);
    }
  }

  lemma {:induction false} GroundedIsLaid(header: Header, i: nat, k: nat)
    requires i < |header| && Digraph.Grounded(Containment(header), i, k)
    requires forall s: nat :: s < |header| ==> StructLegal(header, s)
    ensures LaidWithin(header, i, k)
    decreases k
  {
    forall j | 0 <= j < |header[i].fields| && header[i].fields[j].isStruct
      ensures k > 0 && LaidWithin(header, FirstStruct(header, header[i].fields[j].typeName).value, k - 1)
    {
      var t := FirstStruct(header, header[i].fields[j].typeName).value;
      assert t in Containment(header)[i];
      GroundedIsLaid(header, t, k - 1);
    }
  }

  lemma {:induction false} LaidAtAnyHeight(header: Header, i: nat, k: nat, m: nat)
    requires i < |header| && LaidWithin(header, i, k) && Digraph.Grounded(Containment(header), i, m)
    ensures LaidWithin(header, i, m)
    decreases k
  {
    forall j | 0 <= j < |header[i].fields| && header[i].fields[j].isStruct
      ensures m > 0 && LaidWithin(header, FirstStruct(header, header[i].fields[j].typeName).value, m - 1)
    {
      var t := FirstStruct(header, header[i].fields[j].typeName).value;
      assert t in Containment(header)[i];
      LaidAtAnyHeight(header, t, k - 1, m - 1);
    }
  }

  /** The number of structs bounds every nesting depth. */
  lemma {:induction false} LaidWithinIsLaid(header: Header, i: nat, k: nat)
    requires i < |header| && LaidWithin(header, i, k)
    ensures Laid(header, i)
  {
    LaidIsGrounded(header, i, k);
    Digraph.HeightBound(Containment(header), i, k);
    LaidAtAnyHeight(header, i, k, |header|);
  }

  lemma {:induction false} MemberIgnoresDepth(header: Header, f: AstField, k: nat, m: nat)
    requires FieldLaidWithin(header, f, k) && FieldLaidWithin(header, f, m)
    ensures MemberWithin(header, f, k) == MemberWithin(header, f, m)
    decreases k, 0
  {
    if f.isStruct {
      var t := FirstStruct(header, f.typeName).value;
      MembersIgnoreDepth(header, t, k - 1, m - 1, |header[t].fields|);
    }
  }

  lemma {:induction false} MembersIgnoreDepth(header: Header, i: nat, k: nat, m: nat, n: nat)
    requires i < |header| && LaidWithin(header, i, k) && LaidWithin(header, i, m) && n <= |header[i].fields|
    ensures MembersWithin(header, i, k, n) == MembersWithin(header, i, m, n)
    decreases k, 1, n
  {
    if n > 0 {
      MembersIgnoreDepth(header, i, k, m, n - 1);
      MemberIgnoresDepth(header, header[i].fields[n - 1], k, m);
    }
  }

  lemma {:induction false} MembersByField(header: Header, i: nat, k: nat, n: nat, j: nat)
    requires i < |header| && LaidWithin(header, i, k) && j < n <= |header[i].fields|
    ensures MembersWithin(header, i, k, n)[j] == MemberWithin(header, header[i].fields[j], k)
    decreases n
  {
    if j < n - 1 {
      MembersByField(header, i, k, n - 1, j);
    }
  }

  /** The ideal layout solves its own equation: each member comes from the layout of its type. */
  lemma {:induction false} IdealByField(header: Header, i: nat, j: nat)
    requires i < |header| && Laid(header, i) && j < |header[i].fields|
    ensures FieldLaid(header, header[i].fields[j]) && Ideal(header, i)[j] == MemberOf(header, header[i].fields[j])
  {
    var f := header[i].fields[j];
    if f.isStruct {
      LaidWithinIsLaid(header, FirstStruct(header, f.typeName).value, |header| - 1);
    }
    MembersByField(header, i, |header|, |header[i].fields|, j);
    MemberIgnoresDepth(header, f, |header|, |header| + 1);
  }

  lemma {:induction false} LaidFromFields(header: Header, i: nat)
    requires i < |header| && StructLegal(header, i)
    requires forall j :: 0 <= j < |header[i].fields| ==> FieldLaid(header, header[i].fields[j])
    ensures Laid(header, i)
  {
    assert LaidWithin(header, i, |header| + 1);
    LaidWithinIsLaid(header, i, |header| + 1);
  }

  /** Legal structs with acyclic containment are exactly the ones with a layout. */
  lemma {:induction false} AllLaidIffLegalAndAcyclic(header: Header)
    ensures (forall i: nat :: i < |header| ==> Laid(header, i)) <==>
      (forall i: nat :: i < |header| ==> StructLegal(header, i)) && Acyclic(header)
  {
    var G := Containment(header);
    forall i: nat | i < |header| && Laid(header, i) ensures StructLegal(header, i) && !Digraph.OnCycle(G, i) {
      LaidIsGrounded(header, i, |header|);
      Digraph.GroundedNotOnCycle(G, i, |header|);
    }
    if (forall i: nat :: i < |header| ==> StructLegal(header, i)) && Acyclic(header) {
      forall i: nat | i < |header| ensures Laid(header, i) {
        forall r: nat | Digraph.Reaches(G, i, r) ensures !Digraph.OnCycle(G, r) {
          var p :| Digraph.WalkFromTo(G, p, i, r);
        }
        Digraph.GroundBelow(G, [i]);
        GroundedIsLaid(header, i, |header| - 1);
        LaidWithinIsLaid(header, i, |header| - 1);
      }
    }
  }
}
