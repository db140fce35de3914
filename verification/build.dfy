/**
 The memoised depth-first construction of descriptors from a parsed header, and its
 exactness: it succeeds on precisely the headers that have a layout fitting size_t,
 and then yields the descriptors of the ideal layout.
 */
module Build {
  import opened Base
  import opened Arithmetic
  import opened Meta
  import opened Layout
  import opened Ast
  import Digraph

  // ------------------------------------------------ what is to be constructed

  function CopiedItems(attributes: seq<AstAttribute>): (items: seq<Attribute>)
    ensures |items| == |attributes|
    ensures forall j :: 0 <= j < |items| ==> items[j] == Attribute(Some(attributes[j].key), attributes[j].value)
  {
    if attributes == [] then []
    else [Attribute(Some(attributes[0].key), attributes[0].value)] + CopiedItems(attributes[1..])
  }

  function Copied(attributes: seq<AstAttribute>): Table<Attribute> {
    if attributes == [] then NullTable(0) else Rows(CopiedItems(attributes))
  }

  /** A char array that is not declared as bytes is one NUL-terminated string. */
  predicate IsCharArray(f: AstField) {
    !f.isStruct && f.typeName == "char" && f.arrayCount > 0 && !DeclaredByteArray(f)
  }

  /** The descriptor of a field placed at an offset. */
  function Placed(f: AstField, kind: Kind, elementSize: Size, offset: Size, nested: Option<Ref>): Field
    requires elementSize * DeclaredCount(f) <= SIZE_MAX
  {
    if IsCharArray(f) then
      Field(Some(f.name), CharArray, offset, elementSize, 1, elementSize * DeclaredCount(f), nested,
            Copied(f.attributes))
    else
      Field(Some(f.name), kind, offset, elementSize, DeclaredCount(f), 0, nested, Copied(f.attributes))
  }

  ghost predicate Fits(header: Header, i: nat)
    requires i < |header| && Laid(header, i)
  {
    SizeOf(Ideal(header, i)) <= SIZE_MAX
  }

  ghost function DescribeField(header: Header, f: AstField, offset: Size): Field
    requires FieldLaid(header, f) && MemberOf(header, f).Total() <= SIZE_MAX
  {
    var m := MemberOf(header, f);
    SizeAtMostTotal(m);
    if f.isStruct then Placed(f, Struct, m.size, offset, Some(FirstStruct(header, f.typeName).value))
    else Placed(f, TypeOf(f.typeName).value.kind, m.size, offset, None)
  }

  lemma {:induction false} SizeAtMostTotal(m: Member)
    requires m.Legal()
    ensures m.size <= m.Total()
  {
    MultiplyOrder(m.size, 1, m.count);
  }

  lemma {:induction false} IdealFieldFits(header: Header, i: nat, j: nat)
    requires i < |header| && Laid(header, i) && Fits(header, i) && j < |header[i].fields|
    ensures FieldLaid(header, header[i].fields[j]) && Ideal(header, i)[j] == MemberOf(header, header[i].fields[j])
    ensures OffsetOf(Ideal(header, i), j) + MemberOf(header, header[i].fields[j]).Total() <= SizeOf(Ideal(header, i))
  {
    IdealByField(header, i, j);
    EndCoversPrefix(Ideal(header, i), j);
    RoundUpDivides(EndOf(Ideal(header, i)), AlignmentOf(Ideal(header, i)));
  }

  ghost function DescribeFields(header: Header, i: nat, n: nat): (fields: seq<Field>)
    requires i < |header| && Laid(header, i) && Fits(header, i) && n <= |header[i].fields|
    ensures |fields| == n
    ensures forall j :: 0 <= j < n ==>
      && FieldLaid(header, header[i].fields[j])
      && OffsetOf(Ideal(header, i), j) + MemberOf(header, header[i].fields[j]).Total() <= SIZE_MAX
      && fields[j] == DescribeField(header, header[i].fields[j], OffsetOf(Ideal(header, i), j))
  {
    if n == 0 then []
    else
      IdealFieldFits(header, i, n - 1);
      DescribeFields(header, i, n - 1)
      + [DescribeField(header, header[i].fields[n - 1], OffsetOf(Ideal(header, i), n - 1))]
  }

  /** The descriptor of struct i: its fields at their ideal offsets, its ideal size. */
  ghost function Describe(header: Header, i: nat): Descriptor
    requires i < |header| && Laid(header, i) && Fits(header, i)
  {
    Descriptor(
      Some(header[i].name),
      SizeOf(Ideal(header, i)),
      Rows(DescribeFields(header, i, |header[i].fields|)),
      Copied(header[i].attributes))
  }

  /** A header the library must accept. */
  ghost predicate Buildable(header: Header) {
    && header != []
    && (forall i: nat :: i < |header| ==> StructLegal(header, i))
    && Acyclic(header)
    && (forall i: nat :: i < |header| && Laid(header, i) ==> Fits(header, i))
  }

  /** The descriptor is the ideal one of struct i. */
  ghost predicate Describes(header: Header, i: nat, descriptor: Descriptor)
    requires i < |header|
  {
    Laid(header, i) && Fits(header, i) && descriptor == Describe(header, i)
  }

  /** g holds the descriptor of every struct at the struct's own index. */
  ghost predicate IsBuilt(header: Header, g: Graph) {
    |g| == |header| && forall i: nat :: i < |header| ==> Describes(header, i, g[i])
  }

  // -------------------------------------------------------- why a build fails

  ghost predicate Unresolved(header: Header, i: nat, j: nat) {
    i < |header| && j < |header[i].fields| && !Resolves(header, header[i].fields[j])
  }

  /** A struct without fields, or a field whose meta attributes are misspelled or misplaced. */
  ghost predicate Malformed(header: Header, i: nat) {
    && i < |header|
    && (header[i].fields == [] || exists j :: 0 <= j < |header[i].fields| && !MetaLegal(header[i].fields[j]))
  }

  /** The first members of struct i, or its size when they are all there, exceed size_t. */
  ghost predicate Overflows(header: Header, i: nat, members: seq<Member>) {
    && i < |header| && AllLegal(members) && MembersMatch(header, i, members)
    && (EndOf(members) > SIZE_MAX || (|members| == |header[i].fields| && SizeOf(members) > SIZE_MAX))
  }

  /** The defect each result code stands for. */
  ghost predicate Blamed(header: Header, code: Code) {
    match code
    case NotFound => header == [] || exists i: nat, j: nat :: Unresolved(header, i, j)
    case CorruptDescriptor => !Acyclic(header) || exists i: nat :: Malformed(header, i)
    case OutOfRange => exists i: nat, members :: Overflows(header, i, members)
    case _ => false
  }

  // ------------------------------------------------------- the construction

  datatype State = Pending | Active | Done

  datatype Entry = Entry(state: State, alignment: Size, descriptor: Descriptor)

  /** A finished entry holds the ideal result. */
  ghost predicate EntryOk(header: Header, e: nat, entry: Entry)
    requires e < |header|
  {
    entry.state.Done? ==>
      && Describes(header, e, entry.descriptor)
      && entry.alignment == AlignmentOf(Ideal(header, e))
  }

  /** The active entries are exactly the ancestors on the stack, which nest in each other. */
  ghost predicate Consistent(header: Header, entries: seq<Entry>, stack: seq<nat>) {
    && |entries| == |header|
    && Distinct(stack)
    && (stack == [] || Digraph.Walk(Containment(header), stack))
    && (forall e :: 0 <= e < |entries| ==> (entries[e].state.Active? <==> e in stack))
    && (forall e :: 0 <= e < |entries| ==> EntryOk(header, e, entries[e]))
  }

  ghost function PendingOf(entries: seq<Entry>): set<nat> {
    set e: nat | e < |entries| && entries[e].state.Pending?
  }

  /** Finished entries are never touched again. */
  ghost predicate DoneKept(before: seq<Entry>, after: seq<Entry>) {
    |after| == |before| && forall e :: 0 <= e < |before| && before[e].state.Done? ==> after[e] == before[e]
  }

  lemma {:induction false} DoneKeptItself(entries: seq<Entry>)
    ensures DoneKept(entries, entries)
  {
  }

  lemma {:induction false} UnfinishedMayChange(before: seq<Entry>, entries: seq<Entry>, i: nat, entry: Entry)
    requires DoneKept(before, entries) && i < |entries| && !before[i].state.Done?
    ensures DoneKept(before, entries[i := entry])
  {
  }

  lemma {:induction false} EmptyIsBlamed(header: Header, i: nat)
    requires i < |header| && header[i].fields == []
    ensures Blamed(header, CorruptDescriptor)
  {
    assert Malformed(header, i);
  }

  lemma {:induction false} SizeIsBlamed(header: Header, i: nat, members: seq<Member>)
    requires i < |header| && AllLegal(members) && MembersMatch(header, i, members)
    requires |members| == |header[i].fields| && SizeOf(members) > SIZE_MAX
    ensures Blamed(header, OutOfRange)
  {
    assert Overflows(header, i, members);
  }

  lemma {:induction false} Activate(header: Header, entries: seq<Entry>, stack: seq<nat>, i: nat)
    requires Consistent(header, entries, stack) && i < |header| && entries[i].state.Pending?
    requires stack == [] || i in Containment(header)[stack[|stack| - 1]]
    ensures var after := entries[i := entries[i].(state := Active)];
      Consistent(header, after, stack + [i]) && PendingOf(after) < PendingOf(entries)
  {
    var after := entries[i := entries[i].(state := Active)];
    assert Digraph.Walk(Containment(header), stack + [i]);
    assert i in PendingOf(entries) && i !in PendingOf(after);
    forall e | 0 <= e < |after| ensures after[e].state.Active? <==> e in stack + [i] {
    }
  }

  lemma {:induction false} ActiveIsAncestor(header: Header, entries: seq<Entry>, stack: seq<nat>, i: nat)
    requires Consistent(header, entries, stack) && i < |entries| && entries[i].state.Active?
    ensures i in stack && Digraph.Walk(Containment(header), stack)
  {
  }

  lemma {:induction false} Finish(header: Header, entries: seq<Entry>, stack: seq<nat>, i: nat, entry: Entry)
    requires Consistent(header, entries, stack + [i]) && i < |header|
    requires entry.state.Done? && EntryOk(header, i, entry)
    ensures Consistent(header, entries[i := entry], stack) && PendingOf(entries[i := entry]) <= PendingOf(entries)
  {
    hide EntryOk;
    var below := stack + [i];
    assert below[..|stack|] == stack;
    forall e | 0 <= e < |entries| ensures entries[i := entry][e].state.Active? <==> e in stack {
      assert e in below <==> e in stack || e == i;
      if i in stack {
        var j :| 0 <= j < |stack| && stack[j] == i;
        assert below[j] == below[|stack|];
      }
    }
  }

  /** What BuildField needs to know about the type of a field. */
  datatype Resolved = Resolved(kind: Kind, elementSize: Size, alignment: Size, nested: Option<Ref>)

  ghost predicate IsTypeOf(header: Header, f: AstField, r: Resolved) {
    && FieldLaid(header, f)
    && MemberOf(header, f) == Member(r.elementSize, DeclaredCount(f), r.alignment)
    && (if f.isStruct then r.kind == Struct && r.nested == FirstStruct(header, f.typeName)
        else r.kind == TypeOf(f.typeName).value.kind && r.nested == None)
  }

  lemma {:induction false} TypeFromEntry(header: Header, f: AstField, t: nat, entry: Entry)
    requires MetaLegal(f) && f.isStruct && FirstStruct(header, f.typeName) == Some(t)
    requires EntryOk(header, t, entry) && entry.state.Done?
    ensures IsTypeOf(header, f, Resolved(Struct, entry.descriptor.size, entry.alignment, Some(t)))
  {
  }

  class Context {
    const header: Header
    const entries: array<Entry>

    ghost predicate Valid(stack: seq<nat>)
      reads this, entries
    {
      Consistent(header, entries[..], stack)
    }

    ghost function Remaining(): set<nat>
      reads this, entries
    {
      PendingOf(entries[..])
    }

    constructor (h: Header)
      ensures header == h && fresh(entries) && Valid([])
    {
      header := h;
      entries := new Entry[|h|](_ => Entry(Pending, 0, Descriptor(None, 0, NullTable(0), NullTable(0))));
    }

    method FindEntry(name: CString) returns (r: Option<nat>)
      requires entries.Length == |header|
      ensures r == FirstStruct(header, name)
    {
      var i := 0;
      while i < entries.Length
        invariant 0 <= i <= entries.Length
        invariant forall k :: 0 <= k < i ==> header[k].name != name
      {
        if header[i].name == name {
          return Some(i);
        }
        i := i + 1;
      }
      return None;
    }

    method CopyAttributes(attributes: seq<AstAttribute>) returns (t: Table<Attribute>)
      ensures t == Copied(attributes)
    {
      if |attributes| == 0 {
        return NullTable(0);
      }
      var items: seq<Attribute> := [];
      var index := 0;
      while index < |attributes|
        invariant 0 <= index == |items| <= |attributes|
        invariant forall j :: 0 <= j < index ==> items[j] == Attribute(Some(attributes[j].key), attributes[j].value)
      {
        items := items + [Attribute(Some(attributes[index].key), attributes[index].value)];
        index := index + 1;
      }
      assert items == CopiedItems(attributes);
      return Rows(items);
    }

    /** Finds the size and alignment of a field's type, building a nested struct first. */
    method ResolveType(f: AstField, ghost stack: seq<nat>, ghost j: nat) returns (r: Outcome<Resolved>)
      requires Valid(stack) && stack != [] && MetaLegal(f)
      requires var top := header[stack[|stack| - 1]]; j < |top.fields| && f == top.fields[j]
      modifies entries
      ensures r.Success? ==> Valid(stack) && Remaining() <= old(Remaining()) && IsTypeOf(header, f, r.value)
      ensures r.Failure? ==> Blamed(header, r.code)
      ensures DoneKept(old(entries[..]), entries[..])
      decreases Remaining(), 1
    {
      ghost var top := stack[|stack| - 1];
      if f.isStruct {
        var entry := FindEntry(f.typeName);
        if entry.None? {
          assert Unresolved(header, top, j);
          return Failure(NotFound);
        }
        var t := entry.value;
        assert t in Containment(header)[top];
        if entries[t].state.Active? {
          assert entries[..][t].state.Active?;
          BackEdgeIsCycle(header, stack, t);
          return Failure(CorruptDescriptor);
        }
        var ret := BuildOne(t, stack);
        if ret != Ok {
          return Failure(ret);
        }
        assert EntryOk(header, t, entries[..][t]);
        TypeFromEntry(header, f, t, entries[t]);
        return Success(Resolved(Struct, entries[t].descriptor.size, entries[t].alignment, Some(t)));
      } else {
        var found := FindType(f.typeName);
        if found.None? {
          assert Unresolved(header, top, j);
          return Failure(NotFound);
        }
        return Success(Resolved(found.value.kind, found.value.size, found.value.alignment, None));
      }
    }

    /** Builds one field of the struct on top of the stack and places it in the layout. */
    method BuildField(f: AstField, layout: Builder, ghost stack: seq<nat>, ghost j: nat) returns (r: Outcome<Field>)
      requires Valid(stack) && stack != []
      requires var top := header[stack[|stack| - 1]]; j < |top.fields| && f == top.fields[j]
      requires layout.Valid()
      modifies entries, layout
      ensures r.Success? ==>
        && Valid(stack) && Remaining() <= old(Remaining()) && layout.Valid()
        && |layout.members| == |old(layout.members)| + 1
        && old(layout.members) == layout.members[..|old(layout.members)|]
        && FieldDone(header, f, layout.members, |old(layout.members)|, r.value)
      ensures r.Failure? ==>
        || Blamed(header, r.code)
        || (r.code == OutOfRange && FieldLaid(header, f) &&
            EndOf(old(layout.members) + [MemberOf(header, f)]) > SIZE_MAX)
      ensures DoneKept(old(entries[..]), entries[..])
      decreases Remaining(), 2
    {
      hide PendingOf, LaidWithin, MemberWithin, EndOf, AlignmentOf;
      if !MetaLegal(f) {
        assert Malformed(header, stack[|stack| - 1]);
        return Failure(CorruptDescriptor);
      }
      var found := ResolveType(f, stack, j);
      if found.Failure? {
        return Failure(found.code);
      }
      var t := found.value;
      var placement := layout.Add(t.elementSize, DeclaredCount(f), t.alignment);
      if placement.Failure? {
        return Failure(placement.code);
      }
      MemberFits(layout.members);
      var attributes := CopyAttributes(f.attributes);
      if IsCharArray(f) {
        return Success(Field(Some(f.name), CharArray, placement.value, t.elementSize, 1,
                             t.elementSize * DeclaredCount(f), t.nested, attributes));
      }
      return Success(Field(Some(f.name), t.kind, placement.value, t.elementSize, DeclaredCount(f), 0,
                           t.nested, attributes));
    }

    /** Fills the fields and the layout of struct i, whose entry is active. */
    method BuildFields(i: nat, layout: Builder, ghost stack: seq<nat>) returns (r: Outcome<seq<Field>>)
      requires Valid(stack) && i < |header| && stack != [] && stack[|stack| - 1] == i
      requires layout.Valid() && layout.members == [] && header[i].fields != []
      modifies entries, layout
      ensures r.Success? ==>
        && Valid(stack) && Remaining() <= old(Remaining()) && layout.Valid()
        && Laid(header, i) && layout.members == Ideal(header, i)
        && (Fits(header, i) ==> r.value == DescribeFields(header, i, |header[i].fields|))
        && MembersMatch(header, i, layout.members)
      ensures r.Failure? ==> Blamed(header, r.code)
      ensures DoneKept(old(entries[..]), entries[..])
      decreases Remaining(), 3
    {
      var sources := header[i].fields;
      var fields: seq<Field> := [];
      var index := 0;
      while index < |sources|
        invariant 0 <= index == |fields| == |layout.members| <= |sources|
        invariant layout.Valid() && Valid(stack) && Remaining() <= old(Remaining())
        invariant FieldsSoFar(header, i, layout.members, fields)
        invariant DoneKept(old(entries[..]), entries[..])
      {
        ghost var before := layout.members;
        var field := BuildField(sources[index], layout, stack, index);
        if field.Failure? {
          if !Blamed(header, field.code) {
            OverflowIsBlamed(header, i, before, fields);
          }
          return Failure(field.code);
        }
        FieldsGrow(header, i, before, fields, layout.members, field.value);
        fields := fields + [field.value];
        index := index + 1;
      }
      FieldsComplete(header, i, layout.members, fields);
      MatchSoFar(header, i, layout.members, fields);
      return Success(fields);
    }

    /**
     Builds struct i after everything it contains. A pending entry is started once, and
     whatever the outcome a finished one is left alone.
     */
    method BuildOne(i: nat, ghost stack: seq<nat>) returns (ret: Code)
      requires Valid(stack) && i < |header|
      requires stack == [] || i in Containment(header)[stack[|stack| - 1]]
      modifies entries
      ensures ret == Ok ==> Valid(stack) && entries[i].state.Done? && Remaining() <= old(Remaining())
      ensures ret != Ok ==> Blamed(header, ret)
      ensures ret == Ok && old(entries[i].state.Pending?) ==> Remaining() < old(Remaining())
      ensures DoneKept(old(entries[..]), entries[..])
      decreases Remaining(), 0
    {
      if entries[i].state.Done? {
        return Ok;
      }
      if entries[i].state.Active? {
        ActiveIsAncestor(header, entries[..], stack, i);
        BackEdgeIsCycle(header, stack, i);
        return CorruptDescriptor;
      }
      Activate(header, entries[..], stack, i);
      entries[i] := entries[i].(state := Active);
      ret := BuildActive(i, stack);
    }

    /** The work on an entry that has just become active. */
    method BuildActive(i: nat, ghost stack: seq<nat>) returns (ret: Code)
      requires entries.Length == |header| && Valid(stack + [i]) && i < |header| && entries[i].state.Active?
      modifies entries
      ensures ret == Ok ==> Valid(stack) && entries[i].state.Done? && Remaining() <= old(Remaining())
      ensures ret != Ok ==> Blamed(header, ret)
      ensures DoneKept(old(entries[..]), entries[..])
      decreases Remaining(), 4
    {
      hide Consistent, PendingOf, EntryOk, DoneKept, Blamed;
      if |header[i].fields| == 0 {
        DoneKeptItself(entries[..]);
        EmptyIsBlamed(header, i);
        return CorruptDescriptor;
      }
      var layout := new Builder.Begin();
      var fields := BuildFields(i, layout, stack + [i]);
      if fields.Failure? {
        return fields.code;
      }
      var extent := layout.End();
      if extent.Failure? {
        SizeIsBlamed(header, i, layout.members);
        return extent.code;
      }
      var attributes := CopyAttributes(header[i].attributes);
      var entry := Entry(Done, extent.value.1,
                         Descriptor(Some(header[i].name), extent.value.0, Rows(fields.value), attributes));
      FinishedOk(header, i, entry, fields.value);
      Finish(header, entries[..], stack, i, entry);
      UnfinishedMayChange(old(entries[..]), entries[..], i, entry);
      ghost var after := entries[..][i := entry];
      entries[i] := entry;
      assert entries[..] == after;
      return Ok;
    }
  }

  lemma {:induction false} FinishedOk(header: Header, i: nat, entry: Entry, fields: seq<Field>)
    requires i < |header| && Laid(header, i) && Fits(header, i)
    requires fields == DescribeFields(header, i, |header[i].fields|)
    requires entry.alignment == AlignmentOf(Ideal(header, i)) && SizeOf(Ideal(header, i)) <= SIZE_MAX
    requires entry.descriptor ==
      Descriptor(Some(header[i].name), SizeOf(Ideal(header, i)), Rows(fields), Copied(header[i].attributes))
    ensures EntryOk(header, i, entry)
  {
  }

  ghost predicate Matches(header: Header, f: AstField, m: Member) {
    FieldLaid(header, f) && m == MemberOf(header, f)
  }

  /** The members are those of the first fields of struct i. */
  ghost predicate MembersMatch(header: Header, i: nat, members: seq<Member>)
    requires i < |header|
  {
    |members| <= |header[i].fields| && forall j :: 0 <= j < |members| ==> Matches(header, header[i].fields[j], members[j])
  }

  /** Field j has been placed as the ideal layout prescribes. */
  ghost predicate FieldDone(header: Header, f: AstField, members: seq<Member>, j: nat, field: Field)
    requires AllLegal(members) && j < |members|
  {
    && Matches(header, f, members[j])
    && MemberOf(header, f).Total() <= SIZE_MAX && OffsetOf(members, j) <= SIZE_MAX
    && field == DescribeField(header, f, OffsetOf(members, j))
  }

  /** The members and descriptors of the first fields of struct i. */
  ghost predicate FieldsSoFar(header: Header, i: nat, members: seq<Member>, fields: seq<Field>)
    requires i < |header| && AllLegal(members)
  {
    && |members| == |fields| <= |header[i].fields|
    && forall j :: 0 <= j < |fields| ==> FieldDone(header, header[i].fields[j], members, j, fields[j])
  }

  lemma {:induction false} FieldStaysDone(
      header: Header, f: AstField, before: seq<Member>, members: seq<Member>, j: nat, field: Field)
    requires AllLegal(before) && AllLegal(members) && j < |before| < |members| && before == members[..|before|]
    requires FieldDone(header, f, before, j, field)
    ensures FieldDone(header, f, members, j, field)
  {
    assert members[..j] == before[..j];
  }

  lemma {:induction false} FieldsGrow(
      header: Header, i: nat, before: seq<Member>, fields: seq<Field>, members: seq<Member>, field: Field)
    requires i < |header| && AllLegal(before) && AllLegal(members) && FieldsSoFar(header, i, before, fields)
    requires |fields| < |header[i].fields| && |members| == |before| + 1 && before == members[..|before|]
    requires FieldDone(header, header[i].fields[|fields|], members, |fields|, field)
    ensures FieldsSoFar(header, i, members, fields + [field])
  {
    hide FieldDone;
    var more := fields + [field];
    forall j | 0 <= j < |more| ensures FieldDone(header, header[i].fields[j], members, j, more[j]) {
      if j < |fields| {
        assert FieldDone(header, header[i].fields[j], before, j, fields[j]);
        FieldStaysDone(header, header[i].fields[j], before, members, j, fields[j]);
      }
    }
  }

  lemma {:induction false} FieldsComplete(header: Header, i: nat, members: seq<Member>, fields: seq<Field>)
    requires i < |header| && AllLegal(members) && FieldsSoFar(header, i, members, fields)
    requires |fields| == |header[i].fields| > 0
    ensures Laid(header, i) && members == Ideal(header, i)
    ensures Fits(header, i) ==> fields == DescribeFields(header, i, |header[i].fields|)
  {
    MatchSoFar(header, i, members, fields);
    forall j | 0 <= j < |fields| ensures FieldLaid(header, header[i].fields[j]) {
      assert Matches(header, header[i].fields[j], members[j]);
    }
    LaidFromFields(header, i);
    MembersAreIdeal(header, i, members);
  }

  lemma {:induction false} BackEdgeIsCycle(header: Header, stack: seq<nat>, t: nat)
    requires Digraph.Walk(Containment(header), stack) && t in stack
    requires t in Containment(header)[stack[|stack| - 1]]
    ensures !Acyclic(header)
  {
    var i :| 0 <= i < |stack| && stack[i] == t;
    assert Digraph.WalkFromTo(Containment(header), stack[i..] + [t], t, t);
    assert Digraph.OnCycle(Containment(header), t);
  }

  lemma {:induction false} MemberFits(members: seq<Member>)
    requires AllLegal(members) && members != [] && EndOf(members) <= SIZE_MAX
    ensures OffsetOf(members, |members| - 1) + members[|members| - 1].Total() <= SIZE_MAX
  {
    EndCoversPrefix(members, |members| - 1);
  }

  lemma {:induction false} MembersAreIdeal(header: Header, i: nat, members: seq<Member>)
    requires i < |header| && Laid(header, i) && MembersMatch(header, i, members)
    ensures members == Ideal(header, i)[..|members|]
  {
    forall j | 0 <= j < |members| ensures members[j] == Ideal(header, i)[j] {
      assert Matches(header, header[i].fields[j], members[j]);
      IdealByField(header, i, j);
    }
  }

  lemma {:induction false} EndIsMonotone(members: seq<Member>, n: nat)
    requires AllLegal(members) && n <= |members|
    ensures EndOf(members[..n]) <= EndOf(members)
    decreases |members|
  {
    if n < |members| {
      var init := members[..|members| - 1];
      EndIsMonotone(init, n);
      assert init[..n] == members[..n];
      RoundUpDivides(EndOf(init), members[|members| - 1].alignment);
    } else {
      assert members[..n] == members;
    }
  }

  /** In a buildable header no prefix of a struct's members can overflow. */
  lemma {:induction false} IdealCovers(header: Header, i: nat, members: seq<Member>)
    requires Buildable(header) && i < |header| && MembersMatch(header, i, members) && AllLegal(members)
    ensures EndOf(members) <= SIZE_MAX
  {
    AllLaidIffLegalAndAcyclic(header);
    MembersAreIdeal(header, i, members);
    EndIsMonotone(Ideal(header, i), |members|);
    RoundUpDivides(EndOf(Ideal(header, i)), AlignmentOf(Ideal(header, i)));
  }

  lemma {:induction false} MatchSoFar(header: Header, i: nat, members: seq<Member>, fields: seq<Field>)
    requires i < |header| && AllLegal(members) && FieldsSoFar(header, i, members, fields)
    ensures MembersMatch(header, i, members)
  {
    forall j | 0 <= j < |members| ensures Matches(header, header[i].fields[j], members[j]) {
      assert FieldDone(header, header[i].fields[j], members, j, fields[j]);
    }
  }

  lemma {:induction false} MatchMore(header: Header, i: nat, members: seq<Member>, m: Member)
    requires i < |header| && MembersMatch(header, i, members) && |members| < |header[i].fields|
    requires Matches(header, header[i].fields[|members|], m)
    ensures MembersMatch(header, i, members + [m])
  {
    hide FieldLaid, MemberOf;
    var more := members + [m];
    forall j | 0 <= j < |more| ensures Matches(header, header[i].fields[j], more[j]) {
      if j < |members| {
        assert Matches(header, header[i].fields[j], members[j]);
      }
    }
  }

  lemma {:induction false} OverflowIsBlamed(header: Header, i: nat, members: seq<Member>, fields: seq<Field>)
    requires i < |header| && AllLegal(members) && FieldsSoFar(header, i, members, fields)
    requires |fields| < |header[i].fields|
    requires var f := header[i].fields[|fields|];
      FieldLaid(header, f) && EndOf(members + [MemberOf(header, f)]) > SIZE_MAX
    ensures Blamed(header, OutOfRange)
  {
    MatchSoFar(header, i, members, fields);
    var m := MemberOf(header, header[i].fields[|fields|]);
    MatchMore(header, i, members, m);
    assert Overflows(header, i, members + [m]);
  }

  lemma {:induction false} NothingOverflows(header: Header, i: nat, members: seq<Member>)
    requires Buildable(header) && i < |header| && AllLegal(members) && MembersMatch(header, i, members)
    ensures !Overflows(header, i, members)
  {
    IdealCovers(header, i, members);
    AllLaidIffLegalAndAcyclic(header);
    MembersAreIdeal(header, i, members);
    assert Laid(header, i) && Fits(header, i);
    assert |members| == |header[i].fields| ==> members == Ideal(header, i);
  }

  lemma {:induction false} NothingMalformed(header: Header, i: nat)
    requires Buildable(header)
    ensures !Malformed(header, i) && forall j: nat :: !Unresolved(header, i, j)
  {
    if i < |header| {
      assert StructLegal(header, i);
    }
  }

  /** Every defect that is reported makes the header unacceptable. */
  lemma {:induction false} BlamedIsUnbuildable(header: Header, code: Code)
    requires Blamed(header, code)
    ensures !Buildable(header)
  {
    if Buildable(header) {
      forall i: nat ensures !Malformed(header, i) {
        NothingMalformed(header, i);
      }
      forall i: nat, j: nat ensures !Unresolved(header, i, j) {
        NothingMalformed(header, i);
      }
      forall i: nat, members | i < |header| && AllLegal(members) && MembersMatch(header, i, members)
        ensures !Overflows(header, i, members)
      {
        NothingOverflows(header, i, members);
      }
    }
  }

  lemma {:induction false} BuiltIsBuildable(header: Header, g: Graph)
    requires header != [] && IsBuilt(header, g)
    ensures Buildable(header)
  {
    forall i: nat | i < |header| ensures Laid(header, i) && Fits(header, i) {
      assert Describes(header, i, g[i]);
    }
    AllLaidIffLegalAndAcyclic(header);
  }

  /**
   Building succeeds exactly on the buildable headers, yields their ideal descriptors,
   and otherwise reports a defect the header really has.
   */
  method BuildDescriptors(header: Header) returns (r: Outcome<Graph>)
    ensures r.Success? <==> Buildable(header)
    ensures r.Success? ==> IsBuilt(header, r.value)
    ensures r.Failure? ==> Blamed(header, r.code)
  {
    r := BuildAll(header);
    if r.Success? {
      BuiltIsBuildable(header, r.value);
    } else {
      BlamedIsUnbuildable(header, r.code);
    }
  }

  method BuildAll(header: Header) returns (r: Outcome<Graph>)
    ensures r.Success? ==> header != [] && IsBuilt(header, r.value)
    ensures r.Failure? ==> Blamed(header, r.code)
  {
    hide PendingOf, Laid, Fits, Describe;
    if |header| == 0 {
      return Failure(NotFound);
    }
    var context := new Context(header);
    var table: Graph := [];
    var i := 0;
    while i < |header|
      invariant 0 <= i == |table| <= |header|
      invariant context.header == header && fresh(context.entries) && context.Valid([])
      invariant forall k: nat :: k < i ==> Describes(header, k, table[k])
    {
      var ret := context.BuildOne(i, []);
      if ret != Ok {
        return Failure(ret);
      }
      assert EntryOk(header, i, context.entries[..][i]);
      table := table + [context.entries[i].descriptor];
      i := i + 1;
    }
    return Success(table);
  }
}
