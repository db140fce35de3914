/**
 The registry of descriptors: a cache of validation results and field-name tables.
 Creating a hash table and inserting into one may fail at any time, which is modelled by
 arbitrary choices; finding and deleting entries does not fail.
 Whatever the history of registrations, lookups answer as if the registry were empty.
 */
module Registry {
  import opened Base
  import opened Meta
  import Digraph
  import Validator

  /** Field names of this many bytes or more are never put into a table. */
  const FIELD_NAME_BYTES: nat := 64

  /** The index of the first field with the given name. */
  function FirstField(fields: seq<Field>, name: CString): (r: Option<nat>)
    ensures r.None? <==> forall i :: 0 <= i < |fields| ==> fields[i].name != Some(name)
    ensures r.Some? ==> r.value < |fields| && fields[r.value].name == Some(name)
    ensures r.Some? ==> forall i :: 0 <= i < r.value ==> fields[i].name != Some(name)
  {
    if fields == [] then None
    else
      var n := |fields| - 1;
      var before := FirstField(fields[..n], name);
      if before.Some? then before else if fields[n].name == Some(name) then Some(n) else None
  }

  /** The verdict of an unregistered validation. */
  ghost function Verdict(g: Graph, d: Ref): Code
    requires Closed(g) && d < |g|
  {
    if Valid(g, d) then Ok else CorruptDescriptor
  }

  /** What looking a name up in an unregistered descriptor returns. */
  ghost function FieldNamed(g: Graph, d: Ref, name: CString): Outcome<nat>
    requires Closed(g) && d < |g|
  {
    if !Valid(g, d) then Failure(CorruptDescriptor)
    else match FirstField(Fields(g, d), name)
      case Some(i) => Success(i)
      case None => Failure(NotFound)
  }

  type NameTable = map<CString, nat>

  datatype Record = Record(fieldNames: Option<NameTable>, validation: Code)

  /** The table answers every name exactly as the linear search does. */
  ghost predicate Exact(table: NameTable, fields: seq<Field>) {
    && (forall i :: 0 <= i < |fields| ==> fields[i].name.Some? && |fields[i].name.value| < FIELD_NAME_BYTES)
    && Answers(table, fields)
  }

  ghost predicate Answers(table: NameTable, fields: seq<Field>) {
    forall name :: FirstField(fields, name) == if name in table then Some(table[name]) else None
  }

  lemma {:induction false} NoNames(fields: seq<Field>)
    requires fields == []
    ensures Answers(map[], fields)
  {
  }

  /** The name of one field more: known exactly when an earlier field has it, and otherwise added. */
  lemma {:induction false} NameAdded(fields: seq<Field>, i: nat, table: NameTable, name: CString)
    requires i < |fields| && fields[i].name == Some(name) && Answers(table, fields[..i])
    ensures name in table <==> exists k :: 0 <= k < i && fields[k].name == fields[i].name
    ensures name !in table ==> Answers(table[name := i], fields[..i + 1])
  {
    assert forall k :: 0 <= k < i ==> fields[k] == fields[..i][k];
    assert FirstField(fields[..i], name) == if name in table then Some(table[name]) else None;
    assert fields[..i + 1][..i] == fields[..i];
  }

  /** A table can hold these names: there are some, none is too long and no two are equal. */
  ghost predicate Indexable(fields: seq<Field>) {
    && fields != []
    && (forall i :: 0 <= i < |fields| ==> fields[i].name.Some? && |fields[i].name.value| < FIELD_NAME_BYTES)
    && (forall i, j :: 0 <= i < j < |fields| ==> fields[i].name != fields[j].name)
  }

  ghost predicate RecordOk(g: Graph, d: Ref, record: Record)
    requires Closed(g) && d < |g|
  {
    && record.validation == Verdict(g, d)
    && (record.fieldNames.Some? ==> record.validation == Ok && Exact(record.fieldNames.value, Fields(g, d)))
  }

  /** In a valid descriptor exactly the fields of structure kind point to descriptors. */
  lemma {:induction false} NestedListed(g: Graph, d: Ref)
    requires Closed(g) && d < |g| && Valid(g, d)
    ensures PointersListed(g, d)
  {
    forall i | 0 <= i < |Fields(g, d)| && Fields(g, d)[i].nested.Some?
      ensures Fields(g, d)[i].nested.value in Nesting(g)[d]
    {
      assert FieldOk(g, Fields(g, d)[i], g[d].size);
    }
  }

  ghost predicate PointersListed(g: Graph, d: Ref)
    requires d < |g|
  {
    forall i :: 0 <= i < |Fields(g, d)| && Fields(g, d)[i].nested.Some? ==>
      Fields(g, d)[i].nested.value in Nesting(g)[d]
  }

  // ------------------------------------------- which records a call affects

  /** A nesting walk through the given descriptors that only goes on from valid ones. */
  ghost predicate WalkThrough(g: Graph, inside: set<Ref>, p: seq<Ref>)
    requires Closed(g)
  {
    && Digraph.Walk(Nesting(g), p)
    && forall i :: 0 <= i < |p| ==> p[i] in inside && (i < |p| - 1 ==> p[i] < |g| && Valid(g, p[i]))
  }

  ghost predicate Leads(g: Graph, inside: set<Ref>, d: Ref, k: Ref)
    requires Closed(g)
  {
    exists p :: WalkThrough(g, inside, p) && p[0] == d && p[|p| - 1] == k
  }

  /** The changed descriptors are those a walk through the given ones leads to from d. */
  ghost predicate Exactly(g: Graph, inside: set<Ref>, d: Ref, changed: set<Ref>)
    requires Closed(g)
  {
    forall k :: k in changed <==> Leads(g, inside, d, k)
  }

  /** Part of the way: reached from d, and complete below everything but d itself. */
  ghost predicate Underway(g: Graph, inside: set<Ref>, d: Ref, changed: set<Ref>)
    requires Closed(g)
  {
    && d in changed && changed <= inside
    && (forall k :: k in changed ==> Leads(g, inside, d, k))
    && forall v, e :: v in changed && v != d && v < |g| && Valid(g, v) && e in Nesting(g)[v] && e in inside ==> e in changed
  }

  lemma {:induction false} LeadsToItself(g: Graph, inside: set<Ref>, d: Ref)
    requires Closed(g) && d < |g|
    ensures Leads(g, inside, d, d) <==> d in inside
  {
    if d in inside {
      assert WalkThrough(g, inside, [d]);
    }
  }

  lemma {:induction false} LeadsFurther(g: Graph, inside: set<Ref>, less: set<Ref>, d: Ref, e: Ref, k: Ref)
    requires Closed(g) && d < |g| && Valid(g, d) && d in inside && less <= inside
    requires e in Nesting(g)[d] && Leads(g, less, e, k)
    ensures Leads(g, inside, d, k)
  {
    var p :| WalkThrough(g, less, p) && p[0] == e && p[|p| - 1] == k;
    PutBefore(g, inside, less, d, p);
    assert ([d] + p)[|p|] == k;
  }

  lemma {:induction false} PutBefore(g: Graph, inside: set<Ref>, less: set<Ref>, d: Ref, p: seq<Ref>)
    requires Closed(g) && d < |g| && Valid(g, d) && d in inside && less <= inside
    requires WalkThrough(g, less, p) && p[0] in Nesting(g)[d]
    ensures WalkThrough(g, inside, [d] + p)
  {
    hide Valid, Nesting;
    var q := [d] + p;
    assert forall i :: 0 < i < |q| ==> q[i] == p[i - 1];
  }

  lemma {:induction false} Start(g: Graph, inside: set<Ref>, d: Ref)
    requires Closed(g) && d < |g| && d in inside
    ensures Underway(g, inside, d, {d})
  {
    LeadsToItself(g, inside, d);
  }

  lemma {:induction false} OneStep(g: Graph, inside: set<Ref>, v: Ref, e: Ref)
    requires Closed(g) && v < |g| && Valid(g, v) && e in Nesting(g)[v] && v in inside && e in inside
    ensures Leads(g, inside, v, e)
  {
    assert WalkThrough(g, inside, [v, e]);
  }

  lemma {:induction false} LeadsOn(g: Graph, inside: set<Ref>, d: Ref, v: Ref, e: Ref)
    requires Closed(g) && v < |g| && Valid(g, v) && e in Nesting(g)[v] && e in inside && Leads(g, inside, d, v)
    ensures Leads(g, inside, d, e)
  {
    var p :| WalkThrough(g, inside, p) && p[0] == d && p[|p| - 1] == v;
    PutBehind(g, inside, p, e);
    assert (p + [e])[0] == d;
  }

  lemma {:induction false} PutBehind(g: Graph, inside: set<Ref>, p: seq<Ref>, e: Ref)
    requires Closed(g) && WalkThrough(g, inside, p) && e in inside
    requires var v := p[|p| - 1]; v < |g| && Valid(g, v) && e in Nesting(g)[v]
    ensures WalkThrough(g, inside, p + [e])
  {
    hide Valid, Nesting;
    var q := p + [e];
    assert forall i :: 0 <= i < |p| ==> q[i] == p[i];
    assert q[|p|] == e;
  }

  /** One nested descriptor more has been dealt with. */
  lemma {:induction false} Proceed(g: Graph, inside: set<Ref>, d: Ref, changed: set<Ref>, e: Ref, more: set<Ref>)
    requires Closed(g) && d < |g| && Valid(g, d) && e in Nesting(g)[d]
    requires Underway(g, inside, d, changed) && Exactly(g, inside - changed, e, more)
    ensures Underway(g, inside, d, changed + more) && (e in inside ==> e in changed + more)
  {
    var rest := inside - changed;
    LeadsToItself(g, rest, e);
    forall k | k in more ensures k in inside && Leads(g, inside, d, k) {
      LeadsFurther(g, inside, rest, d, e, k);
    }
    forall v, x | v in more && v < |g| && Valid(g, v) && x in Nesting(g)[v] && x in rest ensures x in more {
      LeadsOn(g, rest, e, v, x);
    }
  }

  /** When nothing nested in d is left, the walk is complete. */
  lemma {:induction false} Arrive(g: Graph, inside: set<Ref>, d: Ref, changed: set<Ref>)
    requires Closed(g) && d < |g| && Underway(g, inside, d, changed)
    requires Valid(g, d) ==> forall e :: e in Nesting(g)[d] && e in inside ==> e in changed
    ensures Exactly(g, inside, d, changed)
  {
    forall k | Leads(g, inside, d, k) ensures k in changed {
      var p :| WalkThrough(g, inside, p) && p[0] == d && p[|p| - 1] == k;
      Caught(g, inside, d, changed, p, |p| - 1);
    }
  }

  lemma {:induction false} NothingFrom(g: Graph, inside: set<Ref>, d: Ref)
    requires Closed(g) && d !in inside
    ensures Exactly(g, inside, d, {})
  {
  }

  lemma {:induction false} NestedGone(g: Graph, inside: set<Ref>, d: Ref, left: set<Ref>)
    requires Closed(g) && d < |g| && d in inside && left <= inside && Exactly(g, inside, d, inside - left)
    ensures Valid(g, d) ==> Nesting(g)[d] !! left
  {
    if Valid(g, d) {
      forall e | e in Nesting(g)[d] && e in inside ensures e !in left {
        OneStep(g, inside, d, e);
      }
    }
  }

  lemma {:induction false} AllDealtWith(g: Graph, d: Ref, inside: set<Ref>, changed: set<Ref>)
    requires d < |g|
    requires forall j :: 0 <= j < |Fields(g, d)| && Fields(g, d)[j].nested.Some? ==>
      Fields(g, d)[j].nested.value in changed || Fields(g, d)[j].nested.value !in inside
    ensures forall e :: e in Nesting(g)[d] && e in inside ==> e in changed
  {
  }

  lemma {:induction false} Caught(g: Graph, inside: set<Ref>, d: Ref, changed: set<Ref>, p: seq<Ref>, n: nat)
    requires Closed(g) && d < |g| && Underway(g, inside, d, changed)
    requires Valid(g, d) ==> forall e :: e in Nesting(g)[d] && e in inside ==> e in changed
    requires WalkThrough(g, inside, p) && p[0] == d && n < |p|
    ensures p[n] in changed
    decreases n
  {
    if n > 0 {
      Caught(g, inside, d, changed, p, n - 1);
      assert p[n - 1 + 1] in Nesting(g)[p[n - 1]];
    }
  }

  /** Every record of a is in b, unchanged. */
  ghost predicate Kept(a: map<Ref, Record>, b: map<Ref, Record>) {
    forall k :: k in a ==> k in b && b[k] == a[k]
  }

  /** What b has and a lacks is d or nested in d. */
  ghost predicate NewBelow(g: Graph, d: Ref, a: map<Ref, Record>, b: map<Ref, Record>) {
    forall k :: k in b && k !in a ==> Digraph.Reaches(Nesting(g), d, k)
  }

  /** What differs in two steps, one of them below a structure nested in d, differs below d. */
  lemma {:induction false} NewBelowNested(
      g: Graph, d: Ref, e: Ref, a: map<Ref, Record>, b: map<Ref, Record>, c: map<Ref, Record>)
    requires Closed(g) && d < |g| && e in Nesting(g)[d]
    requires (NewBelow(g, d, a, b) && NewBelow(g, e, b, c)) || (NewBelow(g, e, a, b) && NewBelow(g, d, b, c))
    ensures NewBelow(g, d, a, c)
  {
    forall k | k in c && k !in a && Digraph.Reaches(Nesting(g), e, k) ensures Digraph.Reaches(Nesting(g), d, k) {
      Digraph.ReachesStep(Nesting(g), d, e, k);
    }
  }

  ghost function Below(n: nat): (refs: set<Ref>)
    ensures forall r: Ref :: r in refs <==> r < n
  {
    if n == 0 then {} else Below(n - 1) + {n - 1}
  }

  datatype Request =
    | Register(d: Ref)
    | Unregister(d: Ref)
    | Check(d: Ref)
    | FindField(d: Ref, name: CString)
    | FindSegment(d: Ref, name: CString)

  datatype Answer = Status(code: Code) | Found(field: Outcome<nat>)

  /** An answer to a lookup is the one an empty registry gives. */
  ghost predicate Transparent(g: Graph, request: Request, answer: Answer)
    requires Closed(g) && request.d < |g|
  {
    match request
    case Check(d) => answer == Status(Verdict(g, d))
    case FindField(d, name) => answer == Found(FieldNamed(g, d, name))
    case FindSegment(d, name) => answer == Found(FieldNamed(g, d, name))
    case _ => true
  }

  class Index {
    const graph: Graph
    var created: bool
    var records: map<Ref, Record>

    ghost predicate Valid()
      reads this
    {
      && Closed(graph)
      && (!created ==> records == map[])
      && forall d :: d in records ==> d < |graph| && RecordOk(graph, d, records[d])
    }

    constructor (g: Graph)
      requires Closed(g)
      ensures Valid() && graph == g && records == map[]
    {
      graph, created, records := g, false, map[];
    }

    /** Creates the table on first use; the creation may fail. */
    method EnsureRegistry() returns (ret: Code)
      requires Valid()
      modifies this
      ensures Valid() && records == old(records)
      ensures ret == Ok || ret == OutOfMemory
      ensures ret == Ok ==> created
    {
      if created {
        return Ok;
      }
      var failed: bool := *;
      if failed {
        return OutOfMemory;
      }
      created, records := true, map[];
      return Ok;
    }

    /** The cached result of validation, if the descriptor is registered. */
    method FindValidation(d: Ref) returns (r: Option<Code>)
      requires Valid() && d < |graph|
      ensures r == if d in records then Some(records[d].validation) else None
    {
      return if d in records then Some(records[d].validation) else None;
    }

    method Validate(d: Ref) returns (ret: Code)
      requires Valid() && d < |graph|
      ensures ret == Verdict(graph, d)
    {
      var cached := FindValidation(d);
      if cached.Some? {
        return cached.value;
      }
      ret := Validator.ValidateDescriptor(graph, d);
    }

    /**
     Builds the name table, or gives up: long names, duplicates and failed insertions leave
     no table. The ghost result says whether a hash-table operation failed.
     */
    method BuildFieldNames(d: Ref) returns (r: Option<NameTable>, ghost fault: bool)
      requires Closed(graph) && d < |graph| && Meta.Valid(graph, d)
      ensures r.Some? ==> Exact(r.value, Fields(graph, d))
      ensures !fault ==> (r.Some? <==> Indexable(Fields(graph, d)))
    {
      var fields := Fields(graph, d);
      fault := false;
      if |fields| == 0 {
        return None, fault;
      }
      var i := 0;
      while i < |fields|
        invariant 0 <= i <= |fields|
        invariant forall k :: 0 <= k < i ==> |fields[k].name.value| < FIELD_NAME_BYTES
      {
        if |fields[i].name.value| >= FIELD_NAME_BYTES {
          return None, fault;
        }
        i := i + 1;
      }
      r, fault := FillTable(fields);
    }

    /** The insertions, one per field, until one is refused. */
    method FillTable(fields: seq<Field>) returns (r: Option<NameTable>, ghost fault: bool)
      requires forall i :: 0 <= i < |fields| ==> fields[i].name.Some?
      ensures r.Some? ==> Answers(r.value, fields)
      ensures r.Some? ==> forall j, k :: 0 <= j < k < |fields| ==> fields[j].name != fields[k].name
      ensures r.None? && !fault ==> exists j, k :: 0 <= j < k < |fields| && fields[j].name == fields[k].name
    {
      hide Answers;
      fault := false;
      var failed: bool := *;
      if failed {
        return None, true;
      }
      var table: NameTable := map[];
      var i := 0;
      NoNames(fields[..0]);
      while i < |fields|
        invariant 0 <= i <= |fields| && !fault
        invariant Answers(table, fields[..i])
        invariant forall j, k :: 0 <= j < k < i ==> fields[j].name != fields[k].name
      {
        NameAdded(fields, i, table, fields[i].name.value);
        failed := *;
        if failed || fields[i].name.value in table {
          return None, failed;
        }
        table := table[fields[i].name.value := i];
        i := i + 1;
      }
      assert fields[..i] == fields;
      return Some(table), fault;
    }

    /** The record a registration adds; the insertion may fail. */
    method AddRecord(d: Ref) returns (ret: Code, ghost fault: bool)
      requires Valid() && created && d < |graph| && d !in records
      modifies this
      ensures Valid() && created
      ensures ret == Ok || ret == OutOfMemory
      ensures if ret == Ok then records.Keys == old(records).Keys + {d} else records == old(records)
      ensures !fault ==> ret == Ok
      ensures !fault ==> (records[d].fieldNames.Some? <==> Meta.Valid(graph, d) && Indexable(Fields(graph, d)))
      ensures forall k :: k in old(records) ==> records[k] == old(records)[k]
    {
      fault := false;
      var result := Validate(d);
      var names: Option<NameTable> := None;
      if result == Ok {
        names, fault := BuildFieldNames(d);
      }
      var failed: bool := *;
      if failed {
        return OutOfMemory, true;
      }
      records := records[d := Record(names, result)];
      return Ok, fault;
    }

    /**
     Registers d and everything nested in it that is not registered yet; what is registered
     already stays as it is and is not followed.
     */
    method RegisterDescriptor(d: Ref) returns (ret: Code, ghost fault: bool)
      requires Valid() && created && d < |graph|
      modifies this
      ensures Valid() && created
      ensures ret == Ok || ret == OutOfMemory
      ensures !fault ==> ret == Ok
      ensures ret == Ok ==> d in records && Gained(old(records).Keys, d, records.Keys)
      ensures Kept(old(records), records) && NewBelow(graph, d, old(records), records)
      decreases Below(|graph|) - records.Keys, 0
    {
      ghost var before := records.Keys;
      if d in records {
        NothingFrom(graph, Below(|graph|) - before, d);
        return Ok, false;
      }
      ret, fault := AddRecord(d);
      Digraph.ReachesSelf(Nesting(graph), d);
      if ret != Ok {
        return;
      }
      Start(graph, Below(|graph|) - before, d);
      assert records.Keys - before == {d};
      if records[d].validation != Ok {
        Arrive(graph, Below(|graph|) - before, d, {d});
        return;
      }
      ghost var faultBelow;
      NestedListed(graph, d);
      ret, faultBelow := RegisterNested(d, before);
      fault := fault || faultBelow;
    }

    /** The new keys are those reached from d through descriptors that had no record. */
    ghost predicate Gained(before: set<Ref>, d: Ref, after: set<Ref>)
      requires Closed(graph)
    {
      Exactly(graph, Below(|graph|) - before, d, after - before)
    }

    method RegisterNested(d: Ref, ghost start: set<Ref>) returns (ret: Code, ghost fault: bool)
      requires Valid() && created && d < |graph| && Meta.Valid(graph, d) && PointersListed(graph, d)
      requires start <= records.Keys && Underway(graph, Below(|graph|) - start, d, records.Keys - start)
      modifies this
      ensures Valid() && created
      ensures ret == Ok || ret == OutOfMemory
      ensures !fault ==> ret == Ok
      ensures ret == Ok ==> Gained(start, d, records.Keys)
      ensures Kept(old(records), records) && NewBelow(graph, d, old(records), records)
      decreases Below(|graph|) - records.Keys, 1
    {
      hide RecordOk, Underway, Exactly, Meta.Valid;
      fault := false;
      ghost var inside := Below(|graph|) - start;
      var fields := Fields(graph, d);
      var i := 0;
      while i < |fields|
        invariant 0 <= i <= |fields|
        invariant Valid() && created && start <= records.Keys
        invariant Underway(graph, inside, d, records.Keys - start)
        invariant forall j :: 0 <= j < i && fields[j].nested.Some? ==> fields[j].nested.value in records
        invariant Kept(old(records), records) && NewBelow(graph, d, old(records), records)
      {
        if fields[i].nested.Some? {
          ghost var before := records;
          ghost var e := fields[i].nested.value;
          ghost var faultBelow;
          ret, faultBelow := RegisterDescriptor(fields[i].nested.value);
          fault := fault || faultBelow;
          NewBelowNested(graph, d, e, old(records), before, records);
          if ret != Ok {
            return;
          }
          assert inside - (before.Keys - start) == Below(|graph|) - before.Keys;
          Proceed(graph, inside, d, before.Keys - start, e, records.Keys - before.Keys);
          assert before.Keys - start + (records.Keys - before.Keys) == records.Keys - start;
        }
        i := i + 1;
      }
      AllDealtWith(graph, d, inside, records.Keys - start);
      Arrive(graph, inside, d, records.Keys - start);
      return Ok, fault;
    }

    /**
     Unregisters d and everything nested in it, as far as records lead: a descriptor loses
     its record exactly when a nesting walk from d reaches it through descriptors that had
     records, all but the last of them with validation Ok.
     */
    method UnregisterDescriptor(d: Ref) returns (ret: Code)
      requires Valid() && d < |graph|
      modifies this
      ensures Valid()
      ensures ret == if d in old(records) then Ok else NotFound
      ensures d !in records
      ensures Exactly(graph, old(records).Keys, d, old(records).Keys - records.Keys)
      ensures ret == Ok && Meta.Valid(graph, d) ==> Nesting(graph)[d] !! records.Keys
      ensures Kept(records, old(records)) && NewBelow(graph, d, records, old(records))
      decreases records.Keys, 0
    {
      ghost var inside := records.Keys;
      if d !in records {
        NothingFrom(graph, inside, d);
        return NotFound;
      }
      var result := records[d].validation;
      records := records - {d};
      Digraph.ReachesSelf(Nesting(graph), d);
      Start(graph, inside, d);
      assert inside - records.Keys == {d};
      if result == Ok {
        NestedListed(graph, d);
        UnregisterNested(d, inside);
      } else {
        Arrive(graph, inside, d, {d});
      }
      NestedGone(graph, inside, d, records.Keys);
      return Ok;
    }

    method UnregisterNested(d: Ref, ghost inside: set<Ref>)
      requires Valid() && d < |graph| && Meta.Valid(graph, d) && PointersListed(graph, d)
      requires records.Keys < inside && Underway(graph, inside, d, inside - records.Keys)
      modifies this
      ensures Valid() && records.Keys < inside
      ensures Exactly(graph, inside, d, inside - records.Keys)
      ensures Kept(records, old(records)) && NewBelow(graph, d, records, old(records))
      decreases records.Keys, 1
    {
      hide RecordOk, Underway, Exactly, Meta.Valid;
      var fields := Fields(graph, d);
      var i := 0;
      while i < |fields|
        invariant 0 <= i <= |fields|
        invariant Valid() && records.Keys < inside
        invariant records.Keys <= old(records).Keys
        invariant Underway(graph, inside, d, inside - records.Keys)
        invariant forall j :: 0 <= j < i && fields[j].nested.Some? ==> fields[j].nested.value !in records
        invariant Kept(records, old(records)) && NewBelow(graph, d, records, old(records))
      {
        if fields[i].nested.Some? {
          ghost var before := records;
          ghost var e := fields[i].nested.value;
          var _ := UnregisterDescriptor(fields[i].nested.value);
          NewBelowNested(graph, d, e, records, before, old(records));
          assert inside - (inside - before.Keys) == before.Keys;
          Proceed(graph, inside, d, inside - before.Keys, e, before.Keys - records.Keys);
          assert inside - before.Keys + (before.Keys - records.Keys) == inside - records.Keys;
        }
        i := i + 1;
      }
      AllDealtWith(graph, d, inside, inside - records.Keys);
      Arrive(graph, inside, d, inside - records.Keys);
    }

    method Register(d: Ref) returns (ret: Code, ghost fault: bool)
      requires Valid() && d < |graph|
      modifies this
      ensures Valid()
      ensures ret == Ok || ret == OutOfMemory
      ensures !fault ==> ret == Ok
      ensures ret == Ok ==> d in records && Gained(old(records).Keys, d, records.Keys)
      ensures Kept(old(records), records) && NewBelow(graph, d, old(records), records)
    {
      ret := EnsureRegistry();
      fault := ret != Ok;
      if ret == Ok {
        ret, fault := RegisterDescriptor(d);
      }
    }

    /** The table lookup: Skipped without a table, NotFound when the table has no such name. */
    method FindInTable(d: Ref, name: CString) returns (r: Outcome<nat>)
      requires Valid() && d < |graph|
      ensures r.Success? || r.code == Skipped || r.code == NotFound
      ensures r != Failure(Skipped) ==> Meta.Valid(graph, d) && r == FieldNamed(graph, d, name)
    {
      if d !in records || records[d].fieldNames.None? {
        return Failure(Skipped);
      }
      var table := records[d].fieldNames.value;
      assert FirstField(Fields(graph, d), name) == if name in table then Some(table[name]) else None;
      if |name| >= FIELD_NAME_BYTES || name !in table {
        return Failure(NotFound);
      }
      return Success(table[name]);
    }

    method Scan(d: Ref, name: CString) returns (r: Outcome<nat>)
      requires d < |graph|
      ensures r == match FirstField(Fields(graph, d), name) case Some(i) => Success(i) case None => Failure(NotFound)
    {
      var fields := Fields(graph, d);
      var i := 0;
      while i < |fields|
        invariant 0 <= i <= |fields|
        invariant forall k :: 0 <= k < i ==> fields[k].name != Some(name)
      {
        if fields[i].name == Some(name) {
          return Success(i);
        }
        i := i + 1;
      }
      return Failure(NotFound);
    }

    /** The field search of a path segment, on a descriptor already validated. */
    method FindFieldSegment(d: Ref, name: CString) returns (r: Outcome<nat>)
      requires Valid() && d < |graph| && Meta.Valid(graph, d)
      ensures r == FieldNamed(graph, d, name)
    {
      r := FindInTable(d, name);
      if r == Failure(Skipped) {
        r := Scan(d, name);
      }
    }

    method FindField(d: Ref, name: CString) returns (r: Outcome<nat>)
      requires Valid() && d < |graph|
      ensures r == FieldNamed(graph, d, name)
    {
      var ret := Validate(d);
      if ret != Ok {
        return Failure(ret);
      }
      r := FindInTable(d, name);
      if r == Failure(Skipped) {
        r := Scan(d, name);
      }
    }

    /** Every request, with the keys before and after it as the requirements see them. */
    method Serve(request: Request) returns (answer: Answer, ghost fault: bool)
      requires Valid() && request.d < |graph|
      modifies this
      ensures Valid() && Transparent(graph, request, answer)
      ensures Effect(graph, request, answer, fault, old(records).Keys, records.Keys)
    {
      fault := false;
      match request
      case Register(d) =>
        var ret;
        ret, fault := Register(d);
        answer := Status(ret);
      case Unregister(d) =>
        var ret := UnregisterDescriptor(d);
        answer := Status(ret);
      case Check(d) =>
        var ret := Validate(d);
        answer := Status(ret);
      case FindField(d, name) =>
        var r := FindField(d, name);
        answer := Found(r);
      case FindSegment(d, name) =>
        var ret := Validate(d);
        if ret != Ok {
          answer := Found(Failure(ret));
        } else {
          var r := FindFieldSegment(d, name);
          answer := Found(r);
        }
    }
  }

  /**
   What a request does to the set of registered descriptors, and the code it reports.
   A registration fails only if the hash table does, and then has added some of what it
   would have added.
   */
  ghost predicate Effect(g: Graph, request: Request, answer: Answer, fault: bool, before: set<Ref>, after: set<Ref>)
    requires Closed(g)
  {
    match request
    case Register(d) =>
      && before <= after
      && (answer == Status(Ok) || (fault && answer == Status(OutOfMemory)))
      && (answer == Status(Ok) ==> Exactly(g, Below(|g|) - before, d, after - before))
    case Unregister(d) =>
      && answer == Status(if d in before then Ok else NotFound)
      && after <= before && Exactly(g, before, d, before - after)
    case _ => after == before
  }

  /**
   Over every history of requests, no lookup can tell what has been registered, and the
   codes of registrations follow from the keys alone.
   */
  method Run(g: Graph, requests: seq<Request>)
    returns (answers: seq<Answer>, ghost keys: seq<set<Ref>>, ghost faults: seq<bool>)
    requires Closed(g) && forall i :: 0 <= i < |requests| ==> requests[i].d < |g|
    ensures |answers| == |faults| == |requests| && |keys| == |requests| + 1 && keys[0] == {}
    ensures forall i :: 0 <= i < |requests| ==> Transparent(g, requests[i], answers[i])
    ensures forall i :: 0 <= i < |requests| ==> Effect(g, requests[i], answers[i], faults[i], keys[i], keys[i + 1])
  {
    var index := new Index(g);
    answers := [];
    keys, faults := [{}], [];
    var i := 0;
    while i < |requests|
      invariant 0 <= i == |answers| == |faults| <= |requests| && |keys| == i + 1 && keys[0] == {}
      invariant fresh(index) && index.Valid() && index.graph == g && keys[i] == index.records.Keys
      invariant forall k :: 0 <= k < i ==> Transparent(g, requests[k], answers[k])
      invariant forall k :: 0 <= k < i ==> Effect(g, requests[k], answers[k], faults[k], keys[k], keys[k + 1])
    {
      hide Transparent, Effect;
      var answer, fault := index.Serve(requests[i]);
      answers := answers + [answer];
      keys, faults := keys + [index.records.Keys], faults + [fault];
      i := i + 1;
    }
  }
}
