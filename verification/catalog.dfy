/**
 Catalogs of descriptors: the name index, registration on creation, and destruction,
 which leaves none of the catalog's descriptors in the registry.
 */
module Catalogs {
  import opened Base
  import opened Meta
  import Digraph
  import Registry

  class Catalog {
    const graph: Graph
    const descriptors: seq<Ref>
    var names: Option<map<CString, nat>>

    /** Descriptors are in memory and named, as built and generated ones are. */
    ghost predicate Valid()
      reads this
    {
      && Closed(graph)
      && (forall i :: 0 <= i < |descriptors| ==> descriptors[i] < |graph| && graph[descriptors[i]].name.Some?)
      && (names.Some? ==> IsIndex(names.value, |descriptors|))
    }

    /** The table maps the names of the first n descriptors, all different, to their positions. */
    ghost predicate IsIndex(table: map<CString, nat>, n: nat)
      requires n <= |descriptors|
      requires forall i :: 0 <= i < |descriptors| ==> descriptors[i] < |graph| && graph[descriptors[i]].name.Some?
    {
      && (forall i :: 0 <= i < n ==> NameOf(i) in table && table[NameOf(i)] == i)
      && (forall name :: name in table ==> table[name] < n && NameOf(table[name]) == name)
    }

    ghost function NameOf(i: nat): CString
      requires i < |descriptors| && descriptors[i] < |graph| && graph[descriptors[i]].name.Some?
    {
      graph[descriptors[i]].name.value
    }

    ghost predicate NamesDiffer()
      requires Valid()
      reads this
    {
      forall i, j :: 0 <= i < j < |descriptors| ==> NameOf(i) != NameOf(j)
    }

    constructor (g: Graph, refs: seq<Ref>)
      requires Closed(g) && forall i :: 0 <= i < |refs| ==> refs[i] < |g| && g[refs[i]].name.Some?
      ensures Valid() && graph == g && descriptors == refs && names == None
    {
      graph, descriptors, names := g, refs, None;
    }

    /**
     Indexes the names. Unless the hash table fails, this succeeds exactly when the names
     are distinct; the caller destroys a catalog left without an index.
     */
    method CreateIndex() returns (ret: Code, ghost fault: bool)
      requires Valid()
      modifies this
      ensures Valid()
      ensures names.Some? <==> ret == Ok
      ensures ret == Ok || ret == OutOfMemory || ret == DuplicateKey
      ensures ret == Ok ==> NamesDiffer()
      ensures !fault ==> ret != OutOfMemory && (ret == Ok <==> NamesDiffer())
    {
      names := None;
      fault := false;
      var failed: bool := *;
      if failed {
        return OutOfMemory, true;
      }
      var table: map<CString, nat> := map[];
      var i := 0;
      while i < |descriptors|
        invariant 0 <= i <= |descriptors|
        invariant Valid() && names == None && !fault && IsIndex(table, i)
      {
        assert NameOf(i) in table ==> table[NameOf(i)] < i && NameOf(table[NameOf(i)]) == NameOf(i);
        failed := *;
        if failed || graph[descriptors[i]].name.value in table {
          return DuplicateKey, failed;
        }
        table := table[graph[descriptors[i]].name.value := i];
        i := i + 1;
      }
      names := Some(table);
      return Ok, fault;
    }

    /** Finds the one descriptor with the given name. */
    method Find(name: CString) returns (r: Outcome<Ref>)
      requires Valid()
      ensures names.None? ==> r == Failure(InvalidArgument)
      ensures names.Some? && r.Success? ==> r.value in descriptors && graph[r.value].name == Some(name)
      ensures names.Some? && r.Failure? ==>
        r.code == NotFound && forall i :: 0 <= i < |descriptors| ==> NameOf(i) != name
    {
      if names.None? {
        return Failure(InvalidArgument);
      }
      if name !in names.value {
        return Failure(NotFound);
      }
      return Success(descriptors[names.value[name]]);
    }

    /** Registers every descriptor; failures are ignored because the registry is only a cache. */
    method RegisterAll(index: Registry.Index) returns (ghost fault: bool)
      requires Valid() && index.Valid() && index.graph == graph
      modifies index
      ensures index.Valid()
      ensures !fault ==> forall d :: d in descriptors ==> d in index.records
      ensures Registry.Kept(old(index.records), index.records)
      ensures forall k :: k in index.records && k !in old(index.records) ==>
        exists d :: d in descriptors && Digraph.Reaches(Nesting(graph), d, k)
    {
      hide Registry.Exactly, Registry.RecordOk;
      fault := false;
      var i := 0;
      while i < |descriptors|
        invariant 0 <= i <= |descriptors|
        invariant index.Valid()
        invariant !fault ==> forall j :: 0 <= j < i ==> descriptors[j] in index.records
        invariant Registry.Kept(old(index.records), index.records)
        invariant forall k :: k in index.records && k !in old(index.records) ==>
          exists d :: d in descriptors && Digraph.Reaches(Nesting(graph), d, k)
      {
        var _, faultHere := index.Register(descriptors[i]);
        fault := fault || faultHere;
        i := i + 1;
      }
    }

    /**
     Unregisters every descriptor. Whatever was registered before, none of them remains,
     and only descriptors nested in them can have gone with them.
     */
    method Destroy(index: Registry.Index)
      requires Valid() && index.Valid() && index.graph == graph
      modifies index
      ensures index.Valid()
      ensures forall d :: d in descriptors ==> d !in index.records
      ensures Registry.Kept(index.records, old(index.records))
      ensures forall k :: k in old(index.records) && k !in index.records ==>
        exists d :: d in descriptors && Digraph.Reaches(Nesting(graph), d, k)
    {
      hide Registry.Exactly, Registry.RecordOk;
      var i := 0;
      while i < |descriptors|
        invariant 0 <= i <= |descriptors|
        invariant index.Valid()
        invariant forall j :: 0 <= j < i ==> descriptors[j] !in index.records
        invariant Registry.Kept(index.records, old(index.records))
        invariant forall k :: k in old(index.records) && k !in index.records ==>
          exists d :: d in descriptors && Digraph.Reaches(Nesting(graph), d, k)
      {
        var _ := index.UnregisterDescriptor(descriptors[i]);
        i := i + 1;
      }
    }
  }
}
