/**
 From a parsed header to addresses and generated code: what the parts guarantee together
 for every catalog that is built from a header.
 */
module Pipeline {
  import opened Base
  import opened Arithmetic
  import opened Meta
  import opened Layout
  import opened Ast
  import opened Build
  import opened Built
  import opened Paths
  import opened PathText
  import opened PathLayout
  import opened Catalogs
  import opened Emit
  import Digraph
  import Json
  import Registry
  import Transport

  /**
   In a header that builds and validates, any path resolved from an aligned instance
   stays inside the instance and is aligned for what it names.
   */
  lemma {:induction false} HeaderPathsAreSafe(header: Header, g: Graph, d: Ref, address: nat, text: CString, k: nat)
    requires IsBuilt(header, g) && Closed(g) && d < |g| && ValidWithin(g, d, k)
    requires ResolveFrom(g, d, address, text, k).Success?
    ensures forall i: nat :: i < |header| ==> Laid(header, i)
    ensures Divides(AlignmentOf(Ideal(header, d)), address) ==>
      var t := ResolveFrom(g, d, address, text, k).value;
      TargetInside(g, t, address, address + g[d].size) && TargetAligned(g, Alignments(header), t)
  {
    BuiltIsAligned(header, g);
    ResolvedInside(g, d, address, text, k);
    if Divides(AlignmentOf(Ideal(header, d)), address) {
      ResolvedAligned(g, Alignments(header), d, address, text, k);
    }
  }

  /** And two paths to different leaves never name a common byte. */
  lemma {:induction false} HeaderLeavesAreApart(
      header: Header, g: Graph, d: Ref, address: nat, a: seq<Step>, b: seq<Step>, k: nat)
    requires IsBuilt(header, g) && Closed(g) && d < |g| && ValidWithin(g, d, k) && StepsOk(a) && StepsOk(b)
    requires Follow(g, d, address, a, k).Success? && Follow(g, d, address, b, k).Success?
    requires TraceOf(g, d, address, a, k) != TraceOf(g, d, address, b, k)
    ensures var s, t := Follow(g, d, address, a, k).value, Follow(g, d, address, b, k).value;
      && s.d < |g| && s.field < |Fields(g, s.d)| && t.d < |g| && t.field < |Fields(g, t.d)|
      && (AtLeaf(g, s) && AtLeaf(g, t) ==>
          Apart((s.address, TargetExtent(g, s)), (t.address, TargetExtent(g, t))))
  {
    BuiltIsOrdered(header, g);
    PathsApart(g, d, address, a, b, k);
  }

  /** For such a header, JSON restores every encodable instance exactly under the static condition. */
  lemma {:induction false} HeaderRoundTripIff(
      header: Header, g: Graph, ops: Json.Floats, d: Ref, n: nat, base: nat, k: nat)
    requires IsBuilt(header, g) && Closed(g) && d < |g| && ValidWithin(g, d, k) && base + g[d].size <= n
    requires Transport.AllVary(g, d, k) && Transport.StructRepresentable(g, d, k)
    ensures Transport.EveryInstanceRestored(ops, g, d, n, base, k) <==> Transport.StructTransports(ops, g, d, k)
  {
    BuiltIsOrdered(header, g);
    Transport.EveryInstanceRestoredIff(ops, g, d, n, base, k);
  }

  // ------------------------------------------------------------------ catalogs

  ghost predicate StructNamesDiffer(header: Header) {
    forall i, j :: 0 <= i < j < |header| ==> header[i].name != header[j].name
  }

  function AllRefs(n: nat): (refs: seq<Ref>)
    ensures |refs| == n && forall i :: 0 <= i < n ==> refs[i] == i
  {
    seq(n, i => i)
  }

  lemma {:induction false} BuiltNames(header: Header, g: Graph)
    requires IsBuilt(header, g)
    ensures forall d: Ref :: d < |g| ==> g[d].name == Some(header[d].name)
  {
    forall d: Ref | d < |g| ensures g[d].name == Some(header[d].name) {
      assert Describes(header, d, g[d]);
    }
  }

  /** The catalog and the registry after it, for a graph and the structs it was built from. */
  ghost predicate CatalogOf(header: Header, catalog: Catalog, index: Registry.Index)
    reads catalog, index
  {
    && catalog.Valid() && index.Valid() && index.graph == catalog.graph
    && catalog.descriptors == AllRefs(|header|) && catalog.names.Some?
  }

  /** Indexes and registers built descriptors; without an index the catalog is destroyed. */
  method Assemble(header: Header, g: Graph) returns (r: Outcome<(Catalog, Registry.Index)>, ghost fault: bool)
    requires Closed(g) && |g| == |header| && forall d: Ref :: d < |g| ==> g[d].name == Some(header[d].name)
    ensures r.Success? ==> fresh(r.value.0) && fresh(r.value.1) && r.value.0.graph == g
    ensures r.Success? ==> CatalogOf(header, r.value.0, r.value.1) && StructNamesDiffer(header)
    ensures r.Success? && !fault ==> forall d: Ref :: d < |header| ==> d in r.value.1.records
    ensures !fault && r.Failure? ==> r.code == DuplicateKey && !StructNamesDiffer(header)
  {
    var index := new Registry.Index(g);
    var catalog := new Catalog(g, AllRefs(|header|));
    var ret;
    ret, fault := catalog.CreateIndex();
    assert catalog.NamesDiffer() <==> StructNamesDiffer(header) by {
      assert forall i :: 0 <= i < |header| ==> catalog.NameOf(i) == header[i].name;
    }
    if ret != Ok {
      catalog.Destroy(index);
      return Failure(ret), fault;
    }
    fault := catalog.RegisterAll(index);
    forall d: Ref | !fault && d < |header| ensures d in index.records {
      assert AllRefs(|header|)[d] in catalog.descriptors;
    }
    return Success((catalog, index)), fault;
  }

  /**
   A catalog for a parsed header, in a process that has registered nothing yet. Unless the
   hash table fails, there is one exactly when the header can be built and no two
   structures share a name, and then every structure is registered.
   */
  method CreateFromStructs(header: Header) returns (r: Outcome<(Catalog, Registry.Index)>, ghost fault: bool)
    ensures r.Success? ==> fresh(r.value.0) && fresh(r.value.1) && IsBuilt(header, r.value.0.graph)
    ensures r.Success? ==> CatalogOf(header, r.value.0, r.value.1) && Buildable(header) && StructNamesDiffer(header)
    ensures r.Success? && !fault ==> forall d: Ref :: d < |header| ==> d in r.value.1.records
    ensures !fault && Buildable(header) && StructNamesDiffer(header) ==> r.Success?
    ensures !fault && r.Failure? ==> Blamed(header, r.code) || (r.code == DuplicateKey && !StructNamesDiffer(header))
  {
    hide Buildable, Blamed, Describes, CatalogOf;
    var built := BuildDescriptors(header);
    if built.Failure? {
      return Failure(built.code), false;
    }
    BuiltIsClosed(header, built.value);
    BuiltNames(header, built.value);
    r, fault := Assemble(header, built.value);
  }

  // ------------------------------------------------------------ generated code

  lemma {:induction false} BuiltLinks(header: Header, g: Graph, d: Ref)
    requires IsBuilt(header, g) && Closed(g) && d < |g|
    ensures Links(g)[d] == Containment(header)[d]
  {
    assert Describes(header, d, g[d]);
    forall j | 0 <= j < |Fields(g, d)|
      ensures Fields(g, d)[j].nested.Some? <==> header[d].fields[j].isStruct
      ensures header[d].fields[j].isStruct ==> Fields(g, d)[j].nested == FirstStruct(header, header[d].fields[j].typeName)
    {
      BuiltField(header, g, d, j);
      BuiltNested(header, g, d, j);
      PlacedNesting(header, g, d, j);
    }
  }

  lemma {:induction false} BuiltIsEmittable(header: Header, g: Graph)
    requires IsBuilt(header, g) && Buildable(header) && StructNamesDiffer(header)
    ensures Closed(g) && NamesDistinct(g)
    ensures forall d: Ref :: d < |g| ==> Emittable(g, d)
  {
    BuiltIsClosed(header, g);
    BuiltNames(header, g);
    forall d: Ref | d < |g| ensures Links(g)[d] == Containment(header)[d] {
      BuiltLinks(header, g, d);
    }
    assert Links(g) == Containment(header);
    forall d: Ref, r: nat | d < |g| && Digraph.Reaches(Links(g), d, r) ensures !Digraph.OnCycle(Links(g), r) {
      var p :| Digraph.WalkFromTo(Links(g), p, d, r);
    }
    forall d: Ref, e: Ref | d < |g| && e < |g| && g[d].name == g[e].name ensures d == e {
      assert header[d].name == header[e].name;
    }
  }

  /** For a header with a catalog, the generator writes every structure once, after all it contains. */
  method GenerateFor(header: Header, g: Graph) returns (output: seq<Ref>)
    requires IsBuilt(header, g) && Buildable(header) && StructNamesDiffer(header)
    ensures Topological(g, output)
    ensures |output| == |header| && forall d: Ref :: d < |header| ==> d in output
  {
    BuiltIsEmittable(header, g);
    output := EmitCatalog(g, AllRefs(|g|));
    forall d: Ref | d < |g| ensures d in output {
      assert AllRefs(|g|)[d] in AllRefs(|g|);
    }
    DistinctBound(output, |g|);
    EveryOneListed(output, |g|);
  }

  lemma {:induction false} EveryOneListed(s: seq<nat>, n: nat)
    requires forall d: nat :: d < n ==> d in s
    ensures |s| >= n
    decreases n
  {
    if n > 0 {
      assert n - 1 in s;
      var i :| 0 <= i < |s| && s[i] == n - 1;
      var rest := s[..i] + s[i + 1..];
      forall d: nat | d < n - 1 ensures d in rest {
        assert d in s;
        var j :| 0 <= j < |s| && s[j] == d;
        assert rest[if j < i then j else j - 1] == d;
      }
      EveryOneListed(rest, n - 1);
    }
  }
}
