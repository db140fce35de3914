/**
 The order in which the code generator emits descriptors: every structure exactly once,
 after everything it contains.
 */
module Emit {
  import opened Base
  import opened Meta
  import Digraph

  /** Which descriptor points to which, as the generator follows the pointers. */
  ghost function Links(g: Graph): (G: Digraph.Graph)
    ensures |G| == |g|
    ensures Closed(g) ==> Digraph.Closed(G)
  {
    seq(|g|, d requires 0 <= d < |g| =>
      set i | 0 <= i < |Fields(g, d)| && Fields(g, d)[i].nested.Some? :: Fields(g, d)[i].nested.value)
  }

  /** Different descriptors have different names, as a catalog's index guarantees. */
  ghost predicate NamesDistinct(g: Graph) {
    && (forall d: Ref :: d < |g| ==> g[d].name.Some?)
    && (forall d: Ref, e: Ref :: d < |g| && e < |g| && g[d].name == g[e].name ==> d == e)
  }

  /** Everything nested in output[p] has been written before it. */
  ghost predicate After(g: Graph, output: seq<Ref>, p: nat)
    requires p < |output| && output[p] < |g|
  {
    forall e :: e in Links(g)[output[p]] ==> e in output[..p]
  }

  /** No descriptor twice, and each one after all it contains. */
  ghost predicate Topological(g: Graph, output: seq<Ref>) {
    && Distinct(output)
    && (forall p :: 0 <= p < |output| ==> output[p] < |g|)
    && (forall p :: 0 <= p < |output| ==> After(g, output, p))
  }

  lemma {:induction false} TopologicalExtends(g: Graph, output: seq<Ref>, d: Ref)
    requires Topological(g, output) && d < |g| && d !in output
    requires forall e :: e in Links(g)[d] ==> e in output
    ensures Topological(g, output + [d])
  {
    var more := output + [d];
    forall p | 0 <= p < |more| ensures more[p] < |g| && After(g, more, p) {
      if p < |output| {
        assert more[..p] == output[..p];
        assert After(g, output, p);
      } else {
        assert more[..p] == output;
      }
    }
  }

  class Emitter {
    const graph: Graph
    /** Names already written, newest first. */
    var emitted: seq<CString>
    /** Descriptors in the order their definitions appear in the file. */
    var output: seq<Ref>

    ghost predicate Valid()
      reads this
    {
      && Closed(graph) && NamesDistinct(graph) && Topological(graph, output)
      && (forall d: Ref :: d < |graph| ==> (graph[d].name.value in emitted <==> d in output))
    }

    constructor (g: Graph)
      requires Closed(g) && NamesDistinct(g)
      ensures Valid() && graph == g && output == []
    {
      graph, emitted, output := g, [], [];
    }

    method IsEmitted(name: CString) returns (found: bool)
      ensures found <==> name in emitted
    {
      var i := 0;
      while i < |emitted|
        invariant 0 <= i <= |emitted|
        invariant name !in emitted[..i]
      {
        if emitted[i] == name {
          return true;
        }
        i := i + 1;
      }
      return false;
    }

    /** Writes the definition of d and remembers its name. */
    method Write(d: Ref)
      requires Valid() && d < |graph| && d !in output
      requires forall e :: e in Links(graph)[d] ==> e in output
      modifies this
      ensures Valid() && output == old(output) + [d]
    {
      TopologicalExtends(graph, output, d);
      output := output + [d];
      emitted := [graph[d].name.value] + emitted;
    }

    /** Emits d after its nested structures; a name already emitted is skipped. */
    method EmitStruct(d: Ref, ghost k: nat)
      requires Valid() && d < |graph| && Digraph.Grounded(Links(graph), d, k)
      modifies this
      ensures Valid() && d in output && old(output) <= output
      ensures forall x :: x in output && x !in old(output) ==> Digraph.Reaches(Links(graph), d, x)
      decreases k
    {
      Digraph.ReachesSelf(Links(graph), d);
      var found := IsEmitted(graph[d].name.value);
      if found {
        return;
      }
      var fields := Fields(graph, d);
      var i := 0;
      while i < |fields|
        invariant 0 <= i <= |fields|
        invariant Valid() && old(output) <= output
        invariant forall j :: 0 <= j < i && fields[j].nested.Some? ==> fields[j].nested.value in output
        invariant forall x :: x in output && x !in old(output) ==> Digraph.Reaches(Links(graph), d, x) && x != d
      {
        if fields[i].nested.Some? {
          var e := fields[i].nested.value;
          ghost var before := output;
          assert e in Links(graph)[d];
          EmitStruct(e, k - 1);
          forall x | x in output && x !in before ensures Digraph.Reaches(Links(graph), d, x) && x != d {
            Digraph.ReachesStep(Links(graph), d, e, x);
            NotBelowItself(graph, d, e, k);
          }
        }
        i := i + 1;
      }
      Write(d);
    }
  }

  lemma {:induction false} NotBelowItself(g: Graph, d: Ref, e: Ref, k: nat)
    requires Closed(g) && d < |g| && Digraph.Grounded(Links(g), d, k) && e in Links(g)[d]
    ensures !Digraph.Reaches(Links(g), e, d)
  {
    if Digraph.Reaches(Links(g), e, d) {
      var p :| Digraph.WalkFromTo(Links(g), p, e, d);
      assert Digraph.WalkFromTo(Links(g), [d] + p, d, d);
      assert Digraph.OnCycle(Links(g), d);
      Digraph.GroundedNotOnCycle(Links(g), d, k);
    }
  }

  /** x is nested in some descriptor of the catalog. */
  ghost predicate FromCatalog(g: Graph, catalog: seq<Ref>, x: Ref) {
    exists d :: d in catalog && Digraph.Reaches(Links(g), d, x)
  }

  lemma {:induction false} GroundedHere(g: Graph, d: Ref) returns (k: nat)
    requires Closed(g) && d < |g| && !Digraph.CycleBelow(Links(g), d)
    ensures Digraph.Grounded(Links(g), d, k)
  {
    Digraph.GroundedIffNoCycleBelow(Links(g), d);
    k :| Digraph.Grounded(Links(g), d, k);
  }

  ghost predicate Emittable(g: Graph, d: Ref) {
    d < |g| && !Digraph.CycleBelow(Links(g), d)
  }

  /** The generator's loop over a catalog: the emitted order is topological and complete. */
  method EmitCatalog(g: Graph, catalog: seq<Ref>) returns (output: seq<Ref>)
    requires Closed(g) && NamesDistinct(g)
    requires forall d :: d in catalog ==> Emittable(g, d)
    ensures Topological(g, output)
    ensures forall d :: d in catalog ==> d in output
    ensures forall x :: x in output ==> FromCatalog(g, catalog, x)
  {
    var emitter := new Emitter(g);
    var i := 0;
    while i < |catalog|
      invariant 0 <= i <= |catalog|
      invariant fresh(emitter) && emitter.Valid() && emitter.graph == g
      invariant forall j :: 0 <= j < i ==> catalog[j] in emitter.output
      invariant forall x :: x in emitter.output ==> FromCatalog(g, catalog, x)
    {
      ghost var before := emitter.output;
      assert Emittable(g, catalog[i]);
      ghost var k := GroundedHere(g, catalog[i]);
      emitter.EmitStruct(catalog[i], k);
      forall x | x in emitter.output ensures FromCatalog(g, catalog, x) {
        if x !in before {
          assert Digraph.Reaches(Links(g), catalog[i], x);
        }
      }
      i := i + 1;
    }
    output := emitter.output;
  }
}
