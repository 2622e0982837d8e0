/** typeTag and goType follow slices without a record of visited nodes. They return all the same
    after resolveEmptySlices has closed cycles (cmd/themegen/config_infer.go, config_emit.go). */
module SliceChains {
  import opened Wrappers
  import opened TypeGraph
  import opened Trees
  import opened Resolve
  import Shapes
  import Merge
  import Collapse

  ghost predicate IsFieldType(g: Graph, t: TypeSpec) {
    exists m <- g | g[m].kind == KindStruct :: exists f <- g[m].fields :: f.typ == t
  }

  ghost predicate IsElement(g: Graph, t: TypeSpec) {
    exists m <- g :: g[m].kind == KindSlice && g[m].element == t
  }

  /** No slice is both a field's type and another slice's element. */
  ghost predicate SeparateRoles(g: Graph) {
    forall t <- g | g[t].kind == KindSlice :: !(IsFieldType(g, t) && IsElement(g, t))
  }

  /** So it is in a tree, where each node has one parent. */
  lemma OneRole(g: Graph, root: TypeSpec, s: Shapes.Shape, t: TypeSpec)
    requires Tree(g, root, s) && NodesOf(g, root, s) == g.Keys && IsFieldType(g, t)
    ensures !IsElement(g, t)
  {
    var m :| m in g && g[m].kind == KindStruct && exists f <- g[m].fields :: f.typ == t;
    var f :| f in g[m].fields && f.typ == t;
    var i :| 0 <= i < |g[m].fields| && g[m].fields[i] == f;
    assert t == Children(g[m])[i];
    forall m' <- g | g[m'].kind == KindSlice
      ensures g[m'].element != t
    {
      if t in Children(g[m']) {
        OneParent(g, root, s, m, m', t);
      }
    }
  }

  lemma TreeSeparates(g: Graph, root: TypeSpec, s: Shapes.Shape)
    requires Tree(g, root, s) && NodesOf(g, root, s) == g.Keys
    ensures SeparateRoles(g) && Closed(g) && ChainsEnd(g, Merge.Depth(s))
  {
    TreeClosed(g, root, s);
    forall t <- g
      ensures Ends(g, t, Merge.Depth(s)) && !(IsFieldType(g, t) && IsElement(g, t))
    {
      TreeEnds(g, root, s, t);
      if IsFieldType(g, t) {
        OneRole(g, root, s, t);
      }
    }
  }

  /** Below a slice the pass changes no element: only slices that are field types are filled. */
  lemma {:induction false} ElementChainKept(g0: Graph, g: Graph, candidates: map<string, TypeSpec>, t: TypeSpec, k: nat)
    requires Grown(g0, g, candidates) && SeparateRoles(g0)
    requires t in g0 && IsElement(g0, t) && Ends(g0, t, k)
    ensures Ends(g, t, k)
    decreases k
  {
    assert NodeGrown(g0, g, t, candidates);
    if g0[t].kind == KindSlice {
      assert !IsFieldType(g0, t);
      if g[t].element != g0[t].element {
        ResolvedIsFieldType(g0, t, g[t].element, candidates);
      } else if g0[t].element != null {
        assert IsElement(g0, g0[t].element);
        ElementChainKept(g0, g, candidates, g0[t].element, k - 1);
      }
    }
  }

  lemma ResolvedIsFieldType(g: Graph, t: TypeSpec, e: TypeSpec, candidates: map<string, TypeSpec>)
    requires Resolves(g, t, e, candidates)
    ensures IsFieldType(g, t)
  {
    var m :| m in g && g[m].kind == KindStruct && exists f <- g[m].fields :: f.typ == t && f.name in candidates && candidates[f.name] == e;
    var f :| f in g[m].fields && f.typ == t;
  }

  /** The candidates are elements themselves. */
  lemma CandidatesAreElements(g: Graph, calls: seq<TypeSpec>, name: string)
    requires name in Candidates(g, calls)
    ensures IsElement(g, Candidates(g, calls)[name])
  {
    CandidatesExact(g, calls);
    var e := Candidates(g, calls)[name];
    assert KnownToSome(g, calls, name, e);
    var n :| n in calls && Knows(g, n, name, e);
    var f :| f in g[n].fields && f.name == name && KnownSlice(g, f.typ) && g[f.typ].element == e;
  }

  lemma CandidateEnds(g0: Graph, g: Graph, root: TypeSpec, name: string, bound: nat)
    requires name in Candidates(g0, Walk(g0, root, {}))
    requires Grown(g0, g, Candidates(g0, Walk(g0, root, {}))) && SeparateRoles(g0) && ChainsEnd(g0, bound)
    ensures Ends(g, Candidates(g0, Walk(g0, root, {}))[name], bound)
  {
    var candidates := Candidates(g0, Walk(g0, root, {}));
    CandidatesAreElements(g0, Walk(g0, root, {}), name);
    assert candidates[name] in candidates.Values;
    assert Ends(g0, candidates[name], bound);
    ElementChainKept(g0, g, candidates, candidates[name], bound);
  }

  /** Filling the empty slices of a tree makes cycles, but none of slices alone. */
  lemma ResolvedChainsEnd(g0: Graph, g: Graph, root: TypeSpec, bound: nat)
    requires Grown(g0, g, Candidates(g0, Walk(g0, root, {}))) && SeparateRoles(g0) && ChainsEnd(g0, bound)
    ensures ChainsEnd(g, bound + 1)
  {
    var candidates := Candidates(g0, Walk(g0, root, {}));
    forall t <- g
      ensures Ends(g, t, bound + 1)
    {
      if t !in g0 {
        var name :| name in candidates && candidates[name] == g[t].element;
        CandidateEnds(g0, g, root, name, bound);
      } else {
        assert NodeGrown(g0, g, t, candidates);
        if g[t].kind == KindSlice && g[t].element != null {
          if g[t].element == g0[t].element {
            assert IsElement(g0, g0[t].element);
            assert g0[t].element in Children(g0[t]);
            assert Ends(g0, g0[t].element, bound);
            ElementChainKept(g0, g, candidates, g0[t].element, bound);
          } else {
            assert Resolves(g0, t, g[t].element, candidates);
            var m :| m in g0 && g0[m].kind == KindStruct &&
                     exists f <- g0[m].fields :: f.typ == t && f.name in candidates && candidates[f.name] == g[t].element;
            var f :| f in g0[m].fields && f.typ == t && f.name in candidates && candidates[f.name] == g[t].element;
            CandidateEnds(g0, g, root, f.name, bound);
          }
        }
      }
    }
  }

  /** Taking over fields touches no element. */
  lemma CollapsedChainsEnd(g: Graph, steps: seq<Collapse.Step>, last: Graph, all: seq<TypeSpec>, same: Collapse.Oracle, bound: nat)
    requires ChainsEnd(g, bound) && Collapse.IsRun(g, steps, last, all, same)
    ensures last.Keys == g.Keys && ChainsEnd(last, bound)
  {
    KeysKept(g, steps, last, all, same);
    forall n <- g
      ensures last[n].kind == g[n].kind && last[n].element == g[n].element
    {
      Collapse.RunGrowsNames(g, steps, last, all, same, n);
    }
    forall t <- last
      ensures Ends(last, t, bound)
    {
      assert Ends(g, t, bound);
      SameElementsEnd(g, last, t, bound);
    }
  }

  lemma {:induction false} KeysKept(g: Graph, steps: seq<Collapse.Step>, last: Graph, all: seq<TypeSpec>, same: Collapse.Oracle)
    requires Collapse.IsRun(g, steps, last, all, same)
    ensures last.Keys == g.Keys
    decreases |steps|
  {
    if steps != [] {
      KeysKept(Collapse.Apply(g, steps[0]), steps[1..], last, all, same);
    }
  }
}
