/** resolveEmptySlices: unknown slice elements are filled in place from fields of the same
    name, while the walk is running and possibly closing cycles. */
module Resolve {
  import opened Sets
  import opened Wrappers
  import opened TypeGraph
  import Shapes

  // ---------- candidates: the first known element per field name ----------

  ghost predicate KnownSlice(g: Graph, t: TypeSpec) {
    t in g && g[t].kind == KindSlice && g[t].element != null
  }

  ghost function FieldCandidates(g: Graph, fields: seq<FieldSpec>, found: map<string, TypeSpec>): map<string, TypeSpec> {
    if fields == [] then found else
      var k := |fields| - 1;
      var init := FieldCandidates(g, fields[..k], found);
      if KnownSlice(g, fields[k].typ) && fields[k].name !in init
      then init[fields[k].name := g[fields[k].typ].element]
      else init
  }

  ghost function Candidates(g: Graph, calls: seq<TypeSpec>): map<string, TypeSpec> {
    if calls == [] then map[] else
      var k := |calls| - 1;
      var init := Candidates(g, calls[..k]);
      if calls[k] in g && g[calls[k]].kind == KindStruct
      then FieldCandidates(g, g[calls[k]].fields, init)
      else init
  }

  /** n has a field of this name whose slice element is known to be e. */
  ghost predicate Knows(g: Graph, n: TypeSpec, name: string, e: TypeSpec) {
    && n in g && g[n].kind == KindStruct
    && exists f <- g[n].fields :: f.name == name && KnownSlice(g, f.typ) && g[f.typ].element == e
  }

  lemma {:induction false} FieldCandidatesExact(g: Graph, fields: seq<FieldSpec>, found: map<string, TypeSpec>)
    ensures var r := FieldCandidates(g, fields, found);
            && (forall name <- found :: name in r && r[name] == found[name])
            && (forall name <- r :: name in found ||
                  exists f <- fields :: f.name == name && KnownSlice(g, f.typ) && g[f.typ].element == r[name])
            && (forall f <- fields | KnownSlice(g, f.typ) :: f.name in r)
  {
    if fields != [] {
      var k := |fields| - 1;
      assert fields == fields[..k] + [fields[k]];
      FieldCandidatesExact(g, fields[..k], found);
    }
  }

  ghost predicate KnownToSome(g: Graph, calls: seq<TypeSpec>, name: string, e: TypeSpec) {
    exists n <- calls :: Knows(g, n, name, e)
  }

  /** A name has a candidate iff some visited struct knows an element for it; the candidate is
      one of those, and the one found first stays. */
  lemma {:induction false} CandidatesExact(g: Graph, calls: seq<TypeSpec>)
    ensures var r := Candidates(g, calls);
            && (forall name <- r :: KnownToSome(g, calls, name, r[name]))
            && (forall n <- calls | n in g && g[n].kind == KindStruct ::
                  forall f <- g[n].fields | KnownSlice(g, f.typ) :: f.name in r)
            && (calls != [] ==> forall name <- Candidates(g, calls[..|calls| - 1]) ::
                  name in r && r[name] == Candidates(g, calls[..|calls| - 1])[name])
  {
    if calls != [] {
      var k := |calls| - 1;
      var init := Candidates(g, calls[..k]);
      assert calls == calls[..k] + [calls[k]];
      CandidatesExact(g, calls[..k]);
      if calls[k] in g && g[calls[k]].kind == KindStruct {
        FieldCandidatesExact(g, g[calls[k]].fields, init);
      }
      forall name <- Candidates(g, calls)
        ensures KnownToSome(g, calls, name, Candidates(g, calls)[name])
      {
        if name in init {
          assert KnownToSome(g, calls[..k], name, init[name]);
          var n :| n in calls[..k] && Knows(g, n, name, init[name]);
          assert n in calls && Knows(g, n, name, Candidates(g, calls)[name]);
        } else {
          assert Knows(g, calls[k], name, Candidates(g, calls)[name]);
          assert calls[k] in calls;
        }
      }
    }
  }

  lemma KnownIsInside(g: Graph, n: TypeSpec, name: string, e: TypeSpec)
    requires Closed(g) && Knows(g, n, name, e)
    ensures e in g
  {
    var f :| f in g[n].fields && f.name == name && KnownSlice(g, f.typ) && g[f.typ].element == e;
    assert e in Children(g[f.typ]);
  }

  lemma CandidateKnown(g: Graph, calls: seq<TypeSpec>, name: string)
    requires Closed(g) && name in Candidates(g, calls)
    ensures Candidates(g, calls)[name] in g
  {
    CandidatesExact(g, calls);
    var e := Candidates(g, calls)[name];
    assert KnownToSome(g, calls, name, e);
    var n :| n in calls && Knows(g, n, name, e);
    KnownIsInside(g, n, name, e);
  }

  lemma CandidatesClosed(g: Graph, calls: seq<TypeSpec>)
    requires Closed(g)
    ensures Candidates(g, calls).Values <= g.Keys
  {
    forall name | name in Candidates(g, calls)
      ensures Candidates(g, calls)[name] in g
    {
      CandidateKnown(g, calls, name);
    }
  }

  /** The callback of collectSliceCandidates on one struct. */
  method CollectFrom(spec: TypeSpec, found: map<string, TypeSpec>, ghost g: Graph) returns (candidates: map<string, TypeSpec>)
    requires g == Snap(g.Keys) && Closed(g) && spec in g && spec.kind == KindStruct
    ensures candidates == FieldCandidates(g, g[spec].fields, found)
  {
    FieldTypesInside(g, spec);
    candidates := found;
    for j := 0 to |spec.fields|
      invariant candidates == FieldCandidates(g, spec.fields[..j], found)
    {
      assert spec.fields[..j + 1][..j] == spec.fields[..j];
      var field := spec.fields[j];
      if field.typ.kind == KindSlice && field.typ.element != null {
        if field.name !in candidates {
          candidates := candidates[field.name := field.typ.element];
        }
      }
    }
    assert spec.fields[..|spec.fields|] == spec.fields;
  }

  method CollectSliceCandidates(root: TypeSpec, ghost g: Graph) returns (candidates: map<string, TypeSpec>)
    requires g == Snap(g.Keys) && Closed(g) && root in g
    ensures candidates == Candidates(g, Walk(g, root, {}))
    ensures candidates.Values <= g.Keys
  {
    var calls, _ := VisitWith(root, {}, g);
    WalkFresh(g, root, {});
    candidates := map[];
    for i := 0 to |calls|
      invariant candidates == Candidates(g, calls[..i])
    {
      assert calls[..i + 1][..i] == calls[..i] && calls[i] in g;
      if calls[i].kind == KindStruct {
        candidates := CollectFrom(calls[i], candidates, g);
      }
    }
    assert calls[..|calls|] == calls;
    CandidatesClosed(g, calls);
  }

  // ---------- what the pass may do to the graph ----------

  /** Some struct field with candidate e points at n. */
  ghost predicate Resolves(g: Graph, n: TypeSpec, e: TypeSpec, candidates: map<string, TypeSpec>) {
    exists m <- g | g[m].kind == KindStruct ::
      exists f <- g[m].fields :: f.typ == n && f.name in candidates && candidates[f.name] == e
  }

  /** A field is kept, or was a null with a candidate and now is a new slice of it. */
  ghost predicate FieldGrown(g0: Graph, g: Graph, f0: FieldSpec, f: FieldSpec, candidates: map<string, TypeSpec>) {
    f == f0 || (
      && f.name == f0.name && f.name in candidates
      && f0.typ in g0 && g0[f0.typ].kind == KindNull
      && f.typ !in g0 && f.typ in g
      && g[f.typ].kind == KindSlice && g[f.typ].element == candidates[f.name])
  }

  ghost predicate NodeGrown(g0: Graph, g: Graph, n: TypeSpec, candidates: map<string, TypeSpec>)
    requires n in g0 && n in g
  {
    && g[n].kind == g0[n].kind && g[n].name == g0[n].name && g[n].scalar == g0[n].scalar
    && (g[n].element == g0[n].element || (
          && g0[n].kind == KindSlice && g0[n].element == null
          && g[n].element != null && Resolves(g0, n, g[n].element, candidates)))
    && |g[n].fields| == |g0[n].fields|
    && forall i :: 0 <= i < |g[n].fields| ==> FieldGrown(g0, g, g0[n].fields[i], g[n].fields[i], candidates)
  }

  /** g is g0 with unknown elements and null fields resolved, and nothing else changed. */
  ghost predicate Grown(g0: Graph, g: Graph, candidates: map<string, TypeSpec>) {
    && Closed(g0) && candidates.Values <= g0.Keys
    && g0.Keys <= g.Keys
    && (forall n {:trigger NodeGrown(g0, g, n, candidates)} | n in g0 :: NodeGrown(g0, g, n, candidates))
    && (forall n <- g | n !in g0 :: g[n].kind == KindSlice && g[n].element in candidates.Values)
  }

  lemma GrownClosed(g0: Graph, g: Graph, candidates: map<string, TypeSpec>)
    requires Grown(g0, g, candidates)
    ensures Closed(g)
  {
    forall n <- g
      ensures forall c <- Children(g[n]) :: c in g
    {
      if n in g0 {
        assert NodeGrown(g0, g, n, candidates);
        assert forall i :: 0 <= i < |g0[n].fields| ==> FieldTypes(g0[n].fields)[i] == g0[n].fields[i].typ;
        if g[n].kind == KindSlice && g[n].element != null && g[n].element == g0[n].element {
          assert g[n].element in Children(g0[n]);
        }
        if g[n].kind == KindStruct {
          forall c <- Children(g[n])
            ensures c in g
          {
            var i :| 0 <= i < |g[n].fields| && g[n].fields[i].typ == c;
            assert FieldGrown(g0, g, g0[n].fields[i], g[n].fields[i], candidates);
            assert g0[n].fields[i].typ in Children(g0[n]);
          }
        }
      }
    }
  }

  /** No document is lost: what a node admitted before the pass, it admits afterwards. */
  lemma {:induction false} GrownAdmits(g0: Graph, g: Graph, candidates: map<string, TypeSpec>, n: TypeSpec, d: Shapes.Doc)
    requires Grown(g0, g, candidates) && Closed(g) && n in g0
    requires Admits(g0, n, d)
    ensures Admits(g, n, d)
    decreases d
  {
    assert NodeGrown(g0, g, n, candidates);
    match d
    case SequenceDoc(items) =>
      if g0[n].element != null {
        assert g[n].element in Children(g[n]);
        forall i <- items
          ensures Admits(g, g[n].element, i)
        {
          GrownAdmits(g0, g, candidates, g0[n].element, i);
        }
      } else if g[n].element != null {
        assert g[n].element in Children(g[n]);
      }
    case MappingDoc(entries) =>
      forall e <- entries
        ensures AdmitsEntry(g, g[n].fields, e)
      {
        assert AdmitsEntry(g0, g0[n].fields, e);
        GrownAdmitsEntry(g0, g, candidates, n, e);
      }
    case _ =>
  }

  lemma {:induction false} GrownAdmitsEntry(g0: Graph, g: Graph, candidates: map<string, TypeSpec>, n: TypeSpec, e: Shapes.Entry)
    requires Grown(g0, g, candidates) && Closed(g) && n in g0 && g0[n].kind == KindStruct
    requires AdmitsEntry(g0, g0[n].fields, e)
    ensures AdmitsEntry(g, g[n].fields, e)
    decreases e
  {
    assert NodeGrown(g0, g, n, candidates);
    var f0 :| f0 in g0[n].fields && f0.name == e.key.name && f0.typ in g0 && Admits(g0, f0.typ, e.value);
    var i :| 0 <= i < |g0[n].fields| && g0[n].fields[i] == f0;
    var f := g[n].fields[i];
    assert FieldGrown(g0, g, f0, f, candidates) && f in g[n].fields;
    if f == f0 {
      GrownAdmits(g0, g, candidates, f0.typ, e.value);
    } else {
      assert e.value == Shapes.NullDoc;
    }
  }

  // ---------- the pass ----------

  /** Neither null nor an element-less slice. */
  ghost predicate SettledType(g: Graph, t: TypeSpec) {
    t in g && g[t].kind != KindNull && (g[t].kind == KindSlice ==> g[t].element != null)
  }

  /** A field whose name has a candidate is settled. */
  ghost predicate SettledField(g: Graph, f: FieldSpec, candidates: map<string, TypeSpec>) {
    f.name in candidates ==> SettledType(g, f.typ)
  }

  ghost predicate Settled(g: Graph, n: TypeSpec, candidates: map<string, TypeSpec>) {
    n in g && forall f <- g[n].fields :: SettledField(g, f, candidates)
  }

  /** From g to g', kinds and known elements stay, and so do the fields of the nodes in same. */
  ghost predicate Kept(g: Graph, g': Graph, same: set<TypeSpec>) {
    g.Keys <= g'.Keys && forall n {:trigger NodeKept(g, g', n, same)} | n in g :: NodeKept(g, g', n, same)
  }

  ghost predicate NodeKept(g: Graph, g': Graph, n: TypeSpec, same: set<TypeSpec>)
    requires n in g && n in g'
  {
    && g'[n].kind == g[n].kind
    && (g[n].element != null ==> g'[n].element == g[n].element)
    && (n in same ==> g'[n].fields == g[n].fields)
  }

  lemma KeptSettledField(g: Graph, g': Graph, same: set<TypeSpec>, f: FieldSpec, candidates: map<string, TypeSpec>)
    requires Kept(g, g', same) && SettledField(g, f, candidates)
    ensures SettledField(g', f, candidates)
  {
    assert f.typ in g ==> NodeKept(g, g', f.typ, same);
  }

  lemma KeptSettled(g: Graph, g': Graph, same: set<TypeSpec>, n: TypeSpec, candidates: map<string, TypeSpec>)
    requires Kept(g, g', same) && n in same && Settled(g, n, candidates)
    ensures Settled(g', n, candidates)
  {
    assert NodeKept(g, g', n, same);
    forall f <- g'[n].fields
      ensures SettledField(g', f, candidates)
    {
      assert f in g[n].fields;
      KeptSettledField(g, g', same, f, candidates);
    }
  }

  lemma KeptTransitive(g: Graph, g': Graph, g'': Graph, same: set<TypeSpec>, same': set<TypeSpec>)
    requires Kept(g, g', same) && Kept(g', g'', same') && same <= same'
    ensures Kept(g, g'', same)
  {
    forall n <- g
      ensures NodeKept(g, g'', n, same)
    {
      assert NodeKept(g, g', n, same) && NodeKept(g', g'', n, same');
    }
  }

  lemma KeptFewer(g: Graph, g': Graph, same: set<TypeSpec>, fewer: set<TypeSpec>)
    requires Kept(g, g', same) && fewer * g.Keys <= same
    ensures Kept(g, g', fewer)
  {
    forall n <- g
      ensures NodeKept(g, g', n, fewer)
    {
      assert NodeKept(g, g', n, same);
      assert n in fewer ==> n in fewer * g.Keys;
    }
  }

  lemma SetElementGrows(g0: Graph, g: Graph, candidates: map<string, TypeSpec>, spec: TypeSpec, f: FieldSpec)
    requires Grown(g0, g, candidates)
    requires spec in g0 && g0[spec].kind == KindStruct && f in g0[spec].fields && f.name in candidates
    requires f.typ in g && g[f.typ].kind == KindSlice && g[f.typ].element == null
    ensures var g' := g[f.typ := g[f.typ].(element := candidates[f.name])];
            Grown(g0, g', candidates) && Kept(g, g', g.Keys) && SettledField(g', f, candidates)
  {
    var g' := g[f.typ := g[f.typ].(element := candidates[f.name])];
    assert f.typ in g0;
    assert Resolves(g0, f.typ, candidates[f.name], candidates);
    forall n <- g0
      ensures NodeGrown(g0, g', n, candidates)
    {
      assert NodeGrown(g0, g, n, candidates);
      forall i | 0 <= i < |g'[n].fields|
        ensures FieldGrown(g0, g', g0[n].fields[i], g'[n].fields[i], candidates)
      {
        assert FieldGrown(g0, g, g0[n].fields[i], g[n].fields[i], candidates);
      }
    }
  }

  lemma ReplaceNullGrows(g0: Graph, g: Graph, candidates: map<string, TypeSpec>, spec: TypeSpec, i: nat, slice: TypeSpec)
    requires Grown(g0, g, candidates)
    requires spec in g0 && g0[spec].kind == KindStruct && i < |g0[spec].fields|
    requires i < |g[spec].fields| && g[spec].fields[i] == g0[spec].fields[i]
    requires g0[spec].fields[i].name in candidates
    requires g0[spec].fields[i].typ in g0 && g0[g0[spec].fields[i].typ].kind == KindNull
    requires slice !in g
    ensures var f := FieldSpec(g0[spec].fields[i].name, slice);
            var g' := g[slice := Node(KindSlice, candidates[f.name], "", "", [])]
                       [spec := g[spec].(fields := g[spec].fields[i := f])];
            Grown(g0, g', candidates)
  {
    var f := FieldSpec(g0[spec].fields[i].name, slice);
    var g' := g[slice := Node(KindSlice, candidates[f.name], "", "", [])]
               [spec := g[spec].(fields := g[spec].fields[i := f])];
    forall n <- g0
      ensures NodeGrown(g0, g', n, candidates)
    {
      assert NodeGrown(g0, g, n, candidates);
      forall j | 0 <= j < |g'[n].fields|
        ensures FieldGrown(g0, g', g0[n].fields[j], g'[n].fields[j], candidates)
      {
        assert FieldGrown(g0, g, g0[n].fields[j], g[n].fields[j], candidates);
      }
    }
  }

  lemma ReplaceNullKept(g: Graph, candidates: map<string, TypeSpec>, spec: TypeSpec, i: nat, slice: TypeSpec)
    requires spec in g && i < |g[spec].fields| && g[spec].fields[i].name in candidates && slice !in g
    ensures var f := FieldSpec(g[spec].fields[i].name, slice);
            var g' := g[slice := Node(KindSlice, candidates[f.name], "", "", [])]
                       [spec := g[spec].(fields := g[spec].fields[i := f])];
            Kept(g, g', g.Keys - {spec}) && SettledField(g', f, candidates)
  {
  }

  method FillElement(t: TypeSpec, resolved: TypeSpec, ghost nodes: set<TypeSpec>)
    requires t in nodes
    modifies t
    ensures Snap(nodes) == old(Snap(nodes))[t := old(Snap(nodes))[t].(element := resolved)]
  {
    t.element := resolved;
  }

  method ReplaceNull(spec: TypeSpec, i: nat, resolved: TypeSpec, ghost nodes: set<TypeSpec>) returns (slice: TypeSpec)
    requires spec in nodes && i < |spec.fields|
    modifies spec
    ensures fresh(slice)
    ensures var g := old(Snap(nodes));
            var f := FieldSpec(g[spec].fields[i].name, slice);
            Snap(nodes + {slice}) ==
              g[slice := Node(KindSlice, resolved, "", "", [])][spec := g[spec].(fields := g[spec].fields[i := f])]
  {
    slice := new TypeSpec.Slice(resolved);
    spec.fields := spec.fields[i := FieldSpec(spec.fields[i].name, slice)];
  }

  /** The callback of applySliceCandidates on one field of a struct. */
  method ApplyToField(spec: TypeSpec, i: nat, candidates: map<string, TypeSpec>, ghost g0: Graph, ghost nodes: set<TypeSpec>)
    returns (ghost nodes': set<TypeSpec>, ghost f: FieldSpec)
    requires Grown(g0, Snap(nodes), candidates)
    requires spec in g0 && g0[spec].kind == KindStruct && spec in nodes
    requires i < |spec.fields| == |g0[spec].fields| && spec.fields[i] == g0[spec].fields[i]
    modifies nodes
    ensures nodes <= nodes' && forall n <- nodes' :: n in nodes || fresh(n)
    ensures Grown(g0, Snap(nodes'), candidates)
    ensures Kept(old(Snap(nodes)), Snap(nodes'), nodes - {spec})
    ensures Snap(nodes')[spec].fields == old(spec.fields)[i := f]
    ensures SettledField(Snap(nodes'), f, candidates)
  {
    nodes' := nodes;
    ghost var g := Snap(nodes);
    var field := spec.fields[i];
    f := field;
    assert g[spec].fields[i := f] == g[spec].fields;
    assert field.typ == Children(g0[spec])[i];
    assert field.typ in g && NodeGrown(g0, g, field.typ, candidates);
    if field.name in candidates {
      if field.typ.kind == KindSlice {
        if field.typ.element == null {
          SetElementGrows(g0, g, candidates, spec, field);
          FillElement(field.typ, candidates[field.name], nodes);
        }
      } else if field.typ.kind == KindNull {
        var slice := ReplaceNull(spec, i, candidates[field.name], nodes);
        ReplaceNullGrows(g0, g, candidates, spec, i, slice);
        ReplaceNullKept(g, candidates, spec, i, slice);
        nodes' := nodes' + {slice};
        f := FieldSpec(field.name, slice);
      }
    }
  }

  ghost predicate SettledUpTo(g: Graph, fields: seq<FieldSpec>, i: nat, candidates: map<string, TypeSpec>) {
    i <= |fields| && forall j :: 0 <= j < i ==> SettledField(g, fields[j], candidates)
  }

  lemma SettledNext(g: Graph, g': Graph, same: set<TypeSpec>, fields: seq<FieldSpec>, i: nat, f: FieldSpec,
                    candidates: map<string, TypeSpec>)
    requires Kept(g, g', same) && SettledUpTo(g, fields, i, candidates) && i < |fields|
    requires SettledField(g', f, candidates)
    ensures SettledUpTo(g', fields[i := f], i + 1, candidates)
  {
    forall j | 0 <= j < i
      ensures SettledField(g', fields[j], candidates)
    {
      KeptSettledField(g, g', same, fields[j], candidates);
    }
  }

  /** The callback on a whole struct. */
  method ApplyTo(spec: TypeSpec, candidates: map<string, TypeSpec>, ghost g0: Graph, ghost nodes: set<TypeSpec>)
    returns (ghost nodes': set<TypeSpec>)
    requires Grown(g0, Snap(nodes), candidates)
    requires spec in g0 && g0[spec].kind == KindStruct && spec in nodes && spec.fields == g0[spec].fields
    modifies nodes
    ensures nodes <= nodes' && forall n <- nodes' :: n in nodes || fresh(n)
    ensures Grown(g0, Snap(nodes'), candidates)
    ensures Kept(old(Snap(nodes)), Snap(nodes'), nodes - {spec})
    ensures Settled(Snap(nodes'), spec, candidates)
  {
    nodes' := nodes;
    ghost var start := Snap(nodes);
    for i := 0 to |spec.fields|
      invariant |spec.fields| == |g0[spec].fields|
      invariant nodes <= nodes' && forall n <- nodes' :: n in nodes || fresh(n)
      invariant Grown(g0, Snap(nodes'), candidates)
      invariant Kept(start, Snap(nodes'), nodes - {spec})
      invariant forall j :: i <= j < |spec.fields| ==> spec.fields[j] == g0[spec].fields[j]
      invariant SettledUpTo(Snap(nodes'), spec.fields, i, candidates)
    {
      ghost var g, before, fields := Snap(nodes'), nodes', spec.fields;
      ghost var f;
      nodes', f := ApplyToField(spec, i, candidates, g0, nodes');
      KeptTransitive(start, g, Snap(nodes'), nodes - {spec}, before - {spec});
      SettledNext(g, Snap(nodes'), before - {spec}, fields, i, f, candidates);
    }
  }

  /** Structs not yet seen still have their original fields. */
  ghost predicate Untouched(g0: Graph, g: Graph, seen: set<TypeSpec>) {
    forall n <- g0 | n !in seen && g0[n].kind == KindStruct :: n in g && g[n].fields == g0[n].fields
  }

  /** The original nodes in part are settled, and what they pointed to originally is in seen,
      except for nulls, which may have been replaced. */
  ghost predicate Done(g0: Graph, g: Graph, part: set<TypeSpec>, seen: set<TypeSpec>, candidates: map<string, TypeSpec>) {
    forall n {:trigger NodeDone(g0, g, n, seen, candidates)} | n in part && n in g0 ::
      NodeDone(g0, g, n, seen, candidates)
  }

  ghost predicate NodeDone(g0: Graph, g: Graph, n: TypeSpec, seen: set<TypeSpec>, candidates: map<string, TypeSpec>)
    requires n in g0
  {
    && (g0[n].kind == KindStruct ==> Settled(g, n, candidates))
    && forall c <- Children(g0[n]) | c in g0 && g0[c].kind != KindNull :: c in seen
  }

  /** What a stretch of the walk, from g to g' and from seen to seen', has established. */
  ghost predicate Walked(g0: Graph, g: Graph, g': Graph, seen: set<TypeSpec>, seen': set<TypeSpec>,
                         candidates: map<string, TypeSpec>)
  {
    && Grown(g0, g', candidates) && Untouched(g0, g', seen')
    && Kept(g, g', seen) && seen <= seen'
    && Done(g0, g', seen' - seen, seen', candidates)
  }

  lemma WalkedOn(g0: Graph, g: Graph, g': Graph, g'': Graph, seen: set<TypeSpec>, seen': set<TypeSpec>,
                 seen'': set<TypeSpec>, candidates: map<string, TypeSpec>)
    requires Walked(g0, g, g', seen, seen', candidates) && Walked(g0, g', g'', seen', seen'', candidates)
    ensures Walked(g0, g, g'', seen, seen'', candidates)
  {
    KeptTransitive(g, g', g'', seen, seen');
    forall n | n in seen'' - seen && n in g0
      ensures NodeDone(g0, g'', n, seen'', candidates)
    {
      if n in seen' {
        assert n in seen' - seen && NodeDone(g0, g', n, seen', candidates);
        if g0[n].kind == KindStruct {
          KeptSettled(g', g'', seen', n, candidates);
        }
      } else {
        assert n in seen'' - seen' && NodeDone(g0, g'', n, seen'', candidates);
      }
    }
  }

  ghost predicate TypesIn(fields: seq<FieldSpec>, seen: set<TypeSpec>) {
    forall f <- fields :: f.typ in seen
  }

  lemma TypesInNext(fields: seq<FieldSpec>, i: nat, seen: set<TypeSpec>, seen': set<TypeSpec>)
    requires i < |fields| && TypesIn(fields[..i], seen) && seen <= seen' && fields[i].typ in seen'
    ensures TypesIn(fields[..i + 1], seen')
  {
    assert fields[..i + 1] == fields[..i] + [fields[i]];
  }

  lemma WalkedStruct(g0: Graph, g: Graph, applied: Graph, g': Graph, spec: TypeSpec,
                     seen: set<TypeSpec>, seen': set<TypeSpec>, candidates: map<string, TypeSpec>)
    requires spec in g0 && g0[spec].kind == KindStruct && spec !in seen
    requires Grown(g0, applied, candidates) && Kept(g, applied, g.Keys - {spec})
    requires Settled(applied, spec, candidates)
    requires Walked(g0, applied, g', seen + {spec}, seen', candidates)
    requires TypesIn(applied[spec].fields, seen')
    ensures Walked(g0, g, g', seen, seen', candidates)
  {
    KeptSettled(applied, g', seen + {spec}, spec, candidates);
    KeptFewer(g, applied, g.Keys - {spec}, seen);
    KeptTransitive(g, applied, g', seen, seen + {spec});
    assert NodeGrown(g0, applied, spec, candidates);
    forall c <- Children(g0[spec]) | c in g0 && g0[c].kind != KindNull
      ensures c in seen'
    {
      var i :| 0 <= i < |g0[spec].fields| && g0[spec].fields[i].typ == c;
      assert FieldGrown(g0, applied, g0[spec].fields[i], applied[spec].fields[i], candidates);
      assert applied[spec].fields[i] in applied[spec].fields;
    }
    assert NodeDone(g0, g', spec, seen', candidates);
    DoneWith(g0, g', spec, seen, seen', candidates);
  }

  lemma DoneWith(g0: Graph, g: Graph, spec: TypeSpec, seen: set<TypeSpec>, seen': set<TypeSpec>,
                 candidates: map<string, TypeSpec>)
    requires Done(g0, g, seen' - (seen + {spec}), seen', candidates)
    requires spec in g0 ==> NodeDone(g0, g, spec, seen', candidates)
    ensures Done(g0, g, seen' - seen, seen', candidates)
  {
    forall n | n in seen' - seen && n in g0
      ensures NodeDone(g0, g, n, seen', candidates)
    {
      assert n == spec || n in seen' - (seen + {spec});
    }
  }

  lemma StillUntouched(g0: Graph, g: Graph, applied: Graph, spec: TypeSpec, seen: set<TypeSpec>)
    requires Untouched(g0, g, seen) && Kept(g, applied, g.Keys - {spec})
    ensures Untouched(g0, applied, seen + {spec})
  {
    forall n <- g0 | n !in seen + {spec} && g0[n].kind == KindStruct
      ensures n in applied && applied[n].fields == g0[n].fields
    {
      assert NodeKept(g, applied, n, g.Keys - {spec});
    }
  }

  /** A node that is no struct: its element, if it has one, has been visited. */
  lemma WalkedOther(g0: Graph, g: Graph, g': Graph, spec: TypeSpec,
                    seen: set<TypeSpec>, seen': set<TypeSpec>, candidates: map<string, TypeSpec>)
    requires spec in g && g[spec].kind != KindStruct && spec !in seen
    requires Grown(g0, g, candidates)
    requires Walked(g0, g, g', seen + {spec}, seen', candidates)
    requires g[spec].kind == KindSlice && g[spec].element != null ==> g[spec].element in seen'
    ensures Walked(g0, g, g', seen, seen', candidates)
  {
    KeptFewer(g, g', seen + {spec}, seen);
    if spec in g0 {
      assert NodeGrown(g0, g, spec, candidates);
      assert NodeDone(g0, g', spec, seen', candidates);
    }
    DoneWith(g0, g', spec, seen, seen', candidates);
  }

  lemma MeasureOf(g0: Graph, seen: set<TypeSpec>, seen': set<TypeSpec>)
    requires seen <= seen'
    ensures |g0.Keys - seen'| <= |g0.Keys - seen|
    ensures (exists n <- g0 :: n in seen' && n !in seen) ==> |g0.Keys - seen'| < |g0.Keys - seen|
  {
    SubsetSize(g0.Keys - seen', g0.Keys - seen);
    if n :| n in g0 && n in seen' && n !in seen {
      SmallerSet(g0.Keys - seen', g0.Keys - seen);
    }
  }

  /** applySliceCandidates: visitWith with the callback ApplyTo, which changes the edges the
      walk is about to follow. */
  method ApplyWalk(spec: TypeSpec?, candidates: map<string, TypeSpec>, seen: set<TypeSpec>,
                   ghost g0: Graph, ghost nodes: set<TypeSpec>)
    returns (seen': set<TypeSpec>, ghost nodes': set<TypeSpec>)
    requires Grown(g0, Snap(nodes), candidates) && Untouched(g0, Snap(nodes), seen)
    requires spec != null ==> spec in nodes
    modifies nodes
    ensures nodes <= nodes' && forall n <- nodes' :: n in nodes || fresh(n)
    ensures Walked(g0, old(Snap(nodes)), Snap(nodes'), seen, seen', candidates)
    ensures spec != null ==> spec in seen'
    decreases |g0.Keys - seen|, if spec != null && spec in g0 then 0 else 1
  {
    seen', nodes' := seen, nodes;
    if spec == null || spec in seen {
      return;
    }
    ghost var g := Snap(nodes);
    seen' := seen + {spec};
    MeasureOf(g0, seen, seen');
    GrownClosed(g0, g, candidates);
    if spec.kind == KindStruct {
      assert spec in g0 && NodeGrown(g0, g, spec, candidates);
      nodes' := ApplyTo(spec, candidates, g0, nodes);
      ghost var applied := Snap(nodes');
      StillUntouched(g0, g, applied, spec, seen);
      assert NodeKept(g, applied, spec, nodes - {spec});
      seen', nodes' := ApplyWalkFields(spec, candidates, seen', g0, nodes');
      WalkedStruct(g0, g, applied, Snap(nodes'), spec, seen, seen', candidates);
    } else {
      if spec.kind == KindSlice {
        assert spec in g0 ==> NodeGrown(g0, g, spec, candidates);
        assert spec.element != null ==> spec.element in Children(g[spec]);
        seen', nodes' := ApplyWalk(spec.element, candidates, seen', g0, nodes');
      }
      WalkedOther(g0, g, Snap(nodes'), spec, seen, seen', candidates);
    }
  }

  method ApplyWalkFields(spec: TypeSpec, candidates: map<string, TypeSpec>, seen: set<TypeSpec>,
                         ghost g0: Graph, ghost nodes: set<TypeSpec>)
    returns (seen': set<TypeSpec>, ghost nodes': set<TypeSpec>)
    requires Grown(g0, Snap(nodes), candidates) && Untouched(g0, Snap(nodes), seen)
    requires spec in nodes && spec in seen && spec.kind == KindStruct
    modifies nodes
    ensures nodes <= nodes' && forall n <- nodes' :: n in nodes || fresh(n)
    ensures Walked(g0, old(Snap(nodes)), Snap(nodes'), seen, seen', candidates)
    ensures TypesIn(old(spec.fields), seen')
    decreases |g0.Keys - seen|, 2
  {
    seen', nodes' := seen, nodes;
    ghost var start := Snap(nodes);
    ghost var fields := spec.fields;
    GrownClosed(g0, start, candidates);
    for i := 0 to |spec.fields|
      invariant spec.fields == fields
      invariant nodes <= nodes' && forall n <- nodes' :: n in nodes || fresh(n)
      invariant Walked(g0, start, Snap(nodes'), seen, seen', candidates)
      invariant TypesIn(fields[..i], seen')
    {
      ghost var g, before := Snap(nodes'), seen';
      MeasureOf(g0, seen, seen');
      var typ := spec.fields[i].typ;
      assert typ == Children(start[spec])[i];
      seen', nodes' := ApplyWalk(typ, candidates, seen', g0, nodes');
      TypesInNext(fields, i, before, seen');
      WalkedOn(g0, start, g, Snap(nodes'), seen, before, seen', candidates);
      assert NodeKept(start, Snap(nodes'), spec, seen);
    }
    assert fields[..|fields|] == fields;
  }

  // ---------- the pass as a whole ----------

  /** Some struct reachable in g has a field of this name with a known slice element. */
  ghost predicate KnownSomewhere(g: Graph, root: TypeSpec, name: string) {
    exists n <- g | g[n].kind == KindStruct && Reaches(g, root, n) ::
      exists f <- g[n].fields :: f.name == name && KnownSlice(g, f.typ)
  }

  lemma KnownIsCandidate(g: Graph, root: TypeSpec, name: string)
    requires Closed(g) && root in g && KnownSomewhere(g, root, name)
    ensures name in Candidates(g, Walk(g, root, {}))
  {
    VisitsExactlyTheReachable(g, root);
    CandidatesExact(g, Walk(g, root, {}));
  }

  /** The walk missed nothing: nulls aside, all that was reachable has been seen. */
  lemma SeenAllReachable(g0: Graph, g: Graph, root: TypeSpec, seen: set<TypeSpec>,
                         candidates: map<string, TypeSpec>, n: TypeSpec)
    requires Walked(g0, g0, g, {}, seen, candidates) && root in seen && root in g0
    requires Reaches(g0, root, n)
    ensures n in seen || (n in g0 && g0[n].kind == KindNull)
  {
    var inside := seen + set m <- g0 | g0[m].kind == KindNull;
    forall m <- inside | m in g0
      ensures forall c <- Children(g0[m]) :: c in inside
    {
      if m in seen {
        WalkedNode(g0, g, seen, candidates, m);
      }
    }
    var steps: nat :| ReachesIn(g0, root, n, steps);
    ReachableStaysInside(g0, inside, root, n, steps);
  }

  lemma WalkedNode(g0: Graph, g: Graph, seen: set<TypeSpec>, candidates: map<string, TypeSpec>, n: TypeSpec)
    requires Walked(g0, g0, g, {}, seen, candidates) && n in seen && n in g0
    ensures NodeDone(g0, g, n, seen, candidates)
  {
    assert n in seen - {};
  }

  lemma CandidateInside(g0: Graph, g: Graph, seen: set<TypeSpec>, candidates: map<string, TypeSpec>,
                        n: TypeSpec, f: FieldSpec)
    requires Walked(g0, g0, g, {}, seen, candidates)
    requires n in seen && n in g0 && g0[n].kind == KindStruct && f in g0[n].fields && KnownSlice(g0, f.typ)
    ensures g0[f.typ].element in g0 && (g0[f.typ].element in seen || g0[g0[f.typ].element].kind == KindNull)
  {
    WalkedNode(g0, g, seen, candidates, n);
    var i :| 0 <= i < |g0[n].fields| && g0[n].fields[i] == f;
    assert f.typ == Children(g0[n])[i];
    WalkedNode(g0, g, seen, candidates, f.typ);
    assert g0[f.typ].element in Children(g0[f.typ]);
  }

  lemma CandidatesInside(g0: Graph, g: Graph, root: TypeSpec, seen: set<TypeSpec>, candidates: map<string, TypeSpec>)
    requires Walked(g0, g0, g, {}, seen, candidates) && root in seen && root in g0
    requires candidates == Candidates(g0, Walk(g0, root, {}))
    ensures forall name <- candidates ::
              candidates[name] in seen || g0[candidates[name]].kind == KindNull
  {
    var calls := Walk(g0, root, {});
    VisitsExactlyTheReachable(g0, root);
    CandidatesExact(g0, calls);
    forall name <- candidates
      ensures candidates[name] in seen || g0[candidates[name]].kind == KindNull
    {
      var e := candidates[name];
      assert KnownToSome(g0, calls, name, e);
      var n :| n in calls && Knows(g0, n, name, e);
      SeenAllReachable(g0, g, root, seen, candidates, n);
      var f :| f in g0[n].fields && f.name == name && KnownSlice(g0, f.typ) && g0[f.typ].element == e;
      CandidateInside(g0, g, seen, candidates, n, f);
    }
  }

  /** Every struct reachable afterwards is one of the original ones, and settled. */
  lemma ReachableSettled(g0: Graph, g: Graph, root: TypeSpec, seen: set<TypeSpec>,
                         candidates: map<string, TypeSpec>, n: TypeSpec)
    requires Walked(g0, g0, g, {}, seen, candidates) && root in seen && root in g0
    requires candidates == Candidates(g0, Walk(g0, root, {}))
    requires Reaches(g, root, n) && n in g && g[n].kind == KindStruct
    ensures n in g0 && Settled(g, n, candidates)
  {
    CandidatesInside(g0, g, root, seen, candidates);
    var nulls := set m <- g0 | g0[m].kind == KindNull;
    var inside := seen + (g.Keys - g0.Keys) + nulls;
    forall m <- inside | m in g
      ensures forall c <- Children(g[m]) :: c in inside
    {
      if m in g0 {
        ChildrenInside(g0, g, seen, candidates, m, nulls);
      } else {
        assert g[m].element in candidates.Values;
      }
    }
    var steps: nat :| ReachesIn(g, root, n, steps);
    ReachableStaysInside(g, inside, root, n, steps);
    if n in g0 {
      assert NodeGrown(g0, g, n, candidates);
    }
    WalkedNode(g0, g, seen, candidates, n);
  }

  lemma ChildrenInside(g0: Graph, g: Graph, seen: set<TypeSpec>, candidates: map<string, TypeSpec>,
                       m: TypeSpec, nulls: set<TypeSpec>)
    requires Walked(g0, g0, g, {}, seen, candidates) && m in g0
    requires nulls == set x <- g0 | g0[x].kind == KindNull
    requires forall name <- candidates :: candidates[name] in seen + nulls
    requires m in seen + (g.Keys - g0.Keys) + nulls
    ensures forall c <- Children(g[m]) :: c in seen + (g.Keys - g0.Keys) + nulls
  {
    assert NodeGrown(g0, g, m, candidates);
    if m in seen {
      WalkedNode(g0, g, seen, candidates, m);
      forall c <- Children(g[m])
        ensures c in seen + (g.Keys - g0.Keys) + nulls
      {
        if g[m].kind == KindStruct {
          var i :| 0 <= i < |g[m].fields| && g[m].fields[i].typ == c;
          assert FieldGrown(g0, g, g0[m].fields[i], g[m].fields[i], candidates);
          assert g0[m].fields[i].typ == Children(g0[m])[i];
        } else if g[m].element == g0[m].element {
          assert c in Children(g0[m]);
        }
      }
    }
  }

  /** No struct reachable in g has a null or element-less slice under a name that had a known element
      anywhere in g0. */
  ghost predicate SettledWhereKnown(g0: Graph, g: Graph, root: TypeSpec) {
    forall n <- g | g[n].kind == KindStruct && Reaches(g, root, n) ::
      forall f <- g[n].fields | KnownSomewhere(g0, root, f.name) :: SettledType(g, f.typ)
  }

  lemma WalkSettles(g0: Graph, g: Graph, root: TypeSpec, seen: set<TypeSpec>, candidates: map<string, TypeSpec>)
    requires Walked(g0, g0, g, {}, seen, candidates) && root in seen && root in g0
    requires candidates == Candidates(g0, Walk(g0, root, {}))
    ensures SettledWhereKnown(g0, g, root)
  {
    forall n <- g | g[n].kind == KindStruct && Reaches(g, root, n)
      ensures forall f <- g[n].fields | KnownSomewhere(g0, root, f.name) :: SettledType(g, f.typ)
    {
      ReachableSettled(g0, g, root, seen, candidates, n);
      forall f <- g[n].fields | KnownSomewhere(g0, root, f.name)
        ensures SettledType(g, f.typ)
      {
        KnownIsCandidate(g0, root, f.name);
        assert SettledField(g, f, candidates);
      }
    }
  }

  /** resolveEmptySlices: it only fills in, no document is lost at any node, and what is reachable
      afterwards is settled wherever an element was known. */
  method ResolveEmptySlices(root: TypeSpec, ghost g0: Graph) returns (ghost nodes: set<TypeSpec>)
    requires g0 == Snap(g0.Keys) && Closed(g0) && root in g0
    modifies g0.Keys
    ensures g0.Keys <= nodes && forall n <- nodes :: n in g0 || fresh(n)
    ensures Grown(g0, Snap(nodes), Candidates(g0, Walk(g0, root, {}))) && Closed(Snap(nodes))
    ensures forall n <- g0, d: Shapes.Doc | Admits(g0, n, d) :: Admits(Snap(nodes), n, d)
    ensures SettledWhereKnown(g0, Snap(nodes), root)
  {
    var candidates := CollectSliceCandidates(root, g0);
    forall n <- g0
      ensures NodeGrown(g0, g0, n, candidates)
    {
    }
    var seen;
    seen, nodes := ApplyWalk(root, candidates, {}, g0, g0.Keys);
    ghost var g := Snap(nodes);
    GrownClosed(g0, g, candidates);
    forall n <- g0, d: Shapes.Doc | Admits(g0, n, d)
      ensures Admits(g, n, d)
    {
      GrownAdmits(g0, g, candidates, n, d);
    }
    WalkSettles(g0, g, root, seen, candidates);
  }
}
