/** collapseSubsetStructs: a struct whose fields all occur in a larger one takes over the
    larger one's name and fields, until no such pair is left. */
module Collapse {
  import opened Wrappers
  import opened TypeGraph
  import opened GraphSameShape
  import Shapes
  import Merge

  /** sameShape as the pass uses it: an answer per graph and pair of nodes, None if it never returns. */
  type Oracle = (Graph, TypeSpec, TypeSpec) -> Option<bool>

  /** sameShape itself. */
  ghost function Source(): Oracle {
    (g, a, b) => Compared(g, a, b)
  }

  /** The loop of isSubsetStruct, from the first field on. */
  function CompareFields(g: Graph, small: seq<FieldSpec>, large: seq<FieldSpec>, same: Oracle): Option<bool> {
    if small == [] then Some(true) else
      var t := LastType(large, small[0].name);
      if t == null then Some(false) else
        match same(g, small[0].typ, t)
        case None => None
        case Some(false) => Some(false)
        case Some(true) => CompareFields(g, small[1..], large, same)
  }

  ghost predicate MatchedIn(g: Graph, f: FieldSpec, large: seq<FieldSpec>, same: Oracle) {
    var t := LastType(large, f.name);
    t != null && same(g, f.typ, t) == Some(true)
  }

  lemma {:induction false} SubsetExactly(g: Graph, small: seq<FieldSpec>, large: seq<FieldSpec>, same: Oracle)
    ensures CompareFields(g, small, large, same) == Some(true) <==> forall f <- small :: MatchedIn(g, f, large, same)
    decreases |small|
  {
    if small != [] {
      SubsetExactly(g, small[1..], large, same);
      assert forall f <- small :: f == small[0] || f in small[1..];
      assert MatchedIn(g, small[0], large, same) <==>
             LastType(large, small[0].name) != null && same(g, small[0].typ, LastType(large, small[0].name)) == Some(true);
    }
  }

  lemma {:induction false} CompareIsSameFields(g: Graph, small: seq<FieldSpec>, large: seq<FieldSpec>)
    ensures CompareFields(g, small, large, Source()) == SameFields(g, small, large, Enough(g))
    decreases |small|
  {
    if small != [] {
      CompareIsSameFields(g, small[1..], large);
    }
  }

  lemma {:induction false} CompareReturned(g: Graph, small: seq<FieldSpec>, large: seq<FieldSpec>, calls: nat)
    requires SameFields(g, small, large, calls).Some?
    ensures CompareFields(g, small, large, Source()) == SameFields(g, small, large, calls)
    decreases |small|
  {
    if small != [] {
      var t := LastType(large, small[0].name);
      if t != null {
        ComparedAnswer(g, small[0].typ, t, calls);
        if SameShape(g, small[0].typ, t, calls) == Some(true) {
          CompareReturned(g, small[1..], large, calls);
        }
      }
    }
  }

  /** The pair passes the tests of the inner loop that come before isSubsetStruct. */
  predicate Eligible(g: Graph, small: TypeSpec, large: TypeSpec) {
    && small in g && large in g
    && small != large && g[small].name != g[large].name
    && |g[small].fields| < |g[large].fields|
  }

  predicate Collapses(g: Graph, small: TypeSpec, large: TypeSpec, same: Oracle) {
    Eligible(g, small, large) && CompareFields(g, g[small].fields, g[large].fields, same) == Some(true)
  }

  /** The pass compares the pair, and the comparison does not return. */
  predicate Hangs(g: Graph, small: TypeSpec, large: TypeSpec, same: Oracle) {
    Eligible(g, small, large) && CompareFields(g, g[small].fields, g[large].fields, same) == None
  }

  /** With the source's own comparison that is so exactly if the loop over the fields runs on after any
      number of nested calls. */
  lemma HangsExactly(g: Graph, small: TypeSpec, large: TypeSpec)
    requires Eligible(g, small, large)
    ensures Hangs(g, small, large, Source()) <==>
            forall calls: nat :: SameFields(g, g[small].fields, g[large].fields, calls) == None
  {
    CompareIsSameFields(g, g[small].fields, g[large].fields);
    if calls: nat :| SameFields(g, g[small].fields, g[large].fields, calls) != None {
      CompareReturned(g, g[small].fields, g[large].fields, calls);
    }
  }

  /** The pair is not collapsed, and deciding so takes no endless comparison. */
  ghost predicate Rejected(g: Graph, small: TypeSpec, large: TypeSpec, same: Oracle) {
    Eligible(g, small, large) ==> CompareFields(g, g[small].fields, g[large].fields, same) == Some(false)
  }

  ghost predicate AllRejected(g: Graph, all: seq<TypeSpec>, same: Oracle) {
    forall a <- all, b <- all :: Rejected(g, a, b, same)
  }

  datatype Step = Step(small: TypeSpec, large: TypeSpec)

  ghost function Apply(g: Graph, s: Step): Graph
    requires s.small in g && s.large in g
  {
    g[s.small := g[s.small].(name := g[s.large].name, fields := g[s.large].fields)]
  }

  ghost predicate StructsOf(g: Graph, all: seq<TypeSpec>) {
    Distinct(all) && forall n <- all :: n in g && g[n].kind == KindStruct
  }

  /** A run of the pass: each step was allowed in the graph it was made in; last is the result. */
  ghost predicate IsRun(g: Graph, steps: seq<Step>, last: Graph, all: seq<TypeSpec>, same: Oracle) {
    if steps == [] then last == g
    else
      var s := steps[0];
      && s.small in all && s.large in all
      && Collapses(g, s.small, s.large, same)
      && IsRun(Apply(g, s), steps[1..], last, all, same)
  }

  lemma {:induction false} RunStep(g: Graph, steps: seq<Step>, last: Graph, all: seq<TypeSpec>, same: Oracle, s: Step)
    requires IsRun(g, steps, last, all, same)
    requires s.small in all && s.large in all && Collapses(last, s.small, s.large, same)
    ensures IsRun(g, steps + [s], Apply(last, s), all, same)
  {
    if steps == [] {
      assert (steps + [s])[1..] == [];
    } else {
      RunStep(Apply(g, steps[0]), steps[1..], last, all, same, s);
      assert (steps + [s])[1..] == steps[1..] + [s];
    }
  }

  // ---------- the order of the steps ----------

  /** For this smaller struct no larger one is found. */
  ghost predicate RowRejected(g: Graph, small: TypeSpec, all: seq<TypeSpec>, same: Oracle) {
    forall large <- all :: Rejected(g, small, large, same)
  }

  ghost predicate RowsRejected(g: Graph, all: seq<TypeSpec>, i: nat, k: nat, same: Oracle) {
    forall m {:trigger RowRejected(g, all[m], all, same)} :: i <= m < k && m < |all| ==> RowRejected(g, all[m], all, same)
  }

  /** Of the larger structs for all[k], large is the first that is not rejected. */
  ghost predicate FirstOpen(g: Graph, all: seq<TypeSpec>, k: nat, large: TypeSpec, same: Oracle) {
    && k < |all| && !Rejected(g, all[k], large, same)
    && exists j :: 0 <= j < |all| && all[j] == large && forall m :: 0 <= m < j ==> Rejected(g, all[k], all[m], same)
  }

  /** The pair s is the one the sweeps, going on with row i, come to in row k and do not reject. */
  ghost predicate OpenInOrder(g: Graph, all: seq<TypeSpec>, i: nat, k: nat, s: Step, same: Oracle) {
    && FirstOpen(g, all, k, s.large, same) && s.small == all[k]
    && if i <= k then RowsRejected(g, all, i, k, same)
       else RowsRejected(g, all, i, |all|, same) && RowsRejected(g, all, 0, k, same)
  }

  /** The sweeps, going on with row i, make the step s in row k next. */
  ghost predicate NextInOrder(g: Graph, all: seq<TypeSpec>, i: nat, k: nat, s: Step, same: Oracle) {
    OpenInOrder(g, all, i, k, s, same) && Collapses(g, s.small, s.large, same)
  }

  /** The sweeps, going on with row i, come to a comparison that does not return next. */
  ghost predicate StuckInOrder(g: Graph, all: seq<TypeSpec>, i: nat, k: nat, s: Step, same: Oracle) {
    OpenInOrder(g, all, i, k, s, same) && Hangs(g, s.small, s.large, same)
  }

  /** The steps are those the sweeps make one after the other, from row i of one sweep to row i' of
      another. */
  ghost predicate InOrder(g: Graph, steps: seq<Step>, all: seq<TypeSpec>, i: nat, i': nat, same: Oracle)
    decreases |steps|, 0
  {
    if steps == [] then i' == i else exists k: nat :: FirstInOrder(g, steps[0], steps[1..], all, i, k, i', same)
  }

  /** s is made in row k, and the rest follow. */
  ghost predicate FirstInOrder(g: Graph, s: Step, rest: seq<Step>, all: seq<TypeSpec>, i: nat, k: nat, i': nat, same: Oracle)
    decreases |rest|, 1
  {
    NextInOrder(g, all, i, k, s, same) && s.small in g && s.large in g && InOrder(Apply(g, s), rest, all, k + 1, i', same)
  }

  lemma FirstOfRun(g: Graph, steps: seq<Step>, all: seq<TypeSpec>, i: nat, i': nat, same: Oracle) returns (k: nat)
    requires InOrder(g, steps, all, i, i', same) && steps != []
    ensures FirstInOrder(g, steps[0], steps[1..], all, i, k, i', same)
  {
    k :| FirstInOrder(g, steps[0], steps[1..], all, i, k, i', same);
  }

  lemma OrderedFirst(g: Graph, steps: seq<Step>, all: seq<TypeSpec>, i: nat, i': nat, same: Oracle, s: Step, k: nat)
    requires NextInOrder(g, all, i, k, s, same)
    requires InOrder(Apply(g, s), steps, all, k + 1, i', same)
    ensures InOrder(g, [s] + steps, all, i, i', same)
  {
    var steps' := [s] + steps;
    assert steps'[0] == s && steps'[1..] == steps;
    assert FirstInOrder(g, steps'[0], steps'[1..], all, i, k, i', same);
  }

  lemma {:induction false} OrderedNext(g: Graph, steps: seq<Step>, last: Graph, all: seq<TypeSpec>, i: nat, i': nat,
                                       same: Oracle, s: Step, k: nat)
    requires IsRun(g, steps, last, all, same) && InOrder(g, steps, all, i, i', same)
    requires NextInOrder(last, all, i', k, s, same)
    ensures InOrder(g, steps + [s], all, i, k + 1, same)
    decreases |steps|
  {
    if steps == [] {
      assert steps + [s] == [s] + [];
      OrderedFirst(g, [], all, i, k + 1, same, s, k);
    } else {
      var first, rest := steps[0], steps[1..];
      assert steps + [s] == [first] + (rest + [s]);
      var j: nat :| FirstInOrder(g, first, rest, all, i, j, i', same);
      OrderedNext(Apply(g, first), rest, last, all, j + 1, i', same, s, k);
      OrderedFirst(g, rest + [s], all, i, k + 1, same, first, j);
    }
  }

  /** The order leaves no choice: the next pair that is not rejected is determined. */
  lemma NextIsForced(g: Graph, all: seq<TypeSpec>, i: nat, k: nat, s: Step, k': nat, s': Step, same: Oracle)
    requires OpenInOrder(g, all, i, k, s, same) && OpenInOrder(g, all, i, k', s', same) && i <= |all|
    ensures k == k' && s == s'
  {
    OpenIsNotRejected(g, all, k, s.large, same);
    OpenIsNotRejected(g, all, k', s'.large, same);
    if k == k' {
      OpenIsForced(g, all, k, s.large, s'.large, same);
    }
  }

  lemma OpenIsNotRejected(g: Graph, all: seq<TypeSpec>, k: nat, large: TypeSpec, same: Oracle)
    requires FirstOpen(g, all, k, large, same)
    ensures !RowRejected(g, all[k], all, same)
  {
    assert !Rejected(g, all[k], large, same);
  }

  lemma OpenIsForced(g: Graph, all: seq<TypeSpec>, k: nat, large: TypeSpec, large': TypeSpec, same: Oracle)
    requires FirstOpen(g, all, k, large, same) && FirstOpen(g, all, k, large', same)
    ensures large == large'
  {
    var j :| 0 <= j < |all| && all[j] == large && forall m :: 0 <= m < j ==> Rejected(g, all[k], all[m], same);
    var j' :| 0 <= j' < |all| && all[j'] == large' && forall m :: 0 <= m < j' ==> Rejected(g, all[k], all[m], same);
    assert !Rejected(g, all[k], all[j], same) && !Rejected(g, all[k], all[j'], same);
  }

  /** So a run has the same first step as any other, if it has one. */
  lemma FirstIsForced(g: Graph, steps: seq<Step>, all: seq<TypeSpec>, i: nat, i': nat, k: nat, s: Step, same: Oracle)
    requires InOrder(g, steps, all, i, i', same) && steps != [] && NextInOrder(g, all, i, k, s, same) && i <= |all|
    ensures steps[0] == s && s.small in g && s.large in g && InOrder(Apply(g, s), steps[1..], all, k + 1, i', same)
  {
    var j := FirstOfRun(g, steps, all, i, i', same);
    NextIsForced(g, all, i, j, steps[0], k, s, same);
  }

  // ---------- termination, whatever sameShape answers ----------

  ghost function MostFields(g: Graph, all: seq<TypeSpec>): (r: nat)
    requires forall n <- all :: n in g
    ensures forall n <- all :: |g[n].fields| <= r
  {
    if all == [] then 0 else
      assert forall n <- all :: n == all[0] || n in all[1..];
      Merge.Max(|g[all[0]].fields|, MostFields(g, all[1..]))
  }

  /** Sum over the structs of how many fields they have less than max. */
  ghost function Deficit(g: Graph, all: seq<TypeSpec>, max: nat): nat
    requires forall n <- all :: n in g && |g[n].fields| <= max
  {
    if all == [] then 0 else max - |g[all[0]].fields| + Deficit(g, all[1..], max)
  }

  lemma {:induction false} DeficitSame(g: Graph, g': Graph, all: seq<TypeSpec>, max: nat)
    requires forall n <- all :: n in g && |g[n].fields| <= max
    requires forall n <- all :: n in g' && g'[n].fields == g[n].fields
    ensures Deficit(g', all, max) == Deficit(g, all, max)
  {
    if all != [] {
      DeficitSame(g, g', all[1..], max);
    }
  }

  lemma {:induction false} StepDropsDeficit(g: Graph, all: seq<TypeSpec>, max: nat, s: Step)
    requires Distinct(all) && forall n <- all :: n in g && |g[n].fields| <= max
    requires s.small in all && s.large in g && |g[s.small].fields| < |g[s.large].fields| <= max
    ensures Deficit(Apply(g, s), all, max) < Deficit(g, all, max)
  {
    if all[0] == s.small {
      forall n <- all[1..]
        ensures n != s.small
      {
        var i :| 0 <= i < |all[1..]| && all[1..][i] == n;
        assert all[0] != all[i + 1];
      }
      DeficitSame(g, Apply(g, s), all[1..], max);
    } else {
      assert s.small in all[1..];
      assert Distinct(all[1..]);
      StepDropsDeficit(g, all[1..], max, s);
    }
  }

  /** A run makes at most as many changes as fields are missing, and no struct ever loses one. */
  lemma {:induction false} RunIsBounded(g: Graph, steps: seq<Step>, last: Graph, all: seq<TypeSpec>, same: Oracle, max: nat)
    requires Distinct(all) && forall n <- all :: n in g && |g[n].fields| <= max
    requires IsRun(g, steps, last, all, same)
    ensures forall n <- all :: n in last && |last[n].fields| <= max
    ensures |steps| + Deficit(last, all, max) <= Deficit(g, all, max)
    decreases |steps|
  {
    if steps != [] {
      StepDropsDeficit(g, all, max, steps[0]);
      RunIsBounded(Apply(g, steps[0]), steps[1..], last, all, same, max);
    }
  }

  ghost function FieldNames(fields: seq<FieldSpec>): set<string> {
    set f <- fields :: f.name
  }

  lemma SubsetNames(g: Graph, small: seq<FieldSpec>, large: seq<FieldSpec>, same: Oracle)
    requires CompareFields(g, small, large, same) == Some(true)
    ensures FieldNames(small) <= FieldNames(large)
  {
    SubsetExactly(g, small, large, same);
    forall f <- small
      ensures f.name in FieldNames(large)
    {
      assert MatchedIn(g, f, large, same);
      assert FieldSpec(f.name, LastType(large, f.name)) in large;
    }
  }

  /** Kinds and elements stay, the other nodes stay, and every set of field names only grows. */
  lemma {:induction false} RunGrowsNames(g: Graph, steps: seq<Step>, last: Graph, all: seq<TypeSpec>, same: Oracle, n: TypeSpec)
    requires IsRun(g, steps, last, all, same) && n in g
    ensures last.Keys == g.Keys
    ensures FieldNames(g[n].fields) <= FieldNames(last[n].fields)
    ensures last[n].kind == g[n].kind && last[n].element == g[n].element && last[n].scalar == g[n].scalar
    ensures n !in all ==> last[n] == g[n]
    decreases |steps|
  {
    if steps != [] {
      SubsetNames(g, g[steps[0].small].fields, g[steps[0].large].fields, same);
      RunGrowsNames(Apply(g, steps[0]), steps[1..], last, all, same, n);
    }
  }

  // ---------- documents ----------

  /** In this graph, sameShape's yes for the fields of the step was right about documents. */
  ghost predicate SoundAt(g: Graph, s: Step)
    requires Closed(g) && s.small in g && s.large in g
  {
    forall f <- g[s.small].fields ::
      var t := LastType(g[s.large].fields, f.name);
      f.typ in g && t != null && t in g && Covers(g, f.typ, t)
  }

  lemma ApplyClosed(g: Graph, s: Step)
    requires Closed(g) && s.small in g && s.large in g
    requires g[s.small].kind == KindStruct && g[s.large].kind == KindStruct
    ensures Closed(Apply(g, s))
  {
    var g' := Apply(g, s);
    forall n <- g'
      ensures forall c <- Children(g'[n]) :: c in g'
    {
      assert Children(g'[n]) == if n == s.small then Children(g[s.large]) else Children(g[n]);
    }
  }

  lemma {:induction false} StepAdmits(g: Graph, s: Step, n: TypeSpec, d: Shapes.Doc)
    requires Closed(g) && s.small in g && s.large in g && n in g
    requires g[s.small].kind == KindStruct && g[s.large].kind == KindStruct
    requires Closed(Apply(g, s)) && SoundAt(g, s)
    requires Admits(g, n, d)
    ensures Admits(Apply(g, s), n, d)
    decreases d
  {
    var g' := Apply(g, s);
    match d
    case SequenceDoc(items) =>
      if g[n].element != null {
        assert g'[n].element in Children(g'[n]);
        forall i <- items
          ensures Admits(g', g'[n].element, i)
        {
          StepAdmits(g, s, g[n].element, i);
        }
      }
    case MappingDoc(entries) =>
      forall e <- entries
        ensures AdmitsEntry(g', g'[n].fields, e)
      {
        assert AdmitsEntry(g, g[n].fields, e);
        StepAdmitsEntry(g, s, n, e);
      }
    case _ =>
  }

  lemma {:induction false} StepAdmitsEntry(g: Graph, s: Step, n: TypeSpec, e: Shapes.Entry)
    requires Closed(g) && s.small in g && s.large in g && n in g
    requires g[s.small].kind == KindStruct && g[s.large].kind == KindStruct
    requires Closed(Apply(g, s)) && SoundAt(g, s)
    requires AdmitsEntry(g, g[n].fields, e)
    ensures AdmitsEntry(Apply(g, s), Apply(g, s)[n].fields, e)
    decreases e
  {
    var g' := Apply(g, s);
    var f :| f in g[n].fields && f.name == e.key.name && f.typ in g && Admits(g, f.typ, e.value);
    if n == s.small {
      var t := LastType(g[s.large].fields, f.name);
      assert Covers(g, f.typ, t);
      StepAdmits(g, s, t, e.value);
      assert FieldSpec(f.name, t) in g'[n].fields;
    } else {
      StepAdmits(g, s, f.typ, e.value);
    }
  }

  /** sameShape was right at every step of the run. */
  ghost predicate SoundRun(g: Graph, steps: seq<Step>)
    requires Closed(g)
  {
    steps == [] || (
      var s := steps[0];
      && s.small in g && s.large in g && SoundAt(g, s)
      && Closed(Apply(g, s)) && SoundRun(Apply(g, s), steps[1..]))
  }

  lemma {:induction false} RunClosed(g: Graph, steps: seq<Step>, last: Graph, all: seq<TypeSpec>, same: Oracle)
    requires Closed(g) && StructsOf(g, all) && IsRun(g, steps, last, all, same)
    ensures Closed(last)
    decreases |steps|
  {
    if steps != [] {
      ApplyClosed(g, steps[0]);
      RunClosed(Apply(g, steps[0]), steps[1..], last, all, same);
    }
  }

  lemma {:induction false} RunDistinct(g: Graph, steps: seq<Step>, last: Graph, all: seq<TypeSpec>, same: Oracle)
    requires AllDistinct(g) && StructsOf(g, all) && IsRun(g, steps, last, all, same)
    ensures AllDistinct(last)
    decreases |steps|
  {
    if steps != [] {
      RunDistinct(Apply(g, steps[0]), steps[1..], last, all, same);
    }
  }

  /** The pass loses no document as long as sameShape equates no type with a smaller one. */
  lemma {:induction false} RunAdmits(g: Graph, steps: seq<Step>, last: Graph, all: seq<TypeSpec>, same: Oracle,
                                     n: TypeSpec, d: Shapes.Doc)
    requires Closed(g) && StructsOf(g, all) && IsRun(g, steps, last, all, same) && SoundRun(g, steps)
    requires n in g && Admits(g, n, d)
    ensures n in last && Closed(last) && Admits(last, n, d)
    decreases |steps|
  {
    if steps != [] {
      ApplyClosed(g, steps[0]);
      StepAdmits(g, steps[0], n, d);
      RunAdmits(Apply(g, steps[0]), steps[1..], last, all, same, n, d);
    }
  }

  // ---------- when sameShape is right ----------

  /** What can be checked before a step: no field of the larger struct has an element-less slice
      opposite a known element of the smaller one. */
  ghost predicate SafeAt(g: Graph, s: Step)
    requires s.small in g && s.large in g
  {
    forall f <- g[s.small].fields :: !FieldLoses(g, f, g[s.large].fields, Enough(g))
  }

  /** The check is exact: sameShape was right for the fields of a step iff it is passed. */
  lemma SoundExactly(g: Graph, s: Step)
    requires Closed(g) && AllDistinct(g) && Collapses(g, s.small, s.large, Source())
    requires g[s.small].kind == KindStruct && g[s.large].kind == KindStruct
    ensures SoundAt(g, s) <==> SafeAt(g, s)
  {
    SubsetExactly(g, g[s.small].fields, g[s.large].fields, Source());
    FieldTypesInside(g, s.small);
    FieldTypesInside(g, s.large);
    forall f <- g[s.small].fields
      ensures var t := LastType(g[s.large].fields, f.name);
              f.typ in g && t != null && t in g && (Covers(g, f.typ, t) <==> !FieldLoses(g, f, g[s.large].fields, Enough(g)))
    {
      assert MatchedIn(g, f, g[s.large].fields, Source());
      CoversExactly(g, f.typ, LastType(g[s.large].fields, f.name), Enough(g));
    }
  }

  /** Every step of the run passed that check. */
  ghost predicate SafeRun(g: Graph, steps: seq<Step>) {
    steps == [] || (
      var s := steps[0];
      s.small in g && s.large in g && SafeAt(g, s) && SafeRun(Apply(g, s), steps[1..]))
  }

  lemma {:induction false} SafeRunIsSound(g: Graph, steps: seq<Step>, last: Graph, all: seq<TypeSpec>)
    requires Closed(g) && AllDistinct(g) && StructsOf(g, all) && IsRun(g, steps, last, all, Source())
    requires SafeRun(g, steps)
    ensures SoundRun(g, steps)
    decreases |steps|
  {
    if steps != [] {
      SoundExactly(g, steps[0]);
      ApplyClosed(g, steps[0]);
      SafeRunIsSound(Apply(g, steps[0]), steps[1..], last, all);
    }
  }

  /** Where every slice knows its element, each step passes. */
  lemma {:induction false} KnownRunIsSafe(g: Graph, steps: seq<Step>, last: Graph, all: seq<TypeSpec>)
    requires AllKnown(g) && IsRun(g, steps, last, all, Source())
    ensures SafeRun(g, steps)
    decreases |steps|
  {
    if steps != [] {
      var s := steps[0];
      forall f <- g[s.small].fields
        ensures !FieldLoses(g, f, g[s.large].fields, Enough(g))
      {
        var t := LastType(g[s.large].fields, f.name);
        if t != null {
          KnownLosesNothing(g, f.typ, t, Enough(g));
        }
      }
      KnownRunIsSafe(Apply(g, s), steps[1..], last, all);
    }
  }

  /** With the source's own comparison the pass loses no document at any node, cycles or not, if
      every step passed the check; so it does if every slice knows its element. */
  lemma RunKeepsDocuments(g: Graph, steps: seq<Step>, last: Graph, all: seq<TypeSpec>, n: TypeSpec, d: Shapes.Doc)
    requires Closed(g) && AllDistinct(g) && StructsOf(g, all) && IsRun(g, steps, last, all, Source())
    requires AllKnown(g) || SafeRun(g, steps)
    requires n in g && Admits(g, n, d)
    ensures n in last && Closed(last) && Admits(last, n, d)
  {
    if AllKnown(g) {
      KnownRunIsSafe(g, steps, last, all);
    }
    SafeRunIsSound(g, steps, last, all);
    RunAdmits(g, steps, last, all, Source(), n, d);
  }

  // ---------- the name of a struct ----------

  /** n bears the name in every graph of the run. */
  ghost predicate NamedThroughout(g: Graph, steps: seq<Step>, n: TypeSpec, name: string) {
    && n in g && g[n].name == name
    && (steps == [] || (
          steps[0].small in g && steps[0].large in g && NamedThroughout(Apply(g, steps[0]), steps[1..], n, name)))
  }

  /** A struct keeps its name throughout a run iff it is never the smaller one. */
  lemma {:induction false} NameKeptExactly(g: Graph, steps: seq<Step>, last: Graph, all: seq<TypeSpec>, same: Oracle, n: TypeSpec)
    requires IsRun(g, steps, last, all, same) && n in g
    ensures NamedThroughout(g, steps, n, g[n].name) <==> forall s <- steps :: s.small != n
    ensures (forall s <- steps :: s.small != n) ==> n in last && last[n].name == g[n].name
    decreases |steps|
  {
    if steps != [] {
      NameKeptExactly(Apply(g, steps[0]), steps[1..], last, all, same, n);
      assert steps == [steps[0]] + steps[1..];
    }
  }

  /** Other structs of the name have no more fields than n while n bears it, and fewer otherwise. */
  ghost predicate NoLargerNamesake(g: Graph, n: TypeSpec, name: string)
    requires n in g
  {
    forall m <- g | m != n && g[m].name == name ::
      |g[m].fields| < |g[n].fields| || (|g[m].fields| == |g[n].fields| && g[n].name == name)
  }

  /** Then n bears the name in the end iff it bore it and was never the smaller struct: a struct that
      takes it over from n has no more fields than n has. */
  lemma {:induction false} NameKeptAlone(g: Graph, steps: seq<Step>, last: Graph, all: seq<TypeSpec>, same: Oracle,
                                         n: TypeSpec, name: string)
    requires IsRun(g, steps, last, all, same) && n in g && NoLargerNamesake(g, n, name)
    ensures n in last
    ensures last[n].name == name <==> g[n].name == name && forall s <- steps :: s.small != n
    decreases |steps|
  {
    if steps != [] {
      assert NoLargerNamesake(Apply(g, steps[0]), n, name);
      NameKeptAlone(Apply(g, steps[0]), steps[1..], last, all, same, n, name);
      assert steps == [steps[0]] + steps[1..];
    }
  }

  // ---------- the pass ----------

  /** So many nested calls are more than any comparison of these structs can need. */
  ghost predicate Enclosed(g: Graph, all: seq<TypeSpec>, calls: nat) {
    exists nodes: set<TypeSpec> | nodes <= g.Keys :: Inside(g, nodes) && Set(all) <= nodes && |nodes| * |nodes| < calls
  }

  lemma EnclosedNext(g: Graph, all: seq<TypeSpec>, calls: nat, s: Step)
    requires Enclosed(g, all, calls) && s.small in all && s.large in all
    requires s.small in g && s.large in g && g[s.small].kind == KindStruct && g[s.large].kind == KindStruct
    ensures Enclosed(Apply(g, s), all, calls)
  {
    var nodes: set<TypeSpec> :| nodes <= g.Keys && Inside(g, nodes) && Set(all) <= nodes && |nodes| * |nodes| < calls;
    var g' := Apply(g, s);
    assert s.small in Set(all) && s.large in Set(all);
    forall n <- nodes
      ensures n in g' && forall c <- Children(g'[n]) | c in g' :: c in nodes
    {
      assert Children(g'[n]) == if n == s.small then Children(g[s.large]) else Children(g[n]);
    }
    assert Inside(g', nodes);
  }

  method CheckSubsetStruct(small: TypeSpec, large: TypeSpec, calls: nat, ghost g: Graph, ghost all: seq<TypeSpec>)
    returns (r: Option<bool>)
    requires g == Snap(g.Keys) && Closed(g) && StructsOf(g, all) && small in all && large in all && Enclosed(g, all, calls)
    ensures r == CompareFields(g, g[small].fields, g[large].fields, Source())
  {
    ghost var nodes: set<TypeSpec> :| nodes <= g.Keys && Inside(g, nodes) && Set(all) <= nodes && |nodes| * |nodes| < calls;
    assert small in nodes && large in nodes;
    FieldTypesInside(g, small);
    FieldTypesInside(g, large);
    FieldsKnown(g, nodes, small);
    FieldsKnown(g, nodes, large);
    FieldsReturnWithin(g, nodes, g[small].fields, g[large].fields, calls);
    CompareIsSameFields(g, g[small].fields, g[large].fields);
    r := MatchFields(small.fields, large.fields, calls, g);
  }

  /** The two assignments to the smaller struct. */
  method TakeOver(small: TypeSpec, large: TypeSpec, ghost nodes: set<TypeSpec>)
    requires small in nodes && large in nodes
    modifies small
    ensures Snap(nodes) == Apply(old(Snap(nodes)), Step(small, large))
  {
    small.name := large.name;
    small.fields := large.fields;
  }

  /** What became of one smaller struct, of a sweep, or of the pass: None if a comparison does not
      return. */
  type Progress = Option<bool>

  /** What became of one pair. */
  ghost predicate Tried(g: Graph, g': Graph, at: Step, found: Progress) {
    match found
    case Some(true) => Collapses(g, at.small, at.large, Source()) && g' == Apply(g, at)
    case Some(false) => g' == g && Rejected(g, at.small, at.large, Source())
    case None => g' == g && Hangs(g, at.small, at.large, Source())
  }

  /** The body of the inner loop. */
  method CollapsePair(small: TypeSpec, large: TypeSpec, calls: nat, ghost g: Graph, ghost all: seq<TypeSpec>)
    returns (found: Progress)
    requires g == Snap(g.Keys) && Closed(g) && StructsOf(g, all) && Enclosed(g, all, calls) && small in all && large in all
    modifies g.Keys
    ensures Tried(g, Snap(g.Keys), Step(small, large), found)
  {
    assert g[small] == Snap(g.Keys)[small] && g[large] == Snap(g.Keys)[large];
    if small == large || small.name == large.name || |small.fields| >= |large.fields| {
      return Some(false);
    }
    found := CheckSubsetStruct(small, large, calls, g, all);
    if found == Some(true) {
      TakeOver(small, large, g.Keys);
    }
  }

  ghost predicate RejectedBefore(g: Graph, all: seq<TypeSpec>, k: nat, j: nat, same: Oracle) {
    k < |all| && j <= |all| && forall m :: 0 <= m < j ==> Rejected(g, all[k], all[m], same)
  }

  /** What became of the smaller struct all[k], and of which pair. */
  ghost predicate TriedAll(g: Graph, g': Graph, all: seq<TypeSpec>, k: nat, at: Step, found: Progress) {
    && k < |all| && at.small == all[k] && at.large in all
    && if found == Some(false) then g' == g && RowsRejected(g, all, k, k + 1, Source())
       else FirstOpen(g, all, k, at.large, Source()) && Tried(g, g', at, found)
  }

  lemma StopsAt(g: Graph, g': Graph, all: seq<TypeSpec>, k: nat, j: nat, found: Progress)
    requires RejectedBefore(g, all, k, j, Source()) && j < |all|
    requires Tried(g, g', Step(all[k], all[j]), found) && found != Some(false)
    ensures TriedAll(g, g', all, k, Step(all[k], all[j]), found)
  {
    assert !Rejected(g, all[k], all[j], Source());
  }

  lemma NotFoundYet(g: Graph, g': Graph, all: seq<TypeSpec>, k: nat, j: nat)
    requires RejectedBefore(g, all, k, j, Source()) && j < |all| && Tried(g, g', Step(all[k], all[j]), Some(false))
    ensures g' == g && RejectedBefore(g, all, k, j + 1, Source())
  {
  }

  lemma NoneFound(g: Graph, all: seq<TypeSpec>, k: nat)
    requires RejectedBefore(g, all, k, |all|, Source())
    ensures TriedAll(g, g, all, k, Step(all[k], all[k]), Some(false))
  {
    assert RowRejected(g, all[k], all, Source());
  }

  /** The inner loop for one smaller struct; Some(true) if it was collapsed. */
  method CollapseOne(k: nat, all: seq<TypeSpec>, calls: nat, ghost g: Graph) returns (found: Progress, ghost at: Step)
    requires g == Snap(g.Keys) && Closed(g) && StructsOf(g, all) && Enclosed(g, all, calls) && k < |all|
    modifies g.Keys
    ensures TriedAll(g, Snap(g.Keys), all, k, at, found)
  {
    var small := all[k];
    for j := 0 to |all|
      invariant Snap(g.Keys) == g && RejectedBefore(g, all, k, j, Source())
    {
      found := CollapsePair(small, all[j], calls, g, all);
      ghost var g' := Snap(g.Keys);
      if found != Some(false) {
        StopsAt(g, g', all, k, j, found);
        return found, Step(small, all[j]);
      }
      NotFoundYet(g, g', all, k, j);
    }
    NoneFound(g, all, k);
    return Some(false), Step(small, small);
  }

  /** The graph g is what the steps have made of g0, and the sweeps stand before row i, where the
      last step was made in row i' - 1. */
  ghost predicate Reached(g0: Graph, steps: seq<Step>, g: Graph, all: seq<TypeSpec>, i': nat, calls: nat) {
    && Closed(g) && StructsOf(g, all) && g.Keys == g0.Keys && IsRun(g0, steps, g, all, Source())
    && InOrder(g0, steps, all, 0, i', Source()) && i' <= |all| && Enclosed(g, all, calls)
  }

  /** Since that step, which was made in this sweep or in the one before, all rows were rejected. */
  ghost predicate StandsAt(g: Graph, all: seq<TypeSpec>, i': nat, i: nat) {
    if i' <= i then RowsRejected(g, all, i', i, Source())
    else RowsRejected(g, all, i', |all|, Source()) && RowsRejected(g, all, 0, i, Source())
  }

  /** The next comparison the sweeps come to, going on with row i, does not return. */
  ghost predicate Stuck(g: Graph, all: seq<TypeSpec>, i: nat) {
    exists k: nat, a <- all, b <- all :: StuckInOrder(g, all, i, k, Step(a, b), Source())
  }

  lemma StuckAt(g: Graph, all: seq<TypeSpec>, i: nat) returns (k: nat, at: Step)
    requires Stuck(g, all, i)
    ensures StuckInOrder(g, all, i, k, at, Source())
  {
    var k': nat, a, b :| a in all && b in all && StuckInOrder(g, all, i, k', Step(a, b), Source());
    k, at := k', Step(a, b);
  }

  lemma ReachedNext(g0: Graph, steps: seq<Step>, g: Graph, all: seq<TypeSpec>, i': nat, k: nat, calls: nat, s: Step)
    requires Reached(g0, steps, g, all, i', calls) && StandsAt(g, all, i', k)
    requires FirstOpen(g, all, k, s.large, Source()) && s.small == all[k] && Collapses(g, s.small, s.large, Source())
    ensures Reached(g0, steps + [s], Apply(g, s), all, k + 1, calls)
  {
    RunStep(g0, steps, g, all, Source(), s);
    OrderedNext(g0, steps, g, all, 0, i', Source(), s, k);
    ApplyClosed(g, s);
    EnclosedNext(g, all, calls, s);
  }

  lemma NextRow(g: Graph, all: seq<TypeSpec>, i': nat, i: nat)
    requires StandsAt(g, all, i', i) && RowsRejected(g, all, i, i + 1, Source()) && i < |all|
    ensures StandsAt(g, all, i', i + 1)
  {
  }

  /** Before row i of a sweep that began in graph start after the steps before. */
  ghost predicate Sweeping(start: Graph, before: seq<Step>, row: nat, g0: Graph, steps: seq<Step>, g: Graph,
                           all: seq<TypeSpec>, row': nat, i: nat, calls: nat)
  {
    && Reached(g0, steps, g, all, row', calls) && StandsAt(g, all, row', i)
    && if |before| < |steps| then 0 < row' <= i
       else steps == before && row' == row && g == start && RowsRejected(start, all, 0, i, Source())
  }

  /** What is known after row i. */
  ghost predicate RowMade(start: Graph, before: seq<Step>, row: nat, g0: Graph, steps: seq<Step>, g: Graph,
                          all: seq<TypeSpec>, row': nat, i: nat, calls: nat, found: Progress)
  {
    if found == None then Reached(g0, steps, g, all, row', calls) && Stuck(g, all, row')
    else Sweeping(start, before, row, g0, steps, g, all, row', i + 1, calls)
  }

  lemma RowDone(start: Graph, before: seq<Step>, row: nat, g0: Graph, steps: seq<Step>, g: Graph,
                all: seq<TypeSpec>, row': nat, i: nat, calls: nat)
    requires Sweeping(start, before, row, g0, steps, g, all, row', i, calls) && i < |all|
    requires RowsRejected(g, all, i, i + 1, Source())
    ensures Sweeping(start, before, row, g0, steps, g, all, row', i + 1, calls)
  {
    NextRow(g, all, row', i);
  }

  lemma RowStepped(start: Graph, before: seq<Step>, row: nat, g0: Graph, steps: seq<Step>, g: Graph,
                   all: seq<TypeSpec>, row': nat, i: nat, calls: nat, s: Step)
    requires Sweeping(start, before, row, g0, steps, g, all, row', i, calls) && |before| <= |steps|
    requires FirstOpen(g, all, i, s.large, Source()) && s.small == all[i] && Collapses(g, s.small, s.large, Source())
    ensures Sweeping(start, before, row, g0, steps + [s], Apply(g, s), all, i + 1, i + 1, calls)
  {
    ReachedNext(g0, steps, g, all, row', i, calls, s);
  }

  lemma RowStuck(g: Graph, all: seq<TypeSpec>, row': nat, i: nat, at: Step)
    requires StandsAt(g, all, row', i) && FirstOpen(g, all, i, at.large, Source()) && at.small == all[i] && at.large in all
    requires Hangs(g, at.small, at.large, Source())
    ensures Stuck(g, all, row')
  {
    assert StuckInOrder(g, all, row', i, Step(at.small, at.large), Source());
  }

  lemma AfterRow(start: Graph, before: seq<Step>, row: nat, g0: Graph, steps: seq<Step>, g: Graph, g': Graph,
                 all: seq<TypeSpec>, row': nat, i: nat, calls: nat, at: Step, found: Progress)
    requires Sweeping(start, before, row, g0, steps, g, all, row', i, calls) && |before| <= |steps|
    requires TriedAll(g, g', all, i, at, found)
    ensures if found == Some(true) then RowMade(start, before, row, g0, steps + [at], g', all, i + 1, i, calls, found)
            else RowMade(start, before, row, g0, steps, g', all, row', i, calls, found)
  {
    match found
    case Some(true) => RowStepped(start, before, row, g0, steps, g, all, row', i, calls, at);
    case Some(false) => RowDone(start, before, row, g0, steps, g, all, row', i, calls);
    case None => RowStuck(g, all, row', i, at);
  }

  lemma SweepDone(start: Graph, before: seq<Step>, row: nat, g0: Graph, steps: seq<Step>, g: Graph,
                  all: seq<TypeSpec>, row': nat, calls: nat)
    requires Sweeping(start, before, row, g0, steps, g, all, row', |all|, calls)
    ensures if |before| < |steps| then StandsAt(g, all, row', 0) else AllRejected(g, all, Source())
  {
    if |before| >= |steps| {
      RowsAreAll(g, all, Source());
    }
  }

  lemma RowsAreAll(g: Graph, all: seq<TypeSpec>, same: Oracle)
    ensures AllRejected(g, all, same) <==> RowsRejected(g, all, 0, |all|, same)
  {
    if RowsRejected(g, all, 0, |all|, same) {
      forall a <- all, b <- all
        ensures Rejected(g, a, b, same)
      {
        var i :| 0 <= i < |all| && all[i] == a;
        assert RowRejected(g, all[i], all, same);
      }
    }
  }

  /** One row of a sweep; found tells whether it made a step, None if a comparison does not return. */
  method SweepRow(all: seq<TypeSpec>, i: nat, calls: nat, ghost g0: Graph, ghost steps: seq<Step>, ghost row': nat,
                  ghost start: Graph, ghost before: seq<Step>, ghost row: nat, ghost g: Graph)
    returns (found: Progress, ghost steps': seq<Step>, ghost row'': nat)
    requires g == Snap(g.Keys) && Sweeping(start, before, row, g0, steps, g, all, row', i, calls)
    requires i < |all| && |before| <= |steps|
    modifies g.Keys
    ensures RowMade(start, before, row, g0, steps', Snap(g.Keys), all, row'', i, calls, found)
    ensures |steps'| == |steps| + if found == Some(true) then 1 else 0
  {
    ghost var at;
    found, at := CollapseOne(i, all, calls, g);
    ghost var g' := Snap(g.Keys);
    AfterRow(start, before, row, g0, steps, g, g', all, row', i, calls, at, found);
    steps' := if found == Some(true) then steps + [at] else steps;
    row'' := if found == Some(true) then i + 1 else row';
  }

  /** The closure pass: one sweep over all pairs. */
  method Pass(all: seq<TypeSpec>, calls: nat, ghost g0: Graph, ghost before: seq<Step>, ghost row: nat)
    returns (changed: Progress, ghost steps: seq<Step>, ghost row': nat)
    requires Reached(g0, before, Snap(g0.Keys), all, row, calls) && StandsAt(Snap(g0.Keys), all, row, 0)
    modifies g0.Keys
    ensures Reached(g0, steps, Snap(g0.Keys), all, row', calls)
    ensures match changed
            case Some(true) => |before| < |steps| && StandsAt(Snap(g0.Keys), all, row', 0)
            case Some(false) => |steps| == |before| && AllRejected(Snap(g0.Keys), all, Source())
            case None => Stuck(Snap(g0.Keys), all, row')
  {
    var any := false;
    steps, row' := before, row;
    ghost var start := Snap(g0.Keys);
    for i := 0 to |all|
      invariant Sweeping(start, before, row, g0, steps, Snap(g0.Keys), all, row', i, calls)
      invariant if any then |before| < |steps| else |before| == |steps|
    {
      var found;
      found, steps, row' := SweepRow(all, i, calls, g0, steps, row', start, before, row, Snap(g0.Keys));
      if found == None {
        return None, steps, row';
      }
      any := any || found.value;
    }
    SweepDone(start, before, row, g0, steps, Snap(g0.Keys), all, row', calls);
    return Some(any), steps, row';
  }

  /** all are the structs reachable from the root, in the order of the walk. */
  ghost predicate AreStructs(g: Graph, root: TypeSpec, all: seq<TypeSpec>) {
    all == StructsAmong(g, Walk(g, root, {})) && StructsOf(g, all)
  }

  ghost function StructsAmong(g: Graph, calls: seq<TypeSpec>): seq<TypeSpec> {
    if calls == [] then [] else
      var k := |calls| - 1;
      StructsAmong(g, calls[..k]) + if calls[k] in g && g[calls[k]].kind == KindStruct then [calls[k]] else []
  }

  lemma {:induction false} StructsAmongExact(g: Graph, calls: seq<TypeSpec>, n: TypeSpec)
    ensures n in StructsAmong(g, calls) <==> n in calls && n in g && g[n].kind == KindStruct
  {
    if calls != [] {
      var k := |calls| - 1;
      StructsAmongExact(g, calls[..k], n);
      assert calls == calls[..k] + [calls[k]];
    }
  }

  lemma AllReachable(g: Graph, root: TypeSpec, all: seq<TypeSpec>, n: TypeSpec)
    requires Closed(g) && root in g && AreStructs(g, root, all)
    ensures n in all <==> n in g && g[n].kind == KindStruct && Reaches(g, root, n)
  {
    StructsAmongExact(g, Walk(g, root, {}), n);
    VisitsExactlyTheReachable(g, root);
  }

  lemma {:induction false} StructsAmongDistinct(g: Graph, calls: seq<TypeSpec>)
    requires Distinct(calls)
    ensures StructsOf(g, StructsAmong(g, calls))
  {
    if calls != [] {
      var k := |calls| - 1;
      StructsAmongDistinct(g, calls[..k]);
      StructsAmongExact(g, calls[..k], calls[k]);
      assert calls[k] !in calls[..k];
    }
  }

  lemma NextAmong(g: Graph, calls: seq<TypeSpec>, i: nat)
    requires i < |calls| && forall n <- calls :: n in g
    ensures calls[i] in g
    ensures StructsAmong(g, calls[..i + 1]) ==
            StructsAmong(g, calls[..i]) + if g[calls[i]].kind == KindStruct then [calls[i]] else []
  {
    assert calls[..i + 1][..i] == calls[..i] && calls[i] in calls;
  }

  /** The structs, and how many nodes were visited. */
  method CollectAll(root: TypeSpec, ghost g: Graph) returns (all: seq<TypeSpec>, visited: nat)
    requires g == Snap(g.Keys) && Closed(g) && root in g
    ensures AreStructs(g, root, all) && visited == |Walk(g, root, {})|
  {
    var nodes, _ := VisitWith(root, {}, g);
    WalkFresh(g, root, {});
    all := [];
    for i := 0 to |nodes|
      invariant all == StructsAmong(g, nodes[..i])
    {
      NextAmong(g, nodes, i);
      if nodes[i].kind == KindStruct {
        all := all + [nodes[i]];
      }
    }
    assert nodes[..|nodes|] == nodes;
    StructsAmongDistinct(g, nodes);
    return all, |nodes|;
  }

  lemma {:induction false} SetSize(calls: seq<TypeSpec>)
    ensures |Set(calls)| <= |calls|
  {
    if calls != [] {
      SetSize(calls[1..]);
      assert Set(calls) == Set(calls[1..]) + {calls[0]};
    }
  }

  /** The nodes visited are enough to bound the comparisons of what the walk has found. */
  lemma VisitedEnclose(g: Graph, root: TypeSpec, all: seq<TypeSpec>, visited: nat)
    requires Closed(g) && root in g && AreStructs(g, root, all) && visited == |Walk(g, root, {})|
    ensures Enclosed(g, all, visited * visited + 1)
  {
    var calls := Walk(g, root, {});
    var nodes := Set(calls);
    WalkFresh(g, root, {});
    WalkComplete(g, root, {});
    SetSize(calls);
    SquareGrows(|nodes|, visited);
    assert Set(all) <= nodes by {
      forall n <- all
        ensures n in calls
      {
        StructsAmongExact(g, calls, n);
      }
    }
    assert Inside(g, nodes) by {
      assert {} + nodes == nodes;
    }
  }

  lemma SquareGrows(m: nat, n: nat)
    requires m <= n
    ensures m * m <= n * n
  {
  }

  /** Going on with row i, the steps lead to last, where no pair is left. */
  ghost predicate Completes(g: Graph, steps: seq<Step>, last: Graph, all: seq<TypeSpec>, i: nat, row: nat) {
    && IsRun(g, steps, last, all, Source()) && InOrder(g, steps, all, i, row, Source())
    && AllRejected(last, all, Source())
  }

  /** Going on with row i, the steps lead to last, where the next comparison does not return. */
  ghost predicate GetsStuck(g: Graph, steps: seq<Step>, last: Graph, all: seq<TypeSpec>, i: nat, row: nat) {
    && IsRun(g, steps, last, all, Source()) && InOrder(g, steps, all, i, row, Source())
    && Stuck(last, all, row)
  }

  lemma CompletesNext(g: Graph, s: Step, rest: seq<Step>, last: Graph, all: seq<TypeSpec>, i: nat, k: nat, row: nat)
    requires NextInOrder(g, all, i, k, s, Source()) && s.small in g && s.large in g
    requires Completes(Apply(g, s), rest, last, all, k + 1, row)
    ensures Completes(g, [s] + rest, last, all, i, row)
  {
    OrderedFirst(g, rest, all, i, row, Source(), s, k);
    assert ([s] + rest)[1..] == rest;
  }

  /** There is only one run that leaves no pair. */
  lemma {:induction false} OnlyRun(g: Graph, steps: seq<Step>, last: Graph, row: nat, steps': seq<Step>, last': Graph, row': nat,
                                   all: seq<TypeSpec>, i: nat)
    requires Completes(g, steps, last, all, i, row) && Completes(g, steps', last', all, i, row') && i <= |all|
    ensures steps == steps' && last == last' && row == row'
    decreases |steps|
  {
    if steps != [] {
      var s, rest := steps[0], steps[1..];
      var k := FirstOfRun(g, steps, all, i, row, Source());
      SomethingLeft(g, steps', last', all, i, row', k, s);
      FirstIsForced(g, steps', all, i, row', k, s, Source());
      OnlyRun(Apply(g, s), rest, last, row, steps'[1..], last', row', all, k + 1);
      assert steps == [s] + rest && steps' == [s] + steps'[1..];
    } else {
      NothingLeft(g, steps', all, i, row');
    }
  }

  lemma NothingLeft(g: Graph, steps: seq<Step>, all: seq<TypeSpec>, i: nat, row: nat)
    requires AllRejected(g, all, Source()) && InOrder(g, steps, all, i, row, Source())
    ensures steps == []
  {
    if steps != [] {
      var s := steps[0];
      var k := FirstOfRun(g, steps, all, i, row, Source());
      OpenIsNotRejected(g, all, k, s.large, Source());
      assert false;
    }
  }

  lemma {:induction false} NotBoth(g: Graph, steps: seq<Step>, last: Graph, row: nat, steps': seq<Step>, last': Graph, row': nat,
                                   all: seq<TypeSpec>, i: nat)
    requires Completes(g, steps, last, all, i, row) && i <= |all|
    ensures !GetsStuck(g, steps', last', all, i, row')
    decreases |steps|
  {
    if GetsStuck(g, steps', last', all, i, row') {
      if steps' == [] {
        var k, s := StuckAt(g, all, i);
        NotStuckYet(g, steps, last, all, i, row, k, s);
      } else {
        var s, rest := steps'[0], steps'[1..];
        var k := FirstOfRun(g, steps', all, i, row', Source());
        SomethingLeft(g, steps, last, all, i, row, k, s);
        FirstIsForced(g, steps, all, i, row, k, s, Source());
        NotBoth(Apply(g, s), steps[1..], last, row, rest, last', row', all, k + 1);
      }
    }
  }

  lemma SomethingLeft(g: Graph, steps: seq<Step>, last: Graph, all: seq<TypeSpec>, i: nat, row: nat, k: nat, s: Step)
    requires Completes(g, steps, last, all, i, row) && OpenInOrder(g, all, i, k, s, Source())
    ensures steps != []
  {
    OpenIsNotRejected(g, all, k, s.large, Source());
    if steps == [] {
      assert RowRejected(g, all[k], all, Source());
    }
  }

  lemma NotStuckYet(g: Graph, steps: seq<Step>, last: Graph, all: seq<TypeSpec>, i: nat, row: nat, k: nat, s: Step)
    requires Completes(g, steps, last, all, i, row) && i <= |all|
    ensures !StuckInOrder(g, all, i, k, s, Source())
  {
    if StuckInOrder(g, all, i, k, s, Source()) {
      SomethingLeft(g, steps, last, all, i, row, k, s);
      var j := FirstOfRun(g, steps, all, i, row, Source());
      NextIsForced(g, all, i, j, steps[0], k, s, Source());
    }
  }

  lemma {:induction false} FirstInRow(g: Graph, all: seq<TypeSpec>, k: nat, j: nat, same: Oracle) returns (large: TypeSpec)
    requires k < |all| && j <= |all| && !RowRejected(g, all[k], all, same)
    requires forall m :: 0 <= m < j ==> Rejected(g, all[k], all[m], same)
    ensures FirstOpen(g, all, k, large, same)
    decreases |all| - j
  {
    if j == |all| {
      assert false;
    }
    if Rejected(g, all[k], all[j], same) {
      large := FirstInRow(g, all, k, j + 1, same);
    } else {
      large := all[j];
    }
  }

  lemma {:induction false} FirstRow(g: Graph, all: seq<TypeSpec>, from: nat, i: nat, to: nat, same: Oracle) returns (k: nat)
    requires from <= i && i <= to && to <= |all|
    requires RowsRejected(g, all, from, i, same) && !RowsRejected(g, all, from, to, same)
    ensures from <= k < to && RowsRejected(g, all, from, k, same) && !RowRejected(g, all[k], all, same)
    decreases |all| - i
  {
    if RowRejected(g, all[i], all, same) {
      k := FirstRow(g, all, from, i + 1, to, same);
    } else {
      k := i;
    }
  }

  /** As long as not all pairs are rejected the sweeps come to one that is not. */
  lemma NextOpen(g: Graph, all: seq<TypeSpec>, i: nat, same: Oracle) returns (k: nat, s: Step)
    requires i <= |all| && !AllRejected(g, all, same)
    ensures OpenInOrder(g, all, i, k, s, same)
  {
    RowsAreAll(g, all, same);
    if RowsRejected(g, all, i, |all|, same) {
      k := FirstRow(g, all, 0, 0, |all|, same);
    } else {
      k := FirstRow(g, all, i, i, |all|, same);
    }
    var large := FirstInRow(g, all, k, 0, same);
    s := Step(all[k], large);
  }

  lemma OpenCollapses(g: Graph, small: TypeSpec, large: TypeSpec, same: Oracle)
    requires !Rejected(g, small, large, same)
    ensures Collapses(g, small, large, same) || Hangs(g, small, large, same)
  {
    var r := CompareFields(g, g[small].fields, g[large].fields, same);
    match r
    case None =>
    case Some(yes) => assert yes;
  }

  /** The sweeps lead to one of the two, because each step adds fields. */
  lemma {:induction false} OneOfBoth(g: Graph, all: seq<TypeSpec>, i: nat, max: nat)
    returns (steps: seq<Step>, last: Graph, row: nat)
    requires Distinct(all) && (forall n <- all :: n in g && |g[n].fields| <= max) && i <= |all|
    ensures Completes(g, steps, last, all, i, row) || GetsStuck(g, steps, last, all, i, row)
    decreases Deficit(g, all, max)
  {
    steps, last, row := [], g, i;
    if !AllRejected(g, all, Source()) {
      var k, s := NextOpen(g, all, i, Source());
      if Hangs(g, s.small, s.large, Source()) {
        assert StuckInOrder(g, all, i, k, Step(s.small, s.large), Source());
      } else {
        OpenCollapses(g, s.small, s.large, Source());
        StepDropsDeficit(g, all, max, s);
        var rest;
        rest, last, row := OneOfBoth(Apply(g, s), all, k + 1, max);
        OrderedFirst(g, rest, all, i, row, Source(), s, k);
        steps := [s] + rest;
        assert steps[1..] == rest;
      }
    }
  }

  /** Exactly when the pass returns: iff its steps do not lead to a graph in which the next comparison of
      the sweeps runs on for ever. */
  lemma ReturnsUnlessStuck(g: Graph, all: seq<TypeSpec>)
    requires StructsOf(g, all)
    ensures (exists steps, last, row :: Completes(g, steps, last, all, 0, row)) <==>
            !exists steps, last, row :: GetsStuck(g, steps, last, all, 0, row)
  {
    if steps, last, row :| Completes(g, steps, last, all, 0, row) {
      forall steps', last', row' | GetsStuck(g, steps', last', all, 0, row')
        ensures false
      {
        NotBoth(g, steps, last, row, steps', last', row', all, 0);
      }
    } else {
      var steps, last, row := OneOfBoth(g, all, 0, MostFields(g, all));
    }
  }

  /** The sweeps, one after the other. */
  method Sweep(all: seq<TypeSpec>, calls: nat, ghost g0: Graph) returns (ended: bool, ghost steps: seq<Step>, ghost row: nat)
    requires g0 == Snap(g0.Keys) && Closed(g0) && StructsOf(g0, all) && Enclosed(g0, all, calls)
    modifies g0.Keys
    ensures Snap(g0.Keys).Keys == g0.Keys
    ensures if ended then Completes(g0, steps, Snap(g0.Keys), all, 0, row)
            else GetsStuck(g0, steps, Snap(g0.Keys), all, 0, row)
  {
    steps, row := [], 0;
    ghost var max := MostFields(g0, all);
    while true
      invariant Reached(g0, steps, Snap(g0.Keys), all, row, calls) && StandsAt(Snap(g0.Keys), all, row, 0)
      invariant |steps| <= Deficit(g0, all, max)
      decreases Deficit(g0, all, max) - |steps|
    {
      var changed;
      changed, steps, row := Pass(all, calls, g0, steps, row);
      RunIsBounded(g0, steps, Snap(g0.Keys), all, Source(), max);
      if changed != Some(true) {
        return changed.Some?, steps, row;
      }
    }
  }

  /** A field that keeps a struct apart from others: they have no field of its name, or sameShape tells the
      two types apart. */
  ghost predicate SetsApart(g: Graph, f: FieldSpec, others: seq<FieldSpec>) {
    (forall h <- others :: h.name != f.name) || Compared(g, f.typ, LastType(others, f.name)) == Some(false)
  }

  lemma {:induction false} RefusedBy(g: Graph, small: seq<FieldSpec>, large: seq<FieldSpec>)
    requires CompareFields(g, small, large, Source()) == Some(false)
    ensures exists f <- small :: SetsApart(g, f, large)
    decreases |small|
  {
    var t := LastType(large, small[0].name);
    if t == null || Compared(g, small[0].typ, t) == Some(false) {
      assert SetsApart(g, small[0], large);
    } else {
      RefusedBy(g, small[1..], large);
      var f :| f in small[1..] && SetsApart(g, f, large);
      assert f in small;
    }
  }

  /** What is left when the pass has come to its end: of any two structs of different names the one with
      fewer fields has a field that sets it apart; so a struct without fields shares its name with all
      that have some. */
  lemma LeftApart(g: Graph, steps: seq<Step>, last: Graph, all: seq<TypeSpec>, i: nat, row: nat, a: TypeSpec, b: TypeSpec)
    requires Completes(g, steps, last, all, i, row) && a in all && b in all && a in last && b in last
    ensures last[a].name != last[b].name && |last[a].fields| < |last[b].fields| ==>
              exists f <- last[a].fields :: SetsApart(last, f, last[b].fields)
    ensures last[a].fields == [] && last[b].fields != [] ==> last[a].name == last[b].name
  {
    assert Rejected(last, a, b, Source());
    if last[a].name != last[b].name && |last[a].fields| < |last[b].fields| {
      RefusedBy(last, last[a].fields, last[b].fields);
    }
  }

  /** And every step was one between structs of different names of which the larger one had more fields,
      among them one of the same shape for each field of the smaller one. */
  lemma StepJustified(g: Graph, steps: seq<Step>, last: Graph, all: seq<TypeSpec>)
    requires IsRun(g, steps, last, all, Source()) && steps != []
    ensures var s := steps[0];
            && s.small in all && s.large in all && s.small in g && s.large in g
            && g[s.small].name != g[s.large].name && |g[s.small].fields| < |g[s.large].fields|
            && (forall f <- g[s.small].fields ::
                  (exists h <- g[s.large].fields :: h.name == f.name) &&
                  Compared(g, f.typ, LastType(g[s.large].fields, f.name)) == Some(true))
            && IsRun(Apply(g, s), steps[1..], last, all, Source())
  {
    var s := steps[0];
    SubsetExactly(g, g[s.small].fields, g[s.large].fields, Source());
    forall f <- g[s.small].fields
      ensures exists h <- g[s.large].fields :: h.name == f.name
      ensures Compared(g, f.typ, LastType(g[s.large].fields, f.name)) == Some(true)
    {
      assert MatchedIn(g, f, g[s.large].fields, Source());
      assert FieldSpec(f.name, LastType(g[s.large].fields, f.name)) in g[s.large].fields;
    }
  }

  lemma StructsReached(g: Graph, root: TypeSpec, all: seq<TypeSpec>)
    requires Closed(g) && root in g && AreStructs(g, root, all)
    ensures forall n :: n in all <==> n in g && g[n].kind == KindStruct && Reaches(g, root, n)
  {
    forall n
      ensures n in all <==> n in g && g[n].kind == KindStruct && Reaches(g, root, n)
    {
      AllReachable(g, root, all, n);
    }
  }

  /** collapseSubsetStructs: the steps its sweeps make one after the other, until no pair of reachable
      structs is left, or for ever if one of their comparisons does not return. */
  method CollapseSubsetStructs(root: TypeSpec, ghost g0: Graph)
    returns (ended: bool, ghost steps: seq<Step>, ghost all: seq<TypeSpec>, ghost row: nat)
    requires g0 == Snap(g0.Keys) && Closed(g0) && root in g0
    modifies g0.Keys
    ensures AreStructs(g0, root, all) && forall n :: n in all <==> n in g0 && g0[n].kind == KindStruct && Reaches(g0, root, n)
    ensures if ended then Completes(g0, steps, Snap(g0.Keys), all, 0, row)
            else GetsStuck(g0, steps, Snap(g0.Keys), all, 0, row)
    ensures ended <==> exists steps', last, row' :: Completes(g0, steps', last, all, 0, row')
  {
    var structs, visited := CollectAll(root, g0);
    all := structs;
    VisitedEnclose(g0, root, structs, visited);
    StructsReached(g0, root, structs);
    ended, steps, row := Sweep(structs, visited * visited + 1, g0);
    ReturnsUnlessStuck(g0, structs);
  }
}
