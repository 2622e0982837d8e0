/** finalize as a whole: from the merged type of all themes, through the passes, to the emitted
    types (cmd/themegen/config_infer.go). */
module Finalize {
  import opened Wrappers
  import opened TypeGraph
  import opened Trees
  import opened Naming
  import opened GraphSameShape
  import Shapes
  import Merge
  import Infer
  import Resolve
  import Collapse
  import Emit
  import Reading
  import Clashes
  import RenamingEnds
  import SliceChains

  /** The graph after each pass: as merged, named, resolved, deduplicated pass by pass, collapsed
      step by step. */
  datatype Run = Run(built: Graph, named: Graph, resolved: Graph, states: seq<PassState>,
                     all: seq<TypeSpec>, steps: seq<Collapse.Step>, row: nat, last: Graph)

  /** How many slices may follow one another once empty ones have been filled. */
  ghost function Bound(union: Shapes.Shape): (r: nat)
    ensures r > 0
  {
    Merge.Depth(union) + 1
  }

  ghost predicate IsBuilt(g: Graph, root: TypeSpec, union: Shapes.Shape) {
    Tree(g, root, union) && NodesOf(g, root, union) == g.Keys && forall n <- g :: g[n].name == ""
  }

  ghost predicate IsNamed(built: Graph, g: Graph, root: TypeSpec, union: Shapes.Shape) {
    && root in built && root in g && Renamed(built, g) && g[root].name == CONFIG_TYPE_NAME
    && Represents(g, root, union) && NamedAs(g, root, union, "")
  }

  /** The run up to the renaming passes. */
  ghost predicate Prepared(r: Run, root: TypeSpec, union: Shapes.Shape) {
    && IsBuilt(r.built, root, union)
    && IsNamed(r.built, r.named, root, union)
    && Resolve.Grown(r.named, r.resolved, Resolve.Candidates(r.named, Walk(r.named, root, {})))
    && Resolve.SettledWhereKnown(r.named, r.resolved, root)
    && r.states != [] && r.states[0] == PassState(r.resolved, map[], false)
    && Passes(r.states, Walk(r.resolved, root, {}), Bound(union))
  }

  /** The whole run. */
  ghost predicate Finished(r: Run, root: TypeSpec, union: Shapes.Shape) {
    && Prepared(r, root, union) && Ended(r.states)
    && Collapse.AreStructs(Last(r.states).graph, root, r.all)
    && Collapse.Completes(Last(r.states).graph, r.steps, r.last, r.all, 0, r.row)
  }

  /** The run as far as the comparison the collapsing pass makes next and that never returns. */
  ghost predicate Endless(r: Run, root: TypeSpec, union: Shapes.Shape) {
    && Prepared(r, root, union) && Ended(r.states)
    && Collapse.AreStructs(Last(r.states).graph, root, r.all)
    && Collapse.GetsStuck(Last(r.states).graph, r.steps, r.last, r.all, 0, r.row)
  }

  // ---------- what holds at each stage ----------

  lemma BuiltStage(g: Graph, root: TypeSpec, union: Shapes.Shape)
    requires IsBuilt(g, root, union)
    ensures root in g && Closed(g) && SliceChains.SeparateRoles(g) && ChainsEnd(g, Merge.Depth(union))
  {
    SliceChains.TreeSeparates(g, root, union);
  }

  lemma NamedStage(built: Graph, g: Graph, root: TypeSpec, union: Shapes.Shape)
    requires IsBuilt(built, root, union) && IsNamed(built, g, root, union)
    ensures Closed(g) && SliceChains.SeparateRoles(g) && ChainsEnd(g, Merge.Depth(union))
  {
    BuiltStage(built, root, union);
    RenamedTree(built, g, root, union);
    SliceChains.TreeSeparates(g, root, union);
  }

  /** What the pass that fills empty slices may rely on. */
  ghost predicate Fillable(g: Graph, root: TypeSpec, bound: nat) {
    Closed(g) && root in g && SliceChains.SeparateRoles(g) && ChainsEnd(g, bound)
  }

  lemma NamedFillable(built: Graph, g: Graph, root: TypeSpec, union: Shapes.Shape, bound: nat)
    requires IsBuilt(built, root, union) && IsNamed(built, g, root, union) && bound == Merge.Depth(union)
    ensures Fillable(g, root, bound)
  {
    NamedStage(built, g, root, union);
  }

  lemma FilledStage(named: Graph, resolved: Graph, root: TypeSpec, bound: nat)
    requires Resolve.Grown(named, resolved, Resolve.Candidates(named, Walk(named, root, {})))
    requires bound > 0 && Fillable(named, root, bound - 1)
    ensures Taggable(resolved, bound) && root in resolved
  {
    SliceChains.ResolvedChainsEnd(named, resolved, root, bound - 1);
    Resolve.GrownClosed(named, resolved, Resolve.Candidates(named, Walk(named, root, {})));
  }

  lemma ResolvedStage(r: Run, root: TypeSpec, union: Shapes.Shape)
    requires IsBuilt(r.built, root, union) && IsNamed(r.built, r.named, root, union)
    requires Resolve.Grown(r.named, r.resolved, Resolve.Candidates(r.named, Walk(r.named, root, {})))
    ensures Taggable(r.resolved, Bound(union)) && root in r.resolved
  {
    NamedFillable(r.built, r.named, root, union, Bound(union) - 1);
    FilledStage(r.named, r.resolved, root, Bound(union));
  }

  lemma PassesStage(states: seq<PassState>, calls: seq<TypeSpec>, root: TypeSpec, bound: nat)
    requires Passes(states, calls, bound) && Taggable(states[0].graph, bound) && root in states[0].graph
    ensures var g := Last(states).graph;
            Renamed(states[0].graph, g) && Taggable(g, bound) && root in g
  {
    PassesRename(states, calls, bound, |states| - 1);
    RenamedTaggable(states[0].graph, Last(states).graph, bound);
  }

  lemma RenamedStage(r: Run, root: TypeSpec, union: Shapes.Shape)
    requires Prepared(r, root, union)
    ensures var g := Last(r.states).graph;
            Renamed(r.resolved, g) && Taggable(g, Bound(union)) && root in g
  {
    ResolvedStage(r, root, union);
    PassesStage(r.states, Walk(r.resolved, root, {}), root, Bound(union));
  }

  // ---------- documents ----------

  /** Up to the renaming passes no document of the merged type is lost, on any condition. */
  lemma PreparedAdmits(r: Run, root: TypeSpec, union: Shapes.Shape, d: Shapes.Doc)
    requires Prepared(r, root, union) && Shapes.Fits(d, union)
    ensures var g := Last(r.states).graph;
            Closed(g) && root in g && Admits(g, root, d)
  {
    NamedStage(r.built, r.named, root, union);
    ResolvedStage(r, root, union);
    RenamedStage(r, root, union);
    AdmitsIsFits(r.named, root, union, d);
    Resolve.GrownAdmits(r.named, r.resolved, Resolve.Candidates(r.named, Walk(r.named, root, {})), root, d);
    RenamedAdmits(r.resolved, Last(r.states).graph, root, d);
  }

  lemma {:induction false} RepresentsDistinct(g: Graph, n: TypeSpec, s: Shapes.Shape, m: TypeSpec)
    requires Represents(g, n, s) && Shapes.UniqueNames(s) && m in NodesOf(g, n, s)
    ensures m in g && (g[m].kind == KindStruct ==> DistinctFields(g[m].fields))
    decreases s
  {
    match s
    case Slice(Some(e)) =>
      if m != n {
        RepresentsDistinct(g, g[n].element, e, m);
      }
    case Struct(fields) =>
      if m != n {
        var i :| 0 <= i < |fields| && m in NodesOf(g, g[n].fields[i].typ, fields[i].shape);
        assert fields[i] in fields;
        RepresentsDistinct(g, g[n].fields[i].typ, fields[i].shape, m);
      }
    case _ =>
  }

  lemma GrownDistinct(g0: Graph, g: Graph, candidates: map<string, TypeSpec>)
    requires Resolve.Grown(g0, g, candidates) && AllDistinct(g0)
    ensures AllDistinct(g)
  {
    forall n <- g | g[n].kind == KindStruct
      ensures DistinctFields(g[n].fields)
    {
      assert Resolve.NodeGrown(g0, g, n, candidates);
      forall i, j | 0 <= i < j < |g[n].fields|
        ensures g[n].fields[i].name != g[n].fields[j].name
      {
        assert Resolve.FieldGrown(g0, g, g0[n].fields[i], g[n].fields[i], candidates);
        assert Resolve.FieldGrown(g0, g, g0[n].fields[j], g[n].fields[j], candidates);
      }
    }
  }

  lemma RenamedDistinct(g: Graph, g': Graph)
    requires Renamed(g, g') && AllDistinct(g)
    ensures AllDistinct(g')
  {
    forall n <- g' | g'[n].kind == KindStruct
      ensures DistinctFields(g'[n].fields)
    {
      assert g'[n] == g[n].(name := g'[n].name);
    }
  }

  lemma TreeDistinct(g: Graph, root: TypeSpec, union: Shapes.Shape)
    requires Tree(g, root, union) && NodesOf(g, root, union) == g.Keys && Shapes.UniqueNames(union)
    ensures AllDistinct(g)
  {
    forall n <- g | g[n].kind == KindStruct
      ensures DistinctFields(g[n].fields)
    {
      RepresentsDistinct(g, root, union, n);
    }
  }

  /** Distinct field names of the merged type stay distinct in every struct. */
  lemma DistinctStage(r: Run, root: TypeSpec, union: Shapes.Shape)
    requires Prepared(r, root, union) && Shapes.UniqueNames(union)
    ensures AllDistinct(Last(r.states).graph)
  {
    TreeDistinct(r.built, root, union);
    RenamedDistinct(r.built, r.named);
    GrownDistinct(r.named, r.resolved, Resolve.Candidates(r.named, Walk(r.named, root, {})));
    RenamedStage(r, root, union);
    RenamedDistinct(r.resolved, Last(r.states).graph);
  }

  /** The types written for a whole run, and the one of its root. */
  ghost function FileOf(r: Run, root: TypeSpec, union: Shapes.Shape): seq<Reading.Decl>
    requires Finished(r, root, union)
  {
    FinishedStage(r, root, union);
    Reading.File(r.last, root, Bound(union))
  }

  ghost function RootType(r: Run, root: TypeSpec, union: Shapes.Shape): Reading.Written
    requires Finished(r, root, union)
  {
    FinishedStage(r, root, union);
    Reading.Spelled(r.last, root, Bound(union))
  }

  /** Some struct is read by the type of another one of its name, and loses something by it. */
  ghost predicate NamesClash(r: Run, root: TypeSpec, union: Shapes.Shape)
    requires Finished(r, root, union)
  {
    Clashes.Clashes(r.last, FileOf(r, root, union), root, RootType(r, root, union))
  }

  /** No collapse was made on account of an unknown element, checked step by step; so it is where every
      slice knows its element. */
  ghost predicate Careful(r: Run)
    requires r.states != []
  {
    AllKnown(Last(r.states).graph) || Collapse.SafeRun(Last(r.states).graph, r.steps)
  }

  /** If the merged type of all themes was finished carefully, the graph still admits the document of
      every theme. */
  lemma EveryThemeSurvives(themes: seq<Infer.Theme>, union: Shapes.Shape, r: Run, root: TypeSpec, d: Shapes.Doc)
    requires Infer.UnionThemes(themes) == Success(Some(union)) && Some(d) in themes
    requires Finished(r, root, union) && Careful(r)
    ensures root in r.last && Closed(r.last) && Admits(r.last, root, d)
  {
    Infer.UnionIsLeast(themes);
    assert Infer.ThemeFits(Some(d), union);
    UnionDistinct(themes, union);
    PreparedAdmits(r, root, union, d);
    DistinctStage(r, root, union);
    Collapse.RunKeepsDocuments(Last(r.states).graph, r.steps, r.last, r.all, root, d);
  }

  /** The file reads everything the finished graph admits exactly if no names clash. */
  lemma FileReadsExactly(r: Run, root: TypeSpec, union: Shapes.Shape)
    requires Finished(r, root, union) && Shapes.UniqueNames(union)
    ensures root in r.last && Closed(r.last)
    ensures (forall d | Admits(r.last, root, d) :: Reading.Reads(FileOf(r, root, union), RootType(r, root, union), d)) <==>
            !NamesClash(r, root, union)
  {
    FinishedStage(r, root, union);
    FinishedDistinct(r, root, union);
    Clashes.ReadsAllExactly(r.last, root, Bound(union), root);
  }

  lemma FinishedDistinct(r: Run, root: TypeSpec, union: Shapes.Shape)
    requires Finished(r, root, union) && Shapes.UniqueNames(union)
    ensures AllDistinct(r.last)
  {
    DistinctStage(r, root, union);
    Collapse.RunDistinct(Last(r.states).graph, r.steps, r.last, r.all, Collapse.Source());
  }

  /** So if the root has kept its name, no names clash and the run was careful, the type Config of the
      generated file reads the document of every theme. */
  lemma ConfigReadsEveryTheme(themes: seq<Infer.Theme>, union: Shapes.Shape, r: Run, root: TypeSpec, d: Shapes.Doc)
    requires Infer.UnionThemes(themes) == Success(Some(union)) && Some(d) in themes && union.Struct?
    requires Finished(r, root, union) && Careful(r) && RootKept(r, root, union) && !NamesClash(r, root, union)
    ensures Reading.Reads(FileOf(r, root, union), Reading.Written(0, CONFIG_TYPE_NAME), d)
  {
    EveryThemeSurvives(themes, union, r, root, d);
    UnionDistinct(themes, union);
    AdmittedIsRead(r, root, union, d);
    RootIsConfig(r, root, union);
  }

  /** So where a theme is not read although the run was careful and the root has its name, names clash. */
  lemma UnreadByClash(themes: seq<Infer.Theme>, union: Shapes.Shape, r: Run, root: TypeSpec, d: Shapes.Doc)
    requires Infer.UnionThemes(themes) == Success(Some(union)) && Some(d) in themes && union.Struct?
    requires Finished(r, root, union) && Careful(r) && RootKept(r, root, union)
    requires !Reading.Reads(FileOf(r, root, union), Reading.Written(0, CONFIG_TYPE_NAME), d)
    ensures NamesClash(r, root, union)
  {
    if !NamesClash(r, root, union) {
      ConfigReadsEveryTheme(themes, union, r, root, d);
    }
  }

  lemma AdmittedIsRead(r: Run, root: TypeSpec, union: Shapes.Shape, d: Shapes.Doc)
    requires Finished(r, root, union) && Shapes.UniqueNames(union) && !NamesClash(r, root, union)
    requires root in r.last && Closed(r.last) && Admits(r.last, root, d)
    ensures Reading.Reads(FileOf(r, root, union), RootType(r, root, union), d)
  {
    FinishedStage(r, root, union);
    FinishedDistinct(r, root, union);
    Clashes.ReadsWithoutClash(r.last, root, Bound(union), root, d);
  }

  lemma UnionDistinct(themes: seq<Infer.Theme>, union: Shapes.Shape)
    requires Infer.UnionThemes(themes) == Success(Some(union))
    ensures Shapes.UniqueNames(union)
  {
    Merge.MergeIsLeastUpperBound(Infer.InferThemes(themes).value);
  }

  lemma RootIsConfig(r: Run, root: TypeSpec, union: Shapes.Shape)
    requires Finished(r, root, union) && union.Struct? && RootKept(r, root, union)
    ensures RootType(r, root, union) == Reading.Written(0, CONFIG_TYPE_NAME)
  {
    FinishedStage(r, root, union);
    RootKeptExactly(r, root, union);
  }

  /** goType returns on every node of the finished graph, and so did typeTag before it. */
  lemma GoTypeReturnsAfterFinishing(r: Run, root: TypeSpec, union: Shapes.Shape, t: TypeSpec)
    requires Finished(r, root, union) && t in r.last
    ensures Emit.GoType(r.last, t, Bound(union) + 1).Some?
  {
    FinishedStage(r, root, union);
    Reading.GoTypeWrites(r.last, t, Bound(union));
  }

  // ---------- the root's name ----------

  /** No pass and no step takes the root's name away; each part is checked on the state before it. */
  ghost predicate RootKept(r: Run, root: TypeSpec, union: Shapes.Shape) {
    && (forall i :: 0 <= i < |r.states| - 1 ==> KeepsName(r.states[i], root, Bound(union)))
    && (forall s <- r.steps :: s.small != root)
  }

  ghost predicate RootIsConfigThroughout(r: Run, root: TypeSpec) {
    && r.states != [] && (forall i :: 0 <= i < |r.states| ==> IsCalled(r.states[i], root, CONFIG_TYPE_NAME))
    && Collapse.NamedThroughout(Last(r.states).graph, r.steps, root, CONFIG_TYPE_NAME)
  }

  lemma ResolvedRoot(r: Run, root: TypeSpec, union: Shapes.Shape)
    requires Prepared(r, root, union)
    ensures IsCalled(r.states[0], root, CONFIG_TYPE_NAME)
    ensures var calls := Walk(r.resolved, root, {}); calls != [] && calls[0] == root && Distinct(calls)
  {
    ResolvedStage(r, root, union);
    VisitsExactlyTheReachable(r.resolved, root);
    assert Resolve.NodeGrown(r.named, r.resolved, root, Resolve.Candidates(r.named, Walk(r.named, root, {})));
  }

  /** The root is called Config all along iff no pass and no step takes that name from it. */
  lemma RootKeptExactly(r: Run, root: TypeSpec, union: Shapes.Shape)
    requires Finished(r, root, union)
    ensures RootIsConfigThroughout(r, root) <==> RootKept(r, root, union)
    ensures RootKept(r, root, union) ==> root in r.last && r.last[root].name == CONFIG_TYPE_NAME
  {
    ResolvedRoot(r, root, union);
    var g, calls' := Last(r.states).graph, Walk(r.resolved, root, {});
    assert root in g by {
      RenamedStage(r, root, union);
    }
    RootNamedThroughout(r.states, calls', Bound(union), CONFIG_TYPE_NAME);
    Collapse.NameKeptExactly(g, r.steps, r.last, r.all, Collapse.Source(), root);
  }

  /** Then the type of the root is written first, as Config, and the others follow in visiting order;
      in any case it is iff the root is called Config in the end. */
  lemma ConfigFirst(r: Run, root: TypeSpec, union: Shapes.Shape)
    requires Finished(r, root, union) && union.Struct?
    ensures root in r.last
    ensures var types := Emit.Emission(r.last, root);
            var out := Emit.Ordered(types);
            && types != [] && out != [] && types[0] == Emit.Emitted(r.last[root].name, r.last[root].fields)
            && (out[0] == types[0] && out[0].name == CONFIG_TYPE_NAME <==> r.last[root].name == CONFIG_TYPE_NAME)
            && (RootKept(r, root, union) ==> out == types && out[0].name == CONFIG_TYPE_NAME)
  {
    ResolvedRoot(r, root, union);
    RenamedStage(r, root, union);
    RootKeptExactly(r, root, union);
    FinishedStage(r, root, union);
    Emit.EmittedOrder(r.last, root);
  }

  /** No other struct is called Config before the collapsing pass. */
  ghost predicate OnlyRootIsConfig(r: Run, root: TypeSpec) {
    forall i :: 0 <= i < |r.states| ==> NobodyElse(r.states[i].graph, root, CONFIG_TYPE_NAME)
  }

  /** Then the root's type is written first as Config exactly if nothing took the root's name, whatever
      structs were collapsed into the root. */
  lemma ConfigFirstExactly(r: Run, root: TypeSpec, union: Shapes.Shape)
    requires Finished(r, root, union) && union.Struct? && OnlyRootIsConfig(r, root)
    ensures var types := Emit.Emission(r.last, root);
            var out := Emit.Ordered(types);
            && types != [] && out != []
            && (out[0] == types[0] && out[0].name == CONFIG_TYPE_NAME <==> RootKept(r, root, union))
  {
    ResolvedRoot(r, root, union);
    RenamedStage(r, root, union);
    ConfigFirst(r, root, union);
    NameKeptByPasses(r.states, Walk(r.resolved, root, {}), Bound(union), CONFIG_TYPE_NAME, |r.states| - 1);
    assert NobodyElse(Last(r.states).graph, root, CONFIG_TYPE_NAME);
    Collapse.NameKeptAlone(Last(r.states).graph, r.steps, r.last, r.all, Collapse.Source(), root, CONFIG_TYPE_NAME);
  }

  lemma FinishedStage(r: Run, root: TypeSpec, union: Shapes.Shape)
    requires Finished(r, root, union)
    ensures root in r.last && Taggable(r.last, Bound(union))
    ensures union.Struct? ==> r.last[root].kind == KindStruct
  {
    RenamedStage(r, root, union);
    var g := Last(r.states).graph;
    SliceChains.CollapsedChainsEnd(g, r.steps, r.last, r.all, Collapse.Source(), Bound(union));
    Collapse.RunClosed(g, r.steps, r.last, r.all, Collapse.Source());
    Collapse.RunGrowsNames(g, r.steps, r.last, r.all, Collapse.Source(), root);
    assert g[root] == r.resolved[root].(name := g[root].name);
    assert Resolve.NodeGrown(r.named, r.resolved, root, Resolve.Candidates(r.named, Walk(r.named, root, {})));
  }

  // ---------- the code ----------

  datatype Outcome =
    | Emitted(types: seq<Emit.Emitted>)
    | StillRenaming                       // after so many passes of deduplicateStructs
    | Diverges                            // in a comparison of the collapsing pass

  method Name(root: TypeSpec, ghost built: Graph, ghost union: Shapes.Shape) returns (ghost named: Graph)
    requires built == Snap(built.Keys) && IsBuilt(built, root, union)
    modifies built.Keys
    ensures named == Snap(built.Keys) && IsNamed(built, named, root, union)
  {
    NameSet(built, root, union, CONFIG_TYPE_NAME);
    SetName(root, CONFIG_TYPE_NAME, built.Keys);
    ghost var titled := Snap(built.Keys);
    AssignNames(root, "", union, built.Keys);
    named := Snap(built.Keys);
    RenamedTransitive(built, titled, named);
  }

  method BuildNamed(union: Shapes.Shape) returns (root: TypeSpec, ghost built: Graph, ghost named: Graph)
    ensures IsBuilt(built, root, union) && IsNamed(built, named, root, union)
    ensures Fillable(named, root, Bound(union) - 1) && named == Snap(named.Keys) && fresh(named.Keys)
  {
    root, built := Build(union);
    named := Name(root, built, union);
    NamedFillable(built, named, root, union, Bound(union) - 1);
  }

  method FillEmptySlices(root: TypeSpec, ghost named: Graph, ghost bound: nat) returns (ghost resolved: Graph)
    requires named == Snap(named.Keys) && bound > 0 && Fillable(named, root, bound - 1)
    modifies named.Keys
    ensures resolved == Snap(resolved.Keys) && forall n <- resolved :: n in named || fresh(n)
    ensures Resolve.Grown(named, resolved, Resolve.Candidates(named, Walk(named, root, {})))
    ensures Resolve.SettledWhereKnown(named, resolved, root)
    ensures Taggable(resolved, bound) && root in resolved
  {
    ghost var nodes := Resolve.ResolveEmptySlices(root, named);
    resolved := Snap(nodes);
    FilledStage(named, resolved, root, bound);
  }

  method BuildResolved(union: Shapes.Shape)
    returns (root: TypeSpec, ghost built: Graph, ghost named: Graph, ghost resolved: Graph)
    ensures IsBuilt(built, root, union) && IsNamed(built, named, root, union)
    ensures Resolve.Grown(named, resolved, Resolve.Candidates(named, Walk(named, root, {})))
    ensures Resolve.SettledWhereKnown(named, resolved, root)
    ensures Taggable(resolved, Bound(union)) && root in resolved
    ensures resolved == Snap(resolved.Keys) && fresh(resolved.Keys)
  {
    root, built, named := BuildNamed(union);
    resolved := FillEmptySlices(root, named, Bound(union));
  }

  /** The passes up to the renaming ones, on new nodes. */
  method Prepare(union: Shapes.Shape, passes: nat) returns (ended: bool, root: TypeSpec, ghost r: Run)
    ensures Prepared(r, root, union) && fresh(Last(r.states).graph.Keys)
    ensures Last(r.states).graph == Snap(Last(r.states).graph.Keys)
    ensures ended == Ended(r.states) && (!ended ==> |r.states| == passes + 1)
  {
    ghost var built, named, resolved, states;
    root, built, named, resolved := BuildResolved(union);
    ended, states := DeduplicateStructs(root, passes, resolved.Keys, Bound(union));
    PassesStage(states, Walk(resolved, root, {}), root, Bound(union));
    r := Run(built, named, resolved, states, [], [], 0, map[]);
  }

  // ---------- when finalize returns ----------

  /** Two runs that have filled the empty slices alike. */
  ghost predicate SameStart(r: Run, r': Run) {
    r'.built == r.built && r'.named == r.named && r'.resolved == r.resolved
  }

  /** The renaming passes come back to a state. */
  ghost predicate Renames(r: Run, root: TypeSpec, union: Shapes.Shape) {
    Prepared(r, root, union) && RenamingEnds.Recurs(r.states)
  }

  lemma SameEnd(r: Run, r': Run, root: TypeSpec, union: Shapes.Shape)
    requires Prepared(r, root, union) && Prepared(r', root, union) && SameStart(r, r') && Ended(r.states) && Ended(r'.states)
    ensures r'.states == r.states
  {
    RenamingEnds.EndedAlike(r.states, r'.states, Walk(r.resolved, root, {}), Bound(union));
  }

  lemma FinishedReturns(r: Run, r': Run, root: TypeSpec, union: Shapes.Shape)
    requires Finished(r, root, union) && Prepared(r', root, union) && SameStart(r, r')
    ensures !Renames(r', root, union) && !Endless(r', root, union)
  {
    if RenamingEnds.Recurs(r'.states) {
      RenamingEnds.RecurringIsEndless(r.states, r'.states, Walk(r.resolved, root, {}), Bound(union));
    }
    if Ended(r'.states) {
      SameEnd(r, r', root, union);
      Collapse.NotBoth(Last(r.states).graph, r.steps, r.last, r.row, r'.steps, r'.last, r'.row, r.all, 0);
    }
  }

  lemma SettledPasses(r: Run, root: TypeSpec, union: Shapes.Shape) returns (r': Run)
    requires Prepared(r, root, union)
    ensures Prepared(r', root, union) && SameStart(r, r') && (Ended(r'.states) || Renames(r', root, union))
  {
    var states := RenamingEnds.Settles(r.states, Walk(r.resolved, root, {}), Bound(union));
    r' := r.(states := states);
  }

  lemma ReturnsOrNot(r: Run, root: TypeSpec, union: Shapes.Shape) returns (r': Run)
    requires Prepared(r, root, union)
    ensures SameStart(r, r') && (Finished(r', root, union) || Renames(r', root, union) || Endless(r', root, union))
  {
    r' := SettledPasses(r, root, union);
    if Ended(r'.states) {
      RenamedStage(r', root, union);
      var g := Last(r'.states).graph;
      var all := Collapse.StructsAmong(g, Walk(g, root, {}));
      WalkFresh(g, root, {});
      Collapse.StructsAmongDistinct(g, Walk(g, root, {}));
      var steps, last, row := Collapse.OneOfBoth(g, all, 0, Collapse.MostFields(g, all));
      r' := r'.(all := all, steps := steps, last := last, row := row);
    }
  }

  /** From any graph in which the empty slices have been filled, finalize returns exactly if its renaming
      passes do not come back to a state and its collapses do not lead to a comparison that never returns. */
  lemma ReturnsExactly(r: Run, root: TypeSpec, union: Shapes.Shape)
    requires Prepared(r, root, union)
    ensures (exists r' :: SameStart(r, r') && Finished(r', root, union)) <==>
            !exists r' :: SameStart(r, r') && (Renames(r', root, union) || Endless(r', root, union))
  {
    if r1 :| SameStart(r, r1) && Finished(r1, root, union) {
      forall r2 | SameStart(r, r2)
        ensures !(Renames(r2, root, union) || Endless(r2, root, union))
      {
        if Prepared(r2, root, union) {
          FinishedReturns(r1, r2, root, union);
        }
      }
    } else {
      var r1 := ReturnsOrNot(r, root, union);
    }
  }

  method Finalize(union: Shapes.Shape, passes: nat) returns (out: Outcome, ghost root: TypeSpec, ghost r: Run)
    ensures match out
            case Emitted(types) => Finished(r, root, union) && types == Emit.Emission(r.last, root)
            case StillRenaming => Prepared(r, root, union) && !Ended(r.states) && |r.states| == passes + 1
            case Diverges => Endless(r, root, union)
  {
    var ended, top;
    ended, top, r := Prepare(union, passes);
    root := top;
    if !ended {
      return StillRenaming, top, r;
    }
    RenamedStage(r, top, union);
    ghost var g := Last(r.states).graph;
    ghost var steps, all, row;
    ended, steps, all, row := Collapse.CollapseSubsetStructs(top, g);
    r := r.(all := all, steps := steps, row := row, last := Snap(g.Keys));
    if !ended {
      return Diverges, top, r;
    }
    FinishedStage(r, top, union);
    var types := Emit.CollectStructs(top, r.last);
    return Emitted(types), top, r;
  }
}
