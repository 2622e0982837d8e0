/** A menu on which finalize never returns: a comparison goes round in circles. */
module EndlessMenu {
  import opened Wrappers
  import opened TypeGraph
  import opened Trees
  import opened Naming
  import opened GraphSameShape
  import opened Shapes
  import Infer
  import Resolve
  import Collapse
  import opened Finalize
  import opened SmallDocuments

  // children: [{children: []}]
  // other: 1
  const ITEM_DOC := MappingDoc([Pair("children", SequenceDoc([]))])
  const MENU_DOC := MappingDoc([Pair("children", SequenceDoc([ITEM_DOC])), Pair("other", ScalarDoc(IntegerNode))])

  const ITEM := Struct([Field("children", Slice(None))])
  const MENU := Struct([Field("children", Slice(Some(ITEM))), Field("other", Scalar("int"))])

  lemma MenuInferred()
    ensures Infer.UnionThemes([Some(MENU_DOC)]) == Success(Some(MENU))
  {
    OneEntry("children", SequenceDoc([]), Slice(None));
    OneItem(ITEM_DOC, ITEM);
    TwoEntries("children", SequenceDoc([ITEM_DOC]), Slice(Some(ITEM)), "other", ScalarDoc(IntegerNode), Scalar("int"));
    OneTheme(MENU_DOC, MENU);
  }

  /** The menu's nodes; m is the inner list, of field children of e, and inner its element. */
  ghost predicate Menu(g: Graph, root: TypeSpec, l: TypeSpec, e: TypeSpec, m: TypeSpec, o: TypeSpec, inner: TypeSpec?) {
    && root !in {l, e, m, o} && l !in {e, m, o} && e !in {m, o} && m != o
    && IsStruct(g, root, "Config", [FieldSpec("children", l), FieldSpec("other", o)])
    && IsSlice(g, l, e)
    && IsStruct(g, e, "childrenItem", [FieldSpec("children", m)])
    && IsSlice(g, m, inner)
    && IsScalar(g, o, "int")
  }

  lemma MenuParts(g: Graph, root: TypeSpec, list: Field, item: Shape, inner: Field, other: Field)
    returns (l: TypeSpec, e: TypeSpec, m: TypeSpec, o: TypeSpec)
    requires list == Field("children", Slice(Some(item))) && item == Struct([inner])
    requires inner.name == "children" && inner.shape == Slice(None) && other.name == "other" && other.shape == Scalar("int")
    requires Part(g, root, Struct([list, other]), "") && g[root].name == "Config"
    requires Distinct(PreOrder(g, root, Struct([list, other])))
    ensures Menu(g, root, l, e, m, o, null) && PreOrder(g, root, Struct([list, other])) == [root, l, e, m, o]
  {
    l, o := StructOfTwo(g, root, list, other, "");
    e := StructList(g, l, list, item, "");
    m := StructOfOne(g, e, inner, g[e].name);
    var nodes := PreOrder(g, root, Struct([list, other]));
    assert nodes == [root, l, e, m, o];
    assert nodes[0] == root && nodes[1] == l && nodes[2] == e && nodes[3] == m && nodes[4] == o;
  }

  lemma MenuNamed(built: Graph, g: Graph, root: TypeSpec)
    returns (l: TypeSpec, e: TypeSpec, m: TypeSpec, o: TypeSpec)
    requires IsBuilt(built, root, MENU) && IsNamed(built, g, root, MENU)
    ensures Menu(g, root, l, e, m, o, null) && Walk(g, root, {}) == [root, l, e, m, o]
  {
    TreeNodes(built, g, root, MENU);
    l, e, m, o := MenuParts(g, root, MENU.fields[0], ITEM, ITEM.fields[0], MENU.fields[1]);
  }

  lemma MenuCandidate(g: Graph, root: TypeSpec, l: TypeSpec, e: TypeSpec, m: TypeSpec, o: TypeSpec, calls: seq<TypeSpec>)
    requires Menu(g, root, l, e, m, o, null) && root in calls && g.Keys == Set(calls) == {root, l, e, m, o}
    ensures var candidates := Resolve.Candidates(g, calls);
            "children" in candidates && candidates["children"] == e
  {
    var list := FieldSpec("children", l);
    assert list in g[root].fields && Resolve.KnownSlice(g, l);
    forall n, x | n in calls && Resolve.Knows(g, n, "children", x)
      ensures x == e
    {
      assert n in Set(calls);
      var f :| f in g[n].fields && f.name == "children" && Resolve.KnownSlice(g, f.typ) && g[f.typ].element == x;
      assert n == root || n == e;
    }
    OnlyCandidate(g, calls, root, list);
  }

  /** The inner list is filled with the very struct it belongs to. */
  lemma MenuResolved(g0: Graph, g: Graph, root: TypeSpec, l: TypeSpec, e: TypeSpec, m: TypeSpec, o: TypeSpec)
    requires Menu(g0, root, l, e, m, o, null) && Walk(g0, root, {}) == [root, l, e, m, o]
    requires g0.Keys == Set(Walk(g0, root, {}))
    requires Resolve.Grown(g0, g, Resolve.Candidates(g0, Walk(g0, root, {})))
    requires Resolve.SettledWhereKnown(g0, g, root)
    ensures Menu(g, root, l, e, m, o, e)
  {
    var calls := Walk(g0, root, {});
    var candidates := Resolve.Candidates(g0, calls);
    assert Set(calls) == {root, l, e, m, o};
    MenuCandidate(g0, root, l, e, m, o, calls);
    FieldsKept(g0, g, root, candidates);
    FieldsKept(g0, g, e, candidates);
    assert Resolve.NodeGrown(g0, g, root, candidates) && Resolve.NodeGrown(g0, g, e, candidates);
    assert Resolve.NodeGrown(g0, g, l, candidates) && Resolve.NodeGrown(g0, g, o, candidates);
    MenuSettled(g0, g, root, l, e, m, o);
    MenuFilled(g0, g, root, l, e, m, o, candidates);
  }

  lemma MenuFilled(g0: Graph, g: Graph, root: TypeSpec, l: TypeSpec, e: TypeSpec, m: TypeSpec, o: TypeSpec,
                   candidates: map<string, TypeSpec>)
    requires Menu(g0, root, l, e, m, o, null) && g0.Keys == {root, l, e, m, o}
    requires Resolve.Grown(g0, g, candidates) && "children" in candidates && candidates["children"] == e
    requires m in g && (g[m].kind == KindSlice ==> g[m].element != null)
    ensures IsSlice(g, m, e)
  {
    assert Resolve.NodeGrown(g0, g, m, candidates);
    assert Resolve.Resolves(g0, m, g[m].element, candidates);
    var parent :| parent in g0 && g0[parent].kind == KindStruct &&
                  exists f <- g0[parent].fields :: f.typ == m && f.name in candidates && candidates[f.name] == g[m].element;
    var f :| f in g0[parent].fields && f.typ == m && f.name in candidates && candidates[f.name] == g[m].element;
    assert parent == root || parent == e;
  }

  lemma MenuSettled(g0: Graph, g: Graph, root: TypeSpec, l: TypeSpec, e: TypeSpec, m: TypeSpec, o: TypeSpec)
    requires Menu(g0, root, l, e, m, o, null) && Resolve.SettledWhereKnown(g0, g, root)
    requires IsStruct(g, root, "Config", [FieldSpec("children", l), FieldSpec("other", o)]) && IsSlice(g, l, e)
    requires IsStruct(g, e, "childrenItem", [FieldSpec("children", m)])
    ensures m in g && (g[m].kind == KindSlice ==> g[m].element != null)
  {
    assert FieldSpec("children", l) in g0[root].fields && Resolve.KnownSlice(g0, l);
    ReachesSelf(g0, root);
    assert Resolve.KnownSomewhere(g0, root, "children");
    ReachesSelf(g, e);
    assert e in Children(g[l]);
    ReachesStep(g, l, e, e);
    assert Children(g[root])[0] == l;
    ReachesStep(g, root, l, e);
    assert FieldSpec("children", m) in g[e].fields;
    assert Resolve.SettledType(g, m);
  }

  lemma WalkOne(g: Graph, n: TypeSpec, t: TypeSpec, seen: set<TypeSpec>)
    requires n in g && n !in seen && Children(g[n]) == [t]
    ensures Walk(g, n, seen) == [n] + Walk(g, t, seen + {n})
  {
    WalkSingle(g, t, seen + {n});
  }

  lemma WalkTwo(g: Graph, n: TypeSpec, t0: TypeSpec, t1: TypeSpec, seen: set<TypeSpec>)
    requires n in g && n !in seen && Children(g[n]) == [t0, t1]
    ensures var first := Walk(g, t0, seen + {n});
            Walk(g, n, seen) == [n] + first + Walk(g, t1, seen + {n} + Set(first))
  {
    var first := Walk(g, t0, seen + {n});
    assert [t0, t1][1..] == [t1];
    WalkSingle(g, t1, seen + {n} + Set(first));
    assert [n] + (first + Walk(g, t1, seen + {n} + Set(first))) == [n] + first + Walk(g, t1, seen + {n} + Set(first));
  }

  lemma MenuWalk(g: Graph, root: TypeSpec, l: TypeSpec, e: TypeSpec, m: TypeSpec, o: TypeSpec)
    requires Menu(g, root, l, e, m, o, e)
    ensures Walk(g, root, {}) == [root, l, e, m, o]
  {
    assert Children(g[root]) == [l, o];
    WalkTwo(g, root, l, o, {});
    assert Walk(g, l, {} + {root}) == [l, e, m] by {
      WalkOne(g, l, e, {} + {root});
      WalkOne(g, e, m, {} + {root} + {l});
      WalkOne(g, m, e, {} + {root} + {l} + {e});
    }
    var seen := {} + {root} + Set([l, e, m]);
    assert o !in seen && Children(g[o]) == [];
  }

  /** A first pass over two structs with different keys finds nothing to do. */
  lemma TwoKeys(g: Graph, calls: seq<TypeSpec>, i: nat, bound: nat, key: string, key': string)
    requires Taggable(g, bound) && (forall n <- calls :: n in g) && 0 < i < |calls|
    requires g[calls[0]].kind == KindStruct && g[calls[i]].kind == KindStruct
    requires NoStructs(g, calls, 1, i) && NoStructs(g, calls, i + 1, |calls|)
    requires key == ShapeKey(g, calls[0], bound) && key' == ShapeKey(g, calls[i], bound) && key != key'
    ensures !PassOver(PassState(g, map[], false), calls, bound).changed
  {
    var st := PassState(g, map[], false);
    Begin(st, calls, bound);
    var one := VisitNew(st, calls, 0, i, bound, st, key);
    var two := VisitNew(st, calls, i, |calls|, bound, one, key');
    Finish(st, calls, bound, two);
  }

  lemma MenuKeys(g: Graph, root: TypeSpec, l: TypeSpec, e: TypeSpec, m: TypeSpec, o: TypeSpec, bound: nat)
    requires Menu(g, root, l, e, m, o, e) && Taggable(g, bound)
    ensures ShapeKey(g, root, bound) != ShapeKey(g, e, bound)
  {
    KeyOfTwo(g, root, FieldSpec("children", l), FieldSpec("other", o), bound);
    KeyOfOne(g, e, FieldSpec("children", m), bound);
    StructListTag(g, l, e, bound);
    StructListTag(g, m, e, bound);
  }

  /** The renaming pass finds nothing to do. */
  lemma MenuPass(g: Graph, root: TypeSpec, l: TypeSpec, e: TypeSpec, m: TypeSpec, o: TypeSpec, calls: seq<TypeSpec>, bound: nat)
    requires Menu(g, root, l, e, m, o, e) && Taggable(g, bound) && calls == [root, l, e, m, o]
    ensures (forall n <- calls :: n in g) && !PassOver(PassState(g, map[], false), calls, bound).changed
  {
    MenuKeys(g, root, l, e, m, o, bound);
    TwoKeys(g, calls, 2, bound, ShapeKey(g, root, bound), ShapeKey(g, e, bound));
  }

  /** The item and the menu around it are compared, field children against field children, and so
      the item with itself, which never returns. */
  lemma MenuHangs(g: Graph, root: TypeSpec, l: TypeSpec, e: TypeSpec, m: TypeSpec, o: TypeSpec)
    requires Menu(g, root, l, e, m, o, e)
    ensures Collapse.Hangs(g, e, root, Collapse.Source())
  {
    LastTypeDistinct(g[root].fields, 0);
    assert SelfRecursive(g, e, 0);
    NeverReturns(g, e, 0, Enough(g) - 1);
    assert Compared(g, m, l) == None;
  }

  lemma MenuStructs(g: Graph, root: TypeSpec, l: TypeSpec, e: TypeSpec, m: TypeSpec, o: TypeSpec, all: seq<TypeSpec>)
    requires Menu(g, root, l, e, m, o, e) && Closed(g) && Collapse.AreStructs(g, root, all)
    ensures all == [root, e]
  {
    MenuWalk(g, root, l, e, m, o);
    var calls := Walk(g, root, {});
    StructsUpTo(g, calls, 0, 2, []);
    StructsUpTo(g, calls, 2, 5, [] + [root]);
    assert calls[..5] == calls;
  }

  /** That is the first comparison the collapsing pass makes. */
  lemma MenuStuck(g: Graph, root: TypeSpec, l: TypeSpec, e: TypeSpec, m: TypeSpec, o: TypeSpec)
    requires Menu(g, root, l, e, m, o, e)
    ensures Collapse.GetsStuck(g, [], g, [root, e], 0, 0)
  {
    var all, same := [root, e], Collapse.Source();
    MenuHangs(g, root, l, e, m, o);
    assert Collapse.RowRejected(g, all[0], all, same);
    assert all[0] == root && Collapse.FirstOpen(g, all, 1, root, same);
    assert Collapse.StuckInOrder(g, all, 0, 1, Collapse.Step(e, root), same);
    assert e in all && root in all;
  }

  lemma MenuStates(states: seq<PassState>, g: Graph, root: TypeSpec, l: TypeSpec, e: TypeSpec, m: TypeSpec, o: TypeSpec,
                   calls: seq<TypeSpec>, bound: nat)
    requires Menu(g, root, l, e, m, o, e) && Taggable(g, bound) && calls == [root, l, e, m, o]
    requires |states| > 1 && states[0] == PassState(g, map[], false) && Passes(states, calls, bound)
    ensures Ended(states) && Last(states).graph == g
  {
    MenuPass(g, root, l, e, m, o, calls, bound);
    assert StateOf(states, 0, calls, bound) && StateOf(states, 1, calls, bound);
  }

  /** Where the run stands before collapseSubsetStructs. */
  lemma MenuPrepared(r: Run, root: TypeSpec) returns (l: TypeSpec, e: TypeSpec, m: TypeSpec, o: TypeSpec)
    requires Prepared(r, root, MENU) && |r.states| > 1
    ensures Ended(r.states) && Closed(Last(r.states).graph) && Menu(Last(r.states).graph, root, l, e, m, o, e)
  {
    l, e, m, o := MenuNamed(r.built, r.named, root);
    TreeNodes(r.built, r.named, root, MENU);
    MenuResolved(r.named, r.resolved, root, l, e, m, o);
    MenuWalk(r.resolved, root, l, e, m, o);
    ResolvedStage(r, root, MENU);
    MenuStates(r.states, r.resolved, root, l, e, m, o, Walk(r.resolved, root, {}), Bound(MENU));
  }

  /** For this menu finalize never returns: the renaming passes end, and then a comparison is made that
      goes on for ever. */
  lemma MenuNeverFinishes(r: Run, root: TypeSpec)
    requires Prepared(r, root, MENU) && |r.states| > 1
    ensures Infer.UnionThemes([Some(MENU_DOC)]) == Success(Some(MENU))
    ensures Ended(r.states) && !Finished(r, root, MENU)
    ensures Collapse.AreStructs(Last(r.states).graph, root, r.all) ==>
              Endless(r.(steps := [], last := Last(r.states).graph, row := 0), root, MENU)
  {
    MenuInferred();
    var l, e, m, o := MenuPrepared(r, root);
    var g := Last(r.states).graph;
    if Collapse.AreStructs(g, root, r.all) {
      MenuStructs(g, root, l, e, m, o, r.all);
      MenuStuck(g, root, l, e, m, o);
      if Finished(r, root, MENU) {
        Collapse.NotBoth(g, r.steps, r.last, r.row, [], g, 0, r.all, 0);
      }
    }
  }
}
