/** Exactly when deduplicateStructs returns: canonical entries outlive the names they were made for, and
    a run of passes that comes back to a state goes on for ever. */
module RenamingEnds {
  import opened Sets
  import opened TypeGraph
  import opened Naming

  /** A pass goes by the names and the stored structs alone. */
  ghost predicate SameState(a: PassState, b: PassState) {
    a.graph == b.graph && a.canonical == b.canonical
  }

  /** A state has come back after a pass that changed something. */
  ghost predicate Recurs(states: seq<PassState>) {
    exists i, j :: 0 <= i < j < |states| && SameState(states[i], states[j]) && states[j].changed
  }

  lemma SamePass(a: PassState, b: PassState, calls: seq<TypeSpec>, bound: nat)
    requires ValidState(a, bound) && (forall n <- calls :: n in a.graph) && SameState(a, b)
    ensures PassOver(b, calls, bound) == PassOver(a, calls, bound)
  {
    assert a.(changed := false) == b.(changed := false);
  }

  // ---------- a state that has come back ----------

  lemma {:induction false} SamePrefix(states: seq<PassState>, states': seq<PassState>, calls: seq<TypeSpec>, bound: nat, k: nat)
    requires Passes(states, calls, bound) && Passes(states', calls, bound) && states[0] == states'[0]
    requires k < |states| && k < |states'|
    ensures states[k] == states'[k]
  {
    if k > 0 {
      SamePrefix(states, states', calls, bound, k - 1);
      assert StateOf(states, k - 1, calls, bound) && StateOf(states', k - 1, calls, bound);
    }
  }

  /** From there on the states repeat. */
  lemma {:induction false} Periodic(states: seq<PassState>, calls: seq<TypeSpec>, bound: nat, i: nat, j: nat, k: nat)
    requires Passes(states, calls, bound) && i < j <= k < |states| && SameState(states[i], states[j])
    ensures SameState(states[k], states[k - (j - i)])
    ensures k > j ==> states[k] == states[k - (j - i)]
    decreases k
  {
    if k > j {
      Periodic(states, calls, bound, i, j, k - 1);
      var a, b := k - 1 - (j - i), k - 1;
      assert StateOf(states, a, calls, bound) && StateOf(states, b, calls, bound);
      SamePass(states[a], states[b], calls, bound);
      assert states[a + 1] == PassOver(states[a], calls, bound) && states[b + 1] == PassOver(states[b], calls, bound);
    }
  }

  lemma NeverUnchanged(states: seq<PassState>, calls: seq<TypeSpec>, bound: nat, i: nat, j: nat)
    requires Passes(states, calls, bound) && i < j < |states| && SameState(states[i], states[j]) && states[j].changed
    ensures !Ended(states)
  {
    var m := |states| - 1;
    if m > j {
      Periodic(states, calls, bound, i, j, m);
      assert StateOf(states, m - (j - i), calls, bound);
    }
  }

  /** So no run from the same graph ends. */
  lemma RecurringIsEndless(states: seq<PassState>, states': seq<PassState>, calls: seq<TypeSpec>, bound: nat)
    requires Passes(states, calls, bound) && Passes(states', calls, bound) && states[0] == states'[0] && Recurs(states')
    ensures !Ended(states)
  {
    var i, j :| 0 <= i < j < |states'| && SameState(states'[i], states'[j]) && states'[j].changed;
    var m := |states| - 1;
    if m <= j {
      SamePrefix(states, states', calls, bound, m);
      assert StateOf(states', m, calls, bound);
    } else {
      SamePrefix(states, states', calls, bound, i);
      SamePrefix(states, states', calls, bound, j);
      NeverUnchanged(states, calls, bound, i, j);
    }
  }

  lemma NoLonger(states: seq<PassState>, states': seq<PassState>, calls: seq<TypeSpec>, bound: nat)
    requires Passes(states, calls, bound) && Passes(states', calls, bound) && states[0] == states'[0] && Ended(states)
    ensures |states'| <= |states|
  {
    var m := |states| - 1;
    if m < |states'| - 1 {
      SamePrefix(states, states', calls, bound, m);
      ChangedInside(states', calls, bound, m);
      assert false;
    }
  }

  lemma ChangedInside(states: seq<PassState>, calls: seq<TypeSpec>, bound: nat, k: nat)
    requires Passes(states, calls, bound) && 0 < k < |states| - 1
    ensures states[k].changed
  {
    assert StateOf(states, k, calls, bound);
  }

  /** There is only one run that ends. */
  lemma EndedAlike(states: seq<PassState>, states': seq<PassState>, calls: seq<TypeSpec>, bound: nat)
    requires Passes(states, calls, bound) && Passes(states', calls, bound) && states[0] == states'[0]
    requires Ended(states) && Ended(states')
    ensures states == states'
  {
    NoLonger(states, states', calls, bound);
    NoLonger(states', states, calls, bound);
    forall k | 0 <= k < |states|
      ensures states[k] == states'[k]
    {
      SamePrefix(states, states', calls, bound, k);
    }
  }

  // ---------- the states there can be ----------

  ghost function Names(g: Graph): map<TypeSpec, string> {
    map n <- g :: g[n].name
  }

  ghost function Renaming(g: Graph, names: map<TypeSpec, string>): Graph {
    map n <- g :: g[n].(name := if n in names then names[n] else g[n].name)
  }

  ghost function KeyUnder(g: Graph, names: map<TypeSpec, string>, n: TypeSpec, bound: nat): string
    requires Taggable(g, bound) && n in g
  {
    RenamedTaggable(g, Renaming(g, names), bound);
    ShapeKey(Renaming(g, names), n, bound)
  }

  /** All ways to give the nodes names out of those there are. */
  ghost function Namings(g: Graph): set<map<TypeSpec, string>> {
    Maps(g.Keys, Names(g).Values)
  }

  ghost function PossibleKeys(g: Graph, bound: nat): set<string>
    requires Taggable(g, bound)
  {
    set names <- Namings(g), n <- g.Keys :: KeyUnder(g, names, n, bound)
  }

  ghost function PossibleStates(g: Graph, bound: nat): set<(map<TypeSpec, string>, map<string, TypeSpec>)>
    requires Taggable(g, bound)
  {
    Pairs(Namings(g), Maps(PossibleKeys(g, bound), g.Keys))
  }

  /** What every state of a run from g is. */
  ghost predicate Possible(g: Graph, st: PassState, bound: nat)
    requires Taggable(g, bound)
  {
    && ValidState(st, bound) && Renamed(g, st.graph)
    && Names(st.graph).Values <= Names(g).Values && st.canonical.Keys <= PossibleKeys(g, bound)
  }

  lemma RenamedIsRenaming(g: Graph, g': Graph)
    requires Renamed(g, g')
    ensures g' == Renaming(g, Names(g'))
  {
    forall n <- g
      ensures g'[n] == Renaming(g, Names(g'))[n]
    {
      assert g'[n] == g[n].(name := g'[n].name);
    }
  }

  lemma KeyIsPossible(g: Graph, st: PassState, n: TypeSpec, bound: nat)
    requires Taggable(g, bound) && Possible(g, st, bound) && n in g
    ensures ShapeKey(st.graph, n, bound) in PossibleKeys(g, bound)
  {
    var names := Names(st.graph);
    RenamedIsRenaming(g, st.graph);
    AllMaps(g.Keys, Names(g).Values, names);
    assert names in Namings(g) && ShapeKey(st.graph, n, bound) == KeyUnder(g, names, n, bound);
  }

  lemma NamesOfRenamed(g: Graph, n: TypeSpec, m: TypeSpec)
    requires n in g && m in g
    ensures Names(g[n := g[n].(name := g[m].name)]).Values <= Names(g).Values
  {
    var g' := g[n := g[n].(name := g[m].name)];
    forall name <- Names(g').Values
      ensures name in Names(g).Values
    {
      var k: TypeSpec :| k in g' && Names(g')[k] == name;
      assert name == Names(g)[if k == n then m else k];
    }
  }

  lemma VisitPossible(g: Graph, st: PassState, spec: TypeSpec, bound: nat)
    requires Taggable(g, bound) && Possible(g, st, bound) && spec in g
    ensures Possible(g, Deduplicate(st, spec, bound), bound)
  {
    var r := Deduplicate(st, spec, bound);
    RenamedTransitive(g, st.graph, r.graph);
    VisitKeys(g, st, spec, bound);
    VisitNamesKnown(st, spec, bound);
  }

  lemma VisitKeys(g: Graph, st: PassState, spec: TypeSpec, bound: nat)
    requires Taggable(g, bound) && Possible(g, st, bound) && spec in g
    ensures Deduplicate(st, spec, bound).canonical.Keys <= PossibleKeys(g, bound)
  {
    KeyIsPossible(g, st, spec, bound);
  }

  lemma VisitNamesKnown(st: PassState, spec: TypeSpec, bound: nat)
    requires ValidState(st, bound) && spec in st.graph
    ensures Names(Deduplicate(st, spec, bound).graph).Values <= Names(st.graph).Values
  {
    if st.graph[spec].kind == KindStruct {
      var key := ShapeKey(st.graph, spec, bound);
      if key in st.canonical {
        assert st.canonical[key] in st.canonical.Values;
        NamesOfRenamed(st.graph, spec, st.canonical[key]);
      }
    }
  }

  lemma {:induction false} VisitsPossible(g: Graph, st: PassState, calls: seq<TypeSpec>, bound: nat)
    requires Taggable(g, bound) && Possible(g, st, bound) && forall n <- calls :: n in g
    ensures Possible(g, DeduplicateAll(st, calls, bound), bound)
  {
    if calls != [] {
      var k := |calls| - 1;
      VisitsPossible(g, st, calls[..k], bound);
      VisitPossible(g, DeduplicateAll(st, calls[..k], bound), calls[k], bound);
    }
  }

  lemma PassPossible(g: Graph, st: PassState, calls: seq<TypeSpec>, bound: nat)
    requires Taggable(g, bound) && Possible(g, st, bound) && forall n <- calls :: n in st.graph
    ensures Possible(g, PassOver(st, calls, bound), bound)
  {
    VisitsPossible(g, st.(changed := false), calls, bound);
  }

  lemma {:induction false} StatesPossible(states: seq<PassState>, calls: seq<TypeSpec>, bound: nat, k: nat)
    requires Passes(states, calls, bound) && k < |states| && states[0].canonical == map[]
    ensures Taggable(states[0].graph, bound) && Possible(states[0].graph, states[k], bound)
  {
    assert StateOf(states, 0, calls, bound);
    if k > 0 {
      StatesPossible(states, calls, bound, k - 1);
      assert StateOf(states, k - 1, calls, bound);
      PassPossible(states[0].graph, states[k - 1], calls, bound);
    }
  }

  lemma IsPossible(g: Graph, st: PassState, bound: nat)
    requires Taggable(g, bound) && Possible(g, st, bound)
    ensures (Names(st.graph), st.canonical) in PossibleStates(g, bound)
  {
    AllMaps(g.Keys, Names(g).Values, Names(st.graph));
    AllMaps(PossibleKeys(g, bound), g.Keys, st.canonical);
  }

  // ---------- going on ----------

  /** Passes are made until one changes nothing, or k have been made. */
  lemma {:induction false} GoOn(states: seq<PassState>, calls: seq<TypeSpec>, bound: nat, k: nat) returns (states': seq<PassState>)
    requires Passes(states, calls, bound)
    ensures Passes(states', calls, bound) && states'[0] == states[0] && (Ended(states') || |states'| >= k)
    decreases k - |states|
  {
    if Ended(states) || |states| >= k {
      states' := states;
    } else {
      NextPass(states, calls, bound);
      states' := GoOn(states + [PassOver(Last(states), calls, bound)], calls, bound, k);
    }
  }

  /** More passes than there are states lead back to one. */
  lemma LongRunRecurs(states: seq<PassState>, calls: seq<TypeSpec>, bound: nat)
    requires Passes(states, calls, bound) && states[0].canonical == map[] && !Ended(states)
    requires Taggable(states[0].graph, bound) && |states| > |PossibleStates(states[0].graph, bound)|
    ensures Recurs(states)
  {
    var g := states[0].graph;
    var s := seq(|states|, k requires 0 <= k < |states| => (Names(states[k].graph), states[k].canonical));
    forall x <- s
      ensures x in PossibleStates(g, bound)
    {
      var k :| 0 <= k < |s| && s[k] == x;
      StatesPossible(states, calls, bound, k);
      IsPossible(g, states[k], bound);
    }
    var i, j := Repeats(s, PossibleStates(g, bound));
    StatesPossible(states, calls, bound, i);
    StatesPossible(states, calls, bound, j);
    RenamedIsRenaming(g, states[i].graph);
    RenamedIsRenaming(g, states[j].graph);
    assert StateOf(states, j, calls, bound);
    assert SameState(states[i], states[j]) && states[j].changed;
  }

  /** A run can always be continued until it ends or a state has come back. */
  lemma Settles(states: seq<PassState>, calls: seq<TypeSpec>, bound: nat) returns (states': seq<PassState>)
    requires Passes(states, calls, bound) && states[0].canonical == map[]
    ensures Passes(states', calls, bound) && states'[0] == states[0] && (Ended(states') || Recurs(states'))
  {
    assert StateOf(states, 0, calls, bound);
    states' := GoOn(states, calls, bound, |PossibleStates(states[0].graph, bound)| + 1);
    if !Ended(states') {
      LongRunRecurs(states', calls, bound);
    }
  }

  /** The passes end at some time exactly if no state comes back after a pass that changed something. */
  lemma EndsExactly(st: PassState, calls: seq<TypeSpec>, bound: nat)
    requires ValidState(st, bound) && (forall n <- calls :: n in st.graph) && st.canonical == map[]
    ensures (exists states :: Passes(states, calls, bound) && states[0] == st && Ended(states)) <==>
            !exists states :: Passes(states, calls, bound) && states[0] == st && Recurs(states)
  {
    if states :| Passes(states, calls, bound) && states[0] == st && Ended(states) {
      forall states' | Passes(states', calls, bound) && states'[0] == st
        ensures !Recurs(states')
      {
        if Recurs(states') {
          RecurringIsEndless(states, states', calls, bound);
        }
      }
    } else {
      assert StateOf([st], 0, calls, bound);
      var states := Settles([st], calls, bound);
    }
  }
}
