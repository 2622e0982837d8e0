/** collectStructs, orderTypes and goType: the emitted set of struct types is closed and
    unambiguous (cmd/themegen/config_infer.go, cmd/themegen/config_emit.go). */
module Emit {
  import opened Wrappers
  import opened Naming
  import opened TypeGraph

  /** A copy of a struct node, as collectStructs takes it. */
  datatype Emitted = Emitted(name: string, fields: seq<FieldSpec>)

  function TypeNames(types: seq<Emitted>): (r: set<string>) {
    set t <- types :: t.name
  }

  /** The first struct of each name, in visiting order. */
  ghost function Collected(g: Graph, calls: seq<TypeSpec>): seq<Emitted>
    requires forall n <- calls :: n in g
  {
    if calls == [] then [] else
      var k := |calls| - 1;
      var init := Collected(g, calls[..k]);
      var n := g[calls[k]];
      if n.kind == KindStruct && n.name !in TypeNames(init) then init + [Emitted(n.name, n.fields)] else init
  }

  ghost predicate OncePerName(types: seq<Emitted>) {
    forall i, j :: 0 <= i < j < |types| ==> types[i].name != types[j].name
  }

  ghost predicate IsCopyOf(g: Graph, n: TypeSpec, t: Emitted) {
    n in g && g[n].kind == KindStruct && t == Emitted(g[n].name, g[n].fields)
  }

  /** Each struct name once, for a visited struct of that name, and none left out. */
  lemma {:induction false} CollectedExact(g: Graph, calls: seq<TypeSpec>)
    requires forall n <- calls :: n in g
    ensures OncePerName(Collected(g, calls))
    ensures forall t <- Collected(g, calls) :: exists n <- calls :: IsCopyOf(g, n, t)
    ensures forall n <- calls | g[n].kind == KindStruct :: g[n].name in TypeNames(Collected(g, calls))
    ensures calls != [] && g[calls[0]].kind == KindStruct ==>
              Collected(g, calls) != [] && IsCopyOf(g, calls[0], Collected(g, calls)[0])
  {
    if calls != [] {
      var k := |calls| - 1;
      var init := Collected(g, calls[..k]);
      CollectedExact(g, calls[..k]);
      assert calls == calls[..k] + [calls[k]];
      forall t <- Collected(g, calls)
        ensures exists n <- calls :: IsCopyOf(g, n, t)
      {
        if t in init {
          var n :| n in calls[..k] && IsCopyOf(g, n, t);
          assert n in calls;
        } else {
          assert calls[k] in calls && IsCopyOf(g, calls[k], t);
        }
      }
      forall n <- calls | g[n].kind == KindStruct
        ensures g[n].name in TypeNames(Collected(g, calls))
      {
        if n in calls[..k] {
          assert g[n].name in TypeNames(init);
          var t :| t in init && t.name == g[n].name;
          assert t in Collected(g, calls);
        }
      }
    }
  }

  /** Of the structs of one name the first visited is taken, and no other. */
  lemma {:induction false} CollectedFirst(g: Graph, calls: seq<TypeSpec>, i: nat)
    requires (forall n <- calls :: n in g) && i < |calls| && g[calls[i]].kind == KindStruct
    requires forall j :: 0 <= j < i ==> g[calls[j]].kind != KindStruct || g[calls[j]].name != g[calls[i]].name
    ensures Emitted(g[calls[i]].name, g[calls[i]].fields) in Collected(g, calls)
  {
    var k := |calls| - 1;
    var init := Collected(g, calls[..k]);
    if i < k {
      CollectedFirst(g, calls[..k], i);
    } else {
      CollectedExact(g, calls[..k]);
      forall t <- init
        ensures t.name != g[calls[i]].name
      {
        var n :| n in calls[..k] && IsCopyOf(g, n, t);
      }
    }
  }

  /** The types collectStructs returns. */
  ghost function Emission(g: Graph, root: TypeSpec): seq<Emitted> {
    WalkFresh(g, root, {});
    Collected(g, Walk(g, root, {}))
  }

  method CollectStructs(root: TypeSpec, ghost g: Graph) returns (out: seq<Emitted>)
    requires g == Snap(g.Keys) && Closed(g) && root in g
    ensures out == Emission(g, root)
  {
    var calls, _ := VisitWith(root, {}, g);
    WalkFresh(g, root, {});
    var seen: set<string> := {};
    out := [];
    for i := 0 to |calls|
      invariant out == Collected(g, calls[..i]) && seen == TypeNames(out)
    {
      assert calls[..i + 1][..i] == calls[..i] && calls[i] in calls;
      var spec := calls[i];
      if spec.kind == KindStruct && spec.name !in seen {
        seen := seen + {spec.name};
        out := out + [Emitted(spec.name, spec.fields)];
      }
    }
    assert calls[..|calls|] == calls;
  }

  // ---------- the names goType writes ----------

  /** After stripping k slices, goType of t is the name of a struct. */
  ghost predicate Mentions(g: Graph, t: TypeSpec, name: string, k: nat) {
    t in g &&
    if k == 0 then g[t].kind == KindStruct && g[t].name == name
    else g[t].kind == KindSlice && g[t].element != null && Mentions(g, g[t].element, name, k - 1)
  }

  ghost function Brackets(k: nat): string {
    if k == 0 then "" else "[]" + Brackets(k - 1)
  }

  /** goType with a bound on its nested calls; None means still running. */
  ghost function GoType(g: Graph, t: TypeSpec, calls: nat): Option<string> {
    if calls == 0 || t !in g then None
    else match g[t].kind
      case KindScalar => Some(g[t].scalar)
      case KindSlice =>
        if g[t].element == null then Some("[]any")
        else (match GoType(g, g[t].element, calls - 1)
              case None => None
              case Some(s) => Some("[]" + s))
      case KindStruct => Some(g[t].name)
      case KindNull => Some("string")
  }

  lemma {:induction false} GoTypeMentions(g: Graph, t: TypeSpec, name: string, k: nat, calls: nat)
    requires Mentions(g, t, name, k) && calls > k
    ensures GoType(g, t, calls) == Some(Brackets(k) + name)
  {
    if k > 0 {
      GoTypeMentions(g, g[t].element, name, k - 1, calls - 1);
      assert "[]" + (Brackets(k - 1) + name) == Brackets(k) + name;
    } else {
      assert Brackets(0) + name == name;
    }
  }

  lemma {:induction false} MentionedIsVisited(g: Graph, root: TypeSpec, t: TypeSpec, name: string, k: nat)
    returns (n: TypeSpec)
    requires Closed(g) && root in g && Mentions(g, t, name, k) && t in Walk(g, root, {})
    ensures n in Walk(g, root, {}) && n in g && g[n].kind == KindStruct && g[n].name == name
  {
    if k == 0 {
      n := t;
    } else {
      WalkComplete(g, root, {});
      assert g[t].element in Children(g[t]);
      assert g[t].element in {} + Set(Walk(g, root, {}));
      n := MentionedIsVisited(g, root, g[t].element, name, k - 1);
    }
  }

  lemma FieldIsVisited(g: Graph, root: TypeSpec, n: TypeSpec, f: FieldSpec)
    requires Closed(g) && root in g && n in Walk(g, root, {})
    requires n in g && g[n].kind == KindStruct && f in g[n].fields
    ensures f.typ in Walk(g, root, {})
  {
    WalkComplete(g, root, {});
    var i :| 0 <= i < |g[n].fields| && g[n].fields[i] == f;
    assert f.typ == Children(g[n])[i];
    assert f.typ in {} + Set(Walk(g, root, {}));
  }

  /** Closed: every struct name written in the fields of an emitted type is itself emitted. */
  lemma EmittedIsClosed(g: Graph, root: TypeSpec, t: Emitted, f: FieldSpec, name: string, k: nat)
    requires Closed(g) && root in g
    requires t in Emission(g, root) && f in t.fields && Mentions(g, f.typ, name, k)
    ensures name in TypeNames(Emission(g, root))
  {
    var calls := Walk(g, root, {});
    WalkFresh(g, root, {});
    CollectedExact(g, calls);
    var n :| n in calls && IsCopyOf(g, n, t);
    FieldIsVisited(g, root, n, f);
    var m := MentionedIsVisited(g, root, f.typ, name, k);
    assert g[m].name in TypeNames(Collected(g, calls));
  }

  // ---------- orderTypes ----------

  function Others(types: seq<Emitted>): (r: seq<Emitted>)
    ensures forall t <- r :: t.name != CONFIG_TYPE_NAME
  {
    if types == [] then [] else
      var k := |types| - 1;
      Others(types[..k]) + (if types[k].name == CONFIG_TYPE_NAME then [] else [types[k]])
  }

  /** The last type named Config, as a sequence of at most one. */
  function LastConfig(types: seq<Emitted>): (r: seq<Emitted>)
    ensures |r| <= 1 && forall t <- r :: t.name == CONFIG_TYPE_NAME
  {
    if types == [] then [] else
      var k := |types| - 1;
      if types[k].name == CONFIG_TYPE_NAME then [types[k]] else LastConfig(types[..k])
  }

  function ConfigCount(types: seq<Emitted>): nat {
    if types == [] then 0 else
      ConfigCount(types[..|types| - 1]) + (if types[|types| - 1].name == CONFIG_TYPE_NAME then 1 else 0)
  }

  function Ordered(types: seq<Emitted>): seq<Emitted> {
    LastConfig(types) + Others(types)
  }

  method OrderTypes(types: seq<Emitted>) returns (out: seq<Emitted>)
    ensures out == Ordered(types)
  {
    var cfg: Option<Emitted> := None;
    var rest := [];
    for i := 0 to |types|
      invariant LastConfig(types[..i]) == if cfg.Some? then [cfg.value] else []
      invariant rest == Others(types[..i])
    {
      assert types[..i + 1][..i] == types[..i];
      if types[i].name == CONFIG_TYPE_NAME {
        cfg := Some(types[i]);
      } else {
        rest := rest + [types[i]];
      }
    }
    assert types[..|types|] == types;
    out := [];
    if cfg.Some? {
      out := [cfg.value];
    }
    out := out + rest;
  }

  lemma {:induction false} OthersCount(types: seq<Emitted>)
    ensures |types| == |Others(types)| + ConfigCount(types)
    ensures ConfigCount(types) == 0 ==> LastConfig(types) == [] && Others(types) == types
    ensures ConfigCount(types) > 0 ==> |LastConfig(types)| == 1
  {
    if types != [] {
      var k := |types| - 1;
      OthersCount(types[..k]);
      assert types == types[..k] + [types[k]];
    }
  }

  lemma NextMember(cfg: seq<Emitted>, rest: seq<Emitted>, types: seq<Emitted>, t: Emitted)
    requires multiset(cfg) + multiset(rest) == multiset(types)
    ensures multiset(cfg) + multiset(rest + [t]) == multiset(types + [t])
  {
  }

  lemma {:induction false} OneConfigKept(types: seq<Emitted>)
    requires ConfigCount(types) <= 1
    ensures multiset(LastConfig(types)) + multiset(Others(types)) == multiset(types)
  {
    if types != [] {
      var k := |types| - 1;
      var init, t := types[..k], types[k];
      assert types == init + [t];
      OthersCount(init);
      if t.name == CONFIG_TYPE_NAME {
        assert LastConfig(types) == [t] && Others(types) == init;
      } else {
        OneConfigKept(init);
        NextMember(LastConfig(init), Others(init), init, t);
        assert LastConfig(types) == LastConfig(init) && Others(types) == Others(init) + [t];
      }
    }
  }

  /** The reordering is a permutation exactly when at most one type is called Config. */
  lemma OrderIsPermutation(types: seq<Emitted>)
    ensures multiset(Ordered(types)) == multiset(types) <==> ConfigCount(types) <= 1
  {
    OthersCount(types);
    if ConfigCount(types) <= 1 {
      OneConfigKept(types);
    } else {
      assert |multiset(types)| == |types|;
      assert |multiset(Ordered(types))| == 1 + |Others(types)|;
    }
  }

  lemma {:induction false} ConfigOnce(types: seq<Emitted>)
    requires OncePerName(types)
    ensures ConfigCount(types) == if CONFIG_TYPE_NAME in TypeNames(types) then 1 else 0
  {
    if types != [] {
      var k := |types| - 1;
      ConfigOnce(types[..k]);
      assert types == types[..k] + [types[k]];
      assert TypeNames(types) == TypeNames(types[..k]) + {types[k].name};
    }
  }

  /** What is written for a root struct: nothing is lost and each name is written once. The type of
      the root stands first as Config iff the root is still called Config, and then the rest follow
      in visiting order; a type called Config is written at all iff some visited struct bears the name. */
  lemma EmittedOrder(g: Graph, root: TypeSpec)
    requires Closed(g) && root in g && g[root].kind == KindStruct
    ensures var types := Emission(g, root);
            var out := Ordered(types);
            && types != [] && types[0] == Emitted(g[root].name, g[root].fields)
            && out != [] && multiset(out) == multiset(types) && OncePerName(out)
            && (out[0] == types[0] && out[0].name == CONFIG_TYPE_NAME <==> g[root].name == CONFIG_TYPE_NAME)
            && (g[root].name == CONFIG_TYPE_NAME ==> out == types)
            && (CONFIG_TYPE_NAME in TypeNames(out) <==>
                exists n <- g :: g[n].kind == KindStruct && g[n].name == CONFIG_TYPE_NAME && Reaches(g, root, n))
  {
    var calls := Walk(g, root, {});
    var types := Emission(g, root);
    VisitsExactlyTheReachable(g, root);
    WalkFresh(g, root, {});
    CollectedExact(g, calls);
    ConfigOnce(types);
    OrderIsPermutation(types);
    OrderedOncePerName(types);
    ConfigEmitted(g, root);
    if g[root].name == CONFIG_TYPE_NAME {
      FirstConfig(types);
    }
  }

  lemma SameMembers(types: seq<Emitted>, out: seq<Emitted>)
    requires multiset(out) == multiset(types)
    ensures TypeNames(out) == TypeNames(types) && |out| == |types| && (forall t <- out :: t in types) && forall t <- types :: t in out
  {
    assert forall t :: t in out <==> t in multiset(out);
    assert forall t :: t in types <==> t in multiset(types);
    assert |multiset(out)| == |out| && |multiset(types)| == |types|;
  }

  lemma ConfigEmitted(g: Graph, root: TypeSpec)
    requires Closed(g) && root in g
    ensures var types := Emission(g, root);
            && TypeNames(Ordered(types)) == TypeNames(types) && |Ordered(types)| == |types|
            && (CONFIG_TYPE_NAME in TypeNames(types) <==>
                exists n <- g :: g[n].kind == KindStruct && g[n].name == CONFIG_TYPE_NAME && Reaches(g, root, n))
  {
    var calls := Walk(g, root, {});
    var types := Emission(g, root);
    VisitsExactlyTheReachable(g, root);
    WalkFresh(g, root, {});
    CollectedExact(g, calls);
    ConfigOnce(types);
    OrderIsPermutation(types);
    SameMembers(types, Ordered(types));
    if CONFIG_TYPE_NAME in TypeNames(types) {
      var t :| t in types && t.name == CONFIG_TYPE_NAME;
      var n :| n in calls && IsCopyOf(g, n, t);
    }
  }

  lemma {:induction false} OthersInside(types: seq<Emitted>)
    requires OncePerName(types)
    ensures OncePerName(Others(types)) && forall t <- Others(types) :: t in types
  {
    if types != [] {
      var k := |types| - 1;
      OthersInside(types[..k]);
      assert types == types[..k] + [types[k]];
      forall t <- Others(types[..k])
        ensures t.name != types[k].name
      {
        var i :| 0 <= i < k && types[i] == t;
      }
    }
  }

  lemma OrderedOncePerName(types: seq<Emitted>)
    requires OncePerName(types)
    ensures OncePerName(Ordered(types))
  {
    OthersInside(types);
  }

  lemma {:induction false} FirstConfig(types: seq<Emitted>)
    requires OncePerName(types) && types != [] && types[0].name == CONFIG_TYPE_NAME
    ensures LastConfig(types) == [types[0]] && Others(types) == types[1..] && Ordered(types) == types
  {
    var k := |types| - 1;
    if k > 0 {
      FirstConfig(types[..k]);
      assert types[1..] == types[..k][1..] + [types[k]];
    }
  }
}
