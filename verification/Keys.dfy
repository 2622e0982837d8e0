/** What shapeKey tells apart: the text of a key gives back the names of the fields and their types, as long
    as the names do not hold the characters the text is put together with
    (cmd/themegen/config_infer.go). */
module Keys {
  import opened Sets
  import opened TypeGraph
  import opened Naming
  import opened RenamingEnds

  // ---------- types, in two states of the graph ----------

  /** The same kind of type: both null, the same scalar, structs of one name, slices without element, or
      slices of such types. */
  ghost predicate SameType(g: Graph, t: TypeSpec, g': Graph, t': TypeSpec, bound: nat)
    requires Ends(g, t, bound) && Ends(g', t', bound)
    decreases bound
  {
    match (g[t].kind, g'[t'].kind)
    case (KindNull, KindNull) => true
    case (KindScalar, KindScalar) => g[t].scalar == g'[t'].scalar
    case (KindStruct, KindStruct) => g[t].name == g'[t'].name
    case (KindSlice, KindSlice) =>
      if g[t].element == null || g'[t'].element == null then g[t].element == g'[t'].element
      else SameType(g, g[t].element, g', g'[t'].element, bound - 1)
    case _ => false
  }

  lemma {:induction false} TagBegins(g: Graph, t: TypeSpec, bound: nat)
    requires Ends(g, t, bound)
    ensures var tag := TypeTag(g, t, bound);
            tag != "" && tag[0] == match g[t].kind
                                   case KindScalar => 's'
                                   case KindSlice => '['
                                   case KindStruct => '@'
                                   case KindNull => '?'
  {
  }

  lemma Behind(prefix: string, a: string, b: string)
    ensures prefix + a == prefix + b <==> a == b
  {
    if prefix + a == prefix + b {
      assert a == (prefix + a)[|prefix|..] == (prefix + b)[|prefix|..] == b;
    }
  }

  /** The tag tells types apart exactly, whatever the names. */
  lemma {:induction false} TagsExactly(g: Graph, t: TypeSpec, g': Graph, t': TypeSpec, bound: nat)
    requires Ends(g, t, bound) && Ends(g', t', bound)
    ensures TypeTag(g, t, bound) == TypeTag(g', t', bound) <==> SameType(g, t, g', t', bound)
    decreases bound
  {
    TagBegins(g, t, bound);
    TagBegins(g', t', bound);
    match (g[t].kind, g'[t'].kind)
    case (KindScalar, KindScalar) => Behind("s:", g[t].scalar, g'[t'].scalar);
    case (KindStruct, KindStruct) => Behind("@", g[t].name, g'[t'].name);
    case (KindSlice, KindSlice) => SliceTagsExactly(g, t, g', t', bound);
    case _ =>
  }

  lemma {:induction false} SliceTagsExactly(g: Graph, t: TypeSpec, g': Graph, t': TypeSpec, bound: nat)
    requires Ends(g, t, bound) && Ends(g', t', bound) && g[t].kind == g'[t'].kind == KindSlice
    ensures TypeTag(g, t, bound) == TypeTag(g', t', bound) <==> SameType(g, t, g', t', bound)
    decreases bound, 0
  {
    var e, e' := g[t].element, g'[t'].element;
    assert "[]nil" == "[]" + "nil";
    if e != null {
      TagBegins(g, e, bound - 1);
      Behind("[]", TypeTag(g, e, bound - 1), "nil");
    }
    if e' != null {
      TagBegins(g', e', bound - 1);
      Behind("[]", "nil", TypeTag(g', e', bound - 1));
    }
    if e != null && e' != null {
      Behind("[]", TypeTag(g, e, bound - 1), TypeTag(g', e', bound - 1));
      TagsExactly(g, e, g', e', bound - 1);
    }
  }

  // ---------- keys ----------

  /** A struct whose key can be taken. */
  ghost predicate Keyed(g: Graph, fields: seq<FieldSpec>, bound: nat) {
    forall f <- fields :: Ends(g, f.typ, bound)
  }

  /** Equally many fields, pairwise with the same name and the same kind of type. */
  ghost predicate SameLayout(g: Graph, fields: seq<FieldSpec>, g': Graph, others: seq<FieldSpec>, bound: nat)
    requires Keyed(g, fields, bound) && Keyed(g', others, bound)
  {
    |fields| == |others| && forall i :: 0 <= i < |fields| ==> SameField(g, fields[i], g', others[i], bound)
  }

  ghost predicate SameField(g: Graph, f: FieldSpec, g': Graph, f': FieldSpec, bound: nat)
    requires Ends(g, f.typ, bound) && Ends(g', f'.typ, bound)
  {
    f.name == f'.name && SameType(g, f.typ, g', f'.typ, bound)
  }

  /** Names that cannot be taken for a part of the key's text. */
  ghost predicate Plain(g: Graph) {
    forall n <- g :: ';' !in g[n].name && ';' !in g[n].scalar && PlainFields(g[n].fields)
  }

  ghost predicate PlainFields(fields: seq<FieldSpec>) {
    forall f <- fields :: ':' !in f.name
  }

  lemma {:induction false} PlainTag(g: Graph, t: TypeSpec, bound: nat)
    requires Ends(g, t, bound) && Plain(g)
    ensures ';' !in TypeTag(g, t, bound)
    decreases bound
  {
    if g[t].kind == KindSlice && g[t].element != null {
      PlainTag(g, g[t].element, bound - 1);
    }
  }

  /** What a field adds to the key. */
  ghost function Segment(g: Graph, f: FieldSpec, bound: nat): string
    requires Ends(g, f.typ, bound)
  {
    f.name + ":" + TypeTag(g, f.typ, bound) + ";"
  }

  lemma Regroup(a: string, b: string, c: string)
    ensures (a + b) + c == a + (b + c)
  {
  }

  lemma LastSegment(g: Graph, fields: seq<FieldSpec>, bound: nat)
    requires fields != [] && Keyed(g, fields, bound)
    ensures var k := |fields| - 1;
            FieldsKey(g, fields, bound) == FieldsKey(g, fields[..k], bound) + Segment(g, fields[k], bound)
  {
    var k := |fields| - 1;
    var init, name, tag := FieldsKey(g, fields[..k], bound), fields[k].name, TypeTag(g, fields[k].typ, bound);
    assert init + name + ":" + tag + ";" == init + (name + ":" + tag + ";");
  }

  lemma {:induction false} KeyFromTheFront(g: Graph, fields: seq<FieldSpec>, bound: nat)
    requires fields != [] && Keyed(g, fields, bound)
    ensures FieldsKey(g, fields, bound) == Segment(g, fields[0], bound) + FieldsKey(g, fields[1..], bound)
  {
    var k := |fields| - 1;
    LastSegment(g, fields, bound);
    if k > 0 {
      KeyFromTheFront(g, fields[..k], bound);
      LastSegment(g, fields[1..], bound);
      assert fields[..k][1..] == fields[1..][..k - 1];
      Regroup(Segment(g, fields[0], bound), FieldsKey(g, fields[..k][1..], bound), Segment(g, fields[k], bound));
    } else {
      assert fields[1..] == [] && fields[..k] == [];
    }
  }

  lemma CharAt(c: char, a: string, rest: string, k: nat)
    requires c !in a
    ensures (a + [c] + rest)[|a|] == c && (k < |a| ==> (a + [c] + rest)[k] != c)
  {
    if k < |a| {
      assert (a + [c] + rest)[k] == a[k];
    }
  }

  /** The first c tells where the first part ends. */
  lemma Cut(c: char, a: string, a': string, rest: string, rest': string)
    requires c !in a && c !in a'
    ensures a + [c] + rest == a' + [c] + rest' <==> a == a' && rest == rest'
  {
    CharAt(c, a, rest, |a'|);
    CharAt(c, a', rest', |a|);
    var s, s' := a + [c] + rest, a' + [c] + rest';
    if s == s' {
      assert |a| == |a'|;
      assert a == s[..|a|] && a' == s'[..|a|];
      assert rest == s[|a| + 1..] && rest' == s'[|a| + 1..];
    }
  }

  lemma SegmentsExactly(g: Graph, f: FieldSpec, g': Graph, f': FieldSpec, bound: nat, rest: string, rest': string)
    requires Plain(g) && Plain(g') && ':' !in f.name && ':' !in f'.name
    requires Ends(g, f.typ, bound) && Ends(g', f'.typ, bound)
    ensures Segment(g, f, bound) + rest == Segment(g', f', bound) + rest' <==>
            SameField(g, f, g', f', bound) && rest == rest'
  {
    var tag, tag' := TypeTag(g, f.typ, bound), TypeTag(g', f'.typ, bound);
    PlainTag(g, f.typ, bound);
    PlainTag(g', f'.typ, bound);
    TagsExactly(g, f.typ, g', f'.typ, bound);
    Cut(';', tag, tag', rest, rest');
    Cut(':', f.name, f'.name, tag + ";" + rest, tag' + ";" + rest');
    assert Segment(g, f, bound) + rest == f.name + ":" + (tag + ";" + rest);
    assert Segment(g', f', bound) + rest' == f'.name + ":" + (tag' + ";" + rest');
  }

  lemma {:induction false} FieldKeysExactly(g: Graph, fields: seq<FieldSpec>, g': Graph, others: seq<FieldSpec>, bound: nat)
    requires Keyed(g, fields, bound) && Keyed(g', others, bound)
    requires Plain(g) && Plain(g') && PlainFields(fields) && PlainFields(others)
    ensures FieldsKey(g, fields, bound) == FieldsKey(g', others, bound) <==> SameLayout(g, fields, g', others, bound)
    decreases |fields|
  {
    if fields != [] && others != [] {
      var rest, rest' := fields[1..], others[1..];
      KeyFromTheFront(g, fields, bound);
      KeyFromTheFront(g', others, bound);
      SegmentsExactly(g, fields[0], g', others[0], bound, FieldsKey(g, rest, bound), FieldsKey(g', rest', bound));
      FieldKeysExactly(g, rest, g', rest', bound);
      LayoutFromTheFront(g, fields, g', others, bound);
    } else if fields != [] {
      KeyFromTheFront(g, fields, bound);
    } else if others != [] {
      KeyFromTheFront(g', others, bound);
    }
  }

  lemma LayoutFromTheFront(g: Graph, fields: seq<FieldSpec>, g': Graph, others: seq<FieldSpec>, bound: nat)
    requires fields != [] && others != [] && Keyed(g, fields, bound) && Keyed(g', others, bound)
    ensures SameLayout(g, fields, g', others, bound) <==>
            SameField(g, fields[0], g', others[0], bound) && SameLayout(g, fields[1..], g', others[1..], bound)
  {
    if SameField(g, fields[0], g', others[0], bound) && SameLayout(g, fields[1..], g', others[1..], bound) {
      forall i | 0 <= i < |fields|
        ensures SameField(g, fields[i], g', others[i], bound)
      {
        assert i > 0 ==> SameField(g, fields[1..][i - 1], g', others[1..][i - 1], bound);
      }
    }
    if SameLayout(g, fields, g', others, bound) {
      forall i | 0 <= i < |fields[1..]|
        ensures SameField(g, fields[1..][i], g', others[1..][i], bound)
      {
        assert SameField(g, fields[i + 1], g', others[i + 1], bound);
      }
    }
  }

  lemma StructKeyed(g: Graph, n: TypeSpec, bound: nat)
    requires Taggable(g, bound) && n in g && g[n].kind == KindStruct
    ensures Keyed(g, g[n].fields, bound)
  {
    FieldTypesInside(g, n);
  }

  /** Two structs, here of two states of a graph or of one, have the same key exactly if they have equally
      many fields, pairwise with the same name and the same kind of type. */
  lemma KeysExactly(g: Graph, n: TypeSpec, g': Graph, m: TypeSpec, bound: nat)
    requires Taggable(g, bound) && Taggable(g', bound) && Plain(g) && Plain(g')
    requires n in g && m in g' && g[n].kind == g'[m].kind == KindStruct
    ensures Keyed(g, g[n].fields, bound) && Keyed(g', g'[m].fields, bound)
    ensures ShapeKey(g, n, bound) == ShapeKey(g', m, bound) <==> SameLayout(g, g[n].fields, g', g'[m].fields, bound)
  {
    StructKeyed(g, n, bound);
    StructKeyed(g', m, bound);
    FieldKeysExactly(g, g[n].fields, g', g'[m].fields, bound);
  }

  /** With other names two structs can have one key: a single field of such a name is taken for two. */
  lemma KeysCanCollide(g: Graph, t: TypeSpec, bound: nat)
    requires Ends(g, t, bound) && g[t].kind == KindScalar && g[t].scalar == "int"
    ensures FieldsKey(g, [FieldSpec("a:s:int;b", t)], bound) == FieldsKey(g, [FieldSpec("a", t), FieldSpec("b", t)], bound)
  {
    var a, b := FieldSpec("a", t), FieldSpec("b", t);
    var one, two := [FieldSpec("a:s:int;b", t)], [a, b];
    KeyFromTheFront(g, one, bound);
    KeyFromTheFront(g, two, bound);
    KeyFromTheFront(g, [b], bound);
    assert one[1..] == [] && two[1..] == [b] && [b][1..] == [];
    assert TypeTag(g, t, bound) == "s:" + "int";
    assert Segment(g, a, bound) == "a" + ":" + ("s:" + "int") + ";";
    assert Segment(g, b, bound) == "b" + ":" + ("s:" + "int") + ";";
    assert Segment(g, one[0], bound) == "a:s:int;b" + ":" + ("s:" + "int") + ";";
  }

  // ---------- whose name a struct is given ----------

  /** The same type but for the names of structs. */
  ghost predicate SameFrame(g: Graph, t: TypeSpec, t': TypeSpec, bound: nat)
    requires Ends(g, t, bound) && Ends(g, t', bound)
    decreases bound
  {
    match (g[t].kind, g[t'].kind)
    case (KindNull, KindNull) => true
    case (KindScalar, KindScalar) => g[t].scalar == g[t'].scalar
    case (KindStruct, KindStruct) => true
    case (KindSlice, KindSlice) =>
      if g[t].element == null || g[t'].element == null then g[t].element == g[t'].element
      else SameFrame(g, g[t].element, g[t'].element, bound - 1)
    case _ => false
  }

  /** Two structs with the same fields, but for the names of the structs in them. */
  ghost predicate Twins(g: Graph, n: TypeSpec, m: TypeSpec, bound: nat) {
    && n in g && m in g && g[n].kind == g[m].kind == KindStruct
    && Keyed(g, g[n].fields, bound) && Keyed(g, g[m].fields, bound)
    && |g[n].fields| == |g[m].fields|
    && forall i :: 0 <= i < |g[n].fields| ==>
         g[n].fields[i].name == g[m].fields[i].name && SameFrame(g, g[n].fields[i].typ, g[m].fields[i].typ, bound)
  }

  lemma {:induction false} FrameOfType(g0: Graph, g: Graph, t: TypeSpec, g': Graph, t': TypeSpec, bound: nat)
    requires Renamed(g0, g) && Renamed(g0, g') && Ends(g0, t, bound) && Ends(g0, t', bound)
    requires Ends(g, t, bound) && Ends(g', t', bound) && SameType(g, t, g', t', bound)
    ensures SameFrame(g0, t, t', bound)
    decreases bound
  {
    assert g[t] == g0[t].(name := g[t].name) && g'[t'] == g0[t'].(name := g'[t'].name);
    if g[t].kind == KindSlice && g[t].element != null && g'[t'].element != null {
      FrameOfType(g0, g, g[t].element, g', g'[t'].element, bound - 1);
    }
  }

  /** One key under two namings of a graph makes twins. */
  lemma OneKeyTwins(g0: Graph, g: Graph, n: TypeSpec, g': Graph, m: TypeSpec, bound: nat)
    requires Taggable(g0, bound) && Taggable(g, bound) && Taggable(g', bound)
    requires Renamed(g0, g) && Renamed(g0, g') && Plain(g) && Plain(g')
    requires n in g0 && m in g0 && g0[n].kind == g0[m].kind == KindStruct
    requires ShapeKey(g, n, bound) == ShapeKey(g', m, bound)
    ensures Twins(g0, n, m, bound)
  {
    assert g[n] == g0[n].(name := g[n].name) && g'[m] == g0[m].(name := g'[m].name);
    KeysExactly(g, n, g', m, bound);
    StructKeyed(g0, n, bound);
    StructKeyed(g0, m, bound);
    var fields, others := g0[n].fields, g0[m].fields;
    forall i | 0 <= i < |fields|
      ensures fields[i].name == others[i].name && SameFrame(g0, fields[i].typ, others[i].typ, bound)
    {
      assert SameField(g, fields[i], g', others[i], bound);
      assert fields[i] in fields && others[i] in others;
      FrameOfType(g0, g, fields[i].typ, g', others[i].typ, bound);
    }
  }

  /** The struct had the key when its names were these. */
  ghost predicate HadKey(g: Graph, names: map<TypeSpec, string>, n: TypeSpec, key: string, bound: nat)
    requires Taggable(g, bound)
  {
    && n in g && g[n].kind == KindStruct
    && names.Values <= Names(g).Values && key == KeyUnder(g, names, n, bound)
  }

  ghost predicate OnceHad(g: Graph, n: TypeSpec, key: string, bound: nat)
    requires Taggable(g, bound)
  {
    exists names <- Namings(g) :: HadKey(g, names, n, key, bound)
  }

  /** Whatever is stored under a key had it under some naming. */
  ghost predicate Sound(g: Graph, canonical: map<string, TypeSpec>, bound: nat)
    requires Taggable(g, bound)
  {
    forall key <- canonical :: OnceHad(g, canonical[key], key, bound)
  }

  lemma RenamingPlain(g: Graph, names: map<TypeSpec, string>)
    requires Plain(g) && names.Values <= Names(g).Values
    ensures Plain(Renaming(g, names)) && Renamed(g, Renaming(g, names))
  {
    var g' := Renaming(g, names);
    forall n <- g'
      ensures ';' !in g'[n].name && g'[n] == g[n].(name := g'[n].name)
    {
      if n in names {
        assert names[n] in names.Values;
        var m: TypeSpec :| m in Names(g) && Names(g)[m] == names[n];
        assert g[m].name == names[n];
      }
    }
  }

  lemma KeyNow(g: Graph, st: PassState, n: TypeSpec, bound: nat)
    requires Taggable(g, bound) && Possible(g, st, bound) && n in g && g[n].kind == KindStruct
    ensures Names(st.graph) in Namings(g) && HadKey(g, Names(st.graph), n, ShapeKey(st.graph, n, bound), bound)
  {
    RenamedIsRenaming(g, st.graph);
    AllMaps(g.Keys, Names(g).Values, Names(st.graph));
  }

  lemma StoredTwin(g: Graph, st: PassState, n: TypeSpec, bound: nat)
    requires Taggable(g, bound) && Plain(g) && Possible(g, st, bound) && Sound(g, st.canonical, bound)
    requires n in g && g[n].kind == KindStruct
    requires ShapeKey(st.graph, n, bound) in st.canonical
    ensures Twins(g, n, st.canonical[ShapeKey(st.graph, n, bound)], bound)
  {
    var key := ShapeKey(st.graph, n, bound);
    var now := Names(st.graph);
    KeyNow(g, st, n, bound);
    assert OnceHad(g, st.canonical[key], key, bound);
    var names :| names in Namings(g) && HadKey(g, names, st.canonical[key], key, bound);
    RenamingPlain(g, now);
    RenamingPlain(g, names);
    RenamedTaggable(g, Renaming(g, now), bound);
    RenamedTaggable(g, Renaming(g, names), bound);
    OneKeyTwins(g, Renaming(g, now), n, Renaming(g, names), st.canonical[key], bound);
  }

  /** A visit of a pass gives a struct, if it renames it, the name of a struct with the same fields. */
  lemma NamedAsTwin(g: Graph, st: PassState, spec: TypeSpec, bound: nat)
    requires Taggable(g, bound) && Plain(g) && Possible(g, st, bound) && Sound(g, st.canonical, bound) && spec in g
    ensures var r := Deduplicate(st, spec, bound);
            r.graph[spec].name != st.graph[spec].name ==>
              exists twin <- g :: Twins(g, spec, twin, bound) && r.graph[spec].name == st.graph[twin].name
  {
    assert st.graph[spec] == g[spec].(name := st.graph[spec].name);
    if g[spec].kind == KindStruct && ShapeKey(st.graph, spec, bound) in st.canonical {
      StoredTwin(g, st, spec, bound);
    }
  }

  lemma StructNow(g: Graph, st: PassState, n: TypeSpec)
    requires Renamed(g, st.graph) && n in g
    ensures st.graph[n].kind == g[n].kind
  {
    assert st.graph[n] == g[n].(name := st.graph[n].name);
  }

  lemma VisitSound(g: Graph, st: PassState, spec: TypeSpec, bound: nat)
    requires Taggable(g, bound) && Possible(g, st, bound) && Sound(g, st.canonical, bound) && spec in g
    ensures Sound(g, Deduplicate(st, spec, bound).canonical, bound)
  {
    StructNow(g, st, spec);
    if g[spec].kind == KindStruct && ShapeKey(st.graph, spec, bound) !in st.canonical {
      var key := ShapeKey(st.graph, spec, bound);
      KeyNow(g, st, spec, bound);
      assert OnceHad(g, spec, key, bound);
      StoredSound(g, st.canonical, spec, key, bound);
      assert Deduplicate(st, spec, bound).canonical == st.canonical[key := spec];
    }
  }

  lemma StoredSound(g: Graph, canonical: map<string, TypeSpec>, spec: TypeSpec, key: string, bound: nat)
    requires Taggable(g, bound) && Sound(g, canonical, bound) && OnceHad(g, spec, key, bound)
    ensures Sound(g, canonical[key := spec], bound)
  {
  }

  lemma {:induction false} VisitsSound(g: Graph, st: PassState, calls: seq<TypeSpec>, bound: nat)
    requires Taggable(g, bound) && Possible(g, st, bound) && Sound(g, st.canonical, bound) && forall n <- calls :: n in g
    ensures var r := DeduplicateAll(st, calls, bound); Possible(g, r, bound) && Sound(g, r.canonical, bound)
  {
    if calls != [] {
      var k := |calls| - 1;
      VisitsSound(g, st, calls[..k], bound);
      VisitSound(g, DeduplicateAll(st, calls[..k], bound), calls[k], bound);
      VisitPossible(g, DeduplicateAll(st, calls[..k], bound), calls[k], bound);
    }
  }

  lemma PassSound(g: Graph, st: PassState, calls: seq<TypeSpec>, bound: nat)
    requires Taggable(g, bound) && Possible(g, st, bound) && Sound(g, st.canonical, bound)
    requires forall n <- calls :: n in st.graph
    ensures Sound(g, PassOver(st, calls, bound).canonical, bound)
  {
    VisitsSound(g, st.(changed := false), calls, bound);
  }

  lemma {:induction false} StatesSound(states: seq<PassState>, calls: seq<TypeSpec>, bound: nat, k: nat)
    requires Passes(states, calls, bound) && k < |states| && states[0].canonical == map[]
    ensures Taggable(states[0].graph, bound) && Sound(states[0].graph, states[k].canonical, bound)
  {
    assert StateOf(states, 0, calls, bound);
    if k > 0 {
      StatesSound(states, calls, bound, k - 1);
      StatesPossible(states, calls, bound, k - 1);
      assert StateOf(states, k - 1, calls, bound);
      PassSound(states[0].graph, states[k - 1], calls, bound);
    }
  }

  /** The state before visit i of the pass that begins in states[k]. */
  ghost function Before(states: seq<PassState>, calls: seq<TypeSpec>, bound: nat, k: nat, i: nat): (st: PassState)
    requires Passes(states, calls, bound) && k < |states| && i <= |calls|
    ensures ValidState(st, bound) && forall n <- calls :: n in st.graph
  {
    assert StateOf(states, k, calls, bound);
    DeduplicateAll(states[k].(changed := false), calls[..i], bound)
  }

  /** So in no pass, at no visit, is a struct given the name of one that differs from it in a field. */
  lemma OnlyTwinsShareNames(states: seq<PassState>, calls: seq<TypeSpec>, bound: nat, k: nat, i: nat)
    requires Passes(states, calls, bound) && k < |states| && states[0].canonical == map[] && i < |calls|
    requires Plain(states[0].graph)
    ensures var st := Before(states, calls, bound, k, i);
            var r := Deduplicate(st, calls[i], bound);
            r.graph[calls[i]].name != st.graph[calls[i]].name ==>
              exists twin <- states[0].graph ::
                Twins(states[0].graph, calls[i], twin, bound) && twin in st.graph && r.graph[calls[i]].name == st.graph[twin].name
  {
    var g := states[0].graph;
    StatesSound(states, calls, bound, k);
    StatesPossible(states, calls, bound, k);
    assert StateOf(states, k, calls, bound) && calls[i] in calls;
    VisitsSound(g, states[k].(changed := false), calls[..i], bound);
    NamedAsTwin(g, Before(states, calls, bound, k, i), calls[i], bound);
  }

  lemma {:induction false} SameTypeSameTag(g: Graph, fields: seq<FieldSpec>, others: seq<FieldSpec>, bound: nat)
    requires Keyed(g, fields, bound) && Keyed(g, others, bound) && SameLayout(g, fields, g, others, bound)
    ensures FieldsKey(g, fields, bound) == FieldsKey(g, others, bound)
  {
    if fields != [] {
      var k := |fields| - 1;
      assert SameField(g, fields[k], g, others[k], bound);
      TagsExactly(g, fields[k].typ, g, others[k].typ, bound);
      forall i | 0 <= i < k
        ensures SameField(g, fields[..k][i], g, others[..k][i], bound)
      {
        assert SameField(g, fields[i], g, others[i], bound);
      }
      SameTypeSameTag(g, fields[..k], others[..k], bound);
    }
  }

  /** Two structs with the same fields, names of structs included. */
  ghost predicate Alike(g: Graph, n: TypeSpec, m: TypeSpec, bound: nat) {
    && n in g && m in g && g[n].kind == g[m].kind == KindStruct
    && Keyed(g, g[n].fields, bound) && Keyed(g, g[m].fields, bound) && SameLayout(g, g[n].fields, g, g[m].fields, bound)
  }

  lemma AlikeKeys(g: Graph, n: TypeSpec, m: TypeSpec, bound: nat)
    requires Taggable(g, bound) && Alike(g, n, m, bound)
    ensures ShapeKey(g, n, bound) == ShapeKey(g, m, bound)
  {
    SameTypeSameTag(g, g[n].fields, g[m].fields, bound);
  }

  /** Once the passes have ended, visited structs that are alike bear one name, whatever names are made of. */
  lemma AlikeShareName(states: seq<PassState>, calls: seq<TypeSpec>, bound: nat, n: TypeSpec, m: TypeSpec)
    requires Passes(states, calls, bound) && Ended(states) && n in calls && m in calls
    requires Alike(Last(states).graph, n, m, bound)
    ensures Last(states).graph[n].name == Last(states).graph[m].name
  {
    DeduplicatedExact(states, calls, bound);
    AlikeKeys(Last(states).graph, n, m, bound);
  }
}
