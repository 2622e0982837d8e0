/** When the generated file reads all that the type graph admits: the two are followed side by side,
    nodes by their own fields and written types by the names in the file. */
module Clashes {
  import opened Sets
  import opened Wrappers
  import opened TypeGraph
  import opened Naming
  import opened Reading
  import Shapes

  /** The type declared under this name has such a field. */
  ghost predicate HasField(file: seq<Decl>, name: string, field: string, w: Written) {
    exists decl <- file :: decl.name == name && Line(field, w) in decl.fields
  }

  /** Following n and w, within so many steps something is met that the node admits and the written
      type does not read: a scalar, a list or a struct of which w is none, or a field w lacks. */
  ghost predicate Clash(g: Graph, file: seq<Decl>, n: TypeSpec, w: Written, steps: nat)
    decreases steps, 0
  {
    && steps > 0 && n in g && !IsAny(file, w)
    && match g[n].kind
       case KindScalar => exists kind :: Shapes.ScalarFits(kind, g[n].scalar) && !Reads(file, w, Shapes.ScalarDoc(kind))
       case KindSlice =>
         w.depth == 0 ||
         (g[n].element != null && Clash(g, file, g[n].element, Written(w.depth - 1, w.base), steps - 1))
       case KindStruct =>
         w.depth > 0 || !Declares(file, w.base) || exists f <- g[n].fields :: FieldClash(g, file, f, w.base, steps - 1)
       case KindNull => false
  }

  /** The type declared under that name has no field called as f, or one that clashes with it. */
  ghost predicate FieldClash(g: Graph, file: seq<Decl>, f: FieldSpec, name: string, steps: nat)
    decreases steps, 1
  {
    forall w | HasField(file, name, f.name, w) :: Clash(g, file, f.typ, w, steps)
  }

  /** Names are declared once, and the fields of a type have distinct names. */
  ghost predicate WellFormed(file: seq<Decl>) {
    forall name, field, w, w' | HasField(file, name, field, w) && HasField(file, name, field, w') :: w == w'
  }

  // ---------- what a clash means ----------

  lemma EntryByField(file: seq<Decl>, name: string, e: Shapes.Entry, w: Written)
    requires e.key.StringKey? && HasField(file, name, e.key.name, w) && Reads(file, w, e.value)
    ensures ReadsEntry(file, name, e)
  {
    var decl :| decl in file && decl.name == name && Line(e.key.name, w) in decl.fields;
    assert ReadsField(decl.fields, file, e);
  }

  lemma FieldOfEntry(file: seq<Decl>, name: string, e: Shapes.Entry) returns (w: Written)
    requires ReadsEntry(file, name, e)
    ensures HasField(file, name, e.key.name, w) && Reads(file, w, e.value)
  {
    var decl :| decl in file && decl.name == name && ReadsField(decl.fields, file, e);
    var l :| l in decl.fields && l.name == e.key.name && Reads(file, l.typ, e.value);
    w := l.typ;
    assert l == Line(e.key.name, w);
  }

  /** Without a clash at any depth every document the node admits is read. */
  lemma {:induction false} NoClashReads(g: Graph, file: seq<Decl>, n: TypeSpec, w: Written, d: Shapes.Doc)
    requires Closed(g) && n in g && WellFormed(file) && Admits(g, n, d)
    requires forall steps: nat :: !Clash(g, file, n, w, steps)
    ensures Reads(file, w, d)
    decreases d
  {
    assert !Clash(g, file, n, w, 1);
    if !IsAny(file, w) {
      match d
      case SequenceDoc(items) =>
        var w' := Written(w.depth - 1, w.base);
        forall i <- items
          ensures Reads(file, w', i)
        {
          forall steps: nat
            ensures !Clash(g, file, g[n].element, w', steps)
          {
            assert !Clash(g, file, n, w, steps + 1);
          }
          assert g[n].element in Children(g[n]);
          NoClashReads(g, file, g[n].element, w', i);
        }
      case MappingDoc(entries) =>
        forall e <- entries
          ensures ReadsEntry(file, w.base, e)
        {
          assert AdmitsEntry(g, g[n].fields, e);
          forall f <- g[n].fields, steps: nat
            ensures !FieldClash(g, file, f, w.base, steps)
          {
            assert !Clash(g, file, n, w, steps + 1);
          }
          NoClashReadsEntry(g, file, g[n].fields, w.base, e);
        }
      case _ =>
    }
  }

  lemma {:induction false} NoClashReadsEntry(g: Graph, file: seq<Decl>, fields: seq<FieldSpec>, name: string, e: Shapes.Entry)
    requires Closed(g) && WellFormed(file) && AdmitsEntry(g, fields, e)
    requires forall f <- fields, steps: nat :: !FieldClash(g, file, f, name, steps)
    ensures ReadsEntry(file, name, e)
    decreases e
  {
    var f :| f in fields && f.name == e.key.name && f.typ in g && Admits(g, f.typ, e.value);
    assert !FieldClash(g, file, f, name, 0);
    var w :| HasField(file, name, f.name, w);
    forall steps: nat
      ensures !Clash(g, file, f.typ, w, steps)
    {
      assert !FieldClash(g, file, f, name, steps);
      var w' :| HasField(file, name, f.name, w') && !Clash(g, file, f.typ, w', steps);
      assert w' == w;
    }
    NoClashReads(g, file, f.typ, w, e.value);
    EntryByField(file, name, e, w);
  }

  /** A clash is met by a document the node admits. */
  lemma {:induction false} ClashDocument(g: Graph, file: seq<Decl>, n: TypeSpec, w: Written, steps: nat) returns (d: Shapes.Doc)
    requires Closed(g) && n in g && WellFormed(file) && Clash(g, file, n, w, steps)
    ensures Admits(g, n, d) && !Reads(file, w, d)
    decreases steps
  {
    match g[n].kind
    case KindScalar =>
      var kind :| Shapes.ScalarFits(kind, g[n].scalar) && !Reads(file, w, Shapes.ScalarDoc(kind));
      d := Shapes.ScalarDoc(kind);
    case KindSlice =>
      d := Shapes.SequenceDoc([]);
      if w.depth > 0 {
        assert g[n].element in Children(g[n]);
        var item := ClashDocument(g, file, g[n].element, Written(w.depth - 1, w.base), steps - 1);
        d := Shapes.SequenceDoc([item]);
        assert item in [item];
      }
    case KindStruct =>
      d := Shapes.MappingDoc([]);
      if w.depth == 0 && Declares(file, w.base) {
        FieldTypesInside(g, n);
        var f :| f in g[n].fields && FieldClash(g, file, f, w.base, steps - 1);
        var value := Shapes.NullDoc;
        if w' :| HasField(file, w.base, f.name, w') {
          value := ClashDocument(g, file, f.typ, w', steps - 1);
        }
        d := ClashEntry(g, file, n, w, f, value);
      }
  }

  lemma ClashEntry(g: Graph, file: seq<Decl>, n: TypeSpec, w: Written, f: FieldSpec, value: Shapes.Doc) returns (d: Shapes.Doc)
    requires Closed(g) && n in g && g[n].kind == KindStruct && f in g[n].fields && f.typ in g && Admits(g, f.typ, value)
    requires !IsAny(file, w) && forall w' | HasField(file, w.base, f.name, w') :: !Reads(file, w', value)
    ensures Admits(g, n, d) && !Reads(file, w, d)
  {
    var e := Shapes.Entry(Shapes.StringKey(f.name), value);
    d := Shapes.MappingDoc([e]);
    assert AdmitsEntry(g, g[n].fields, e) && e in [e];
    if ReadsEntry(file, w.base, e) {
      var w' := FieldOfEntry(file, w.base, e);
    }
  }

  // ---------- how far to look ----------

  /** The types written in the file, and w, and their element types. */
  ghost function WrittenTypes(file: seq<Decl>, w: Written): set<Written> {
    set t <- Listed(file, w), depth: nat | depth <= t.depth :: Written(depth, t.base)
  }

  ghost function Listed(file: seq<Decl>, w: Written): set<Written> {
    {w} + set decl <- file, l <- decl.fields :: l.typ
  }

  /** Nothing outside is met on the way. */
  ghost predicate HasTypes(file: seq<Decl>, types: set<Written>) {
    && (forall w <- types | w.depth > 0 :: Written(w.depth - 1, w.base) in types)
    && (forall name, field, w | HasField(file, name, field, w) :: w in types)
  }

  lemma WrittenTypesClosed(file: seq<Decl>, w: Written)
    ensures w in WrittenTypes(file, w) && HasTypes(file, WrittenTypes(file, w))
  {
    var types := WrittenTypes(file, w);
    assert forall t <- Listed(file, w) :: t == Written(t.depth, t.base) && t in types;
    forall name, field, t | HasField(file, name, field, t)
      ensures t in types
    {
      assert t in Listed(file, w);
    }
  }

  lemma {:induction false} ClashStays(g: Graph, file: seq<Decl>, n: TypeSpec, w: Written, steps: nat)
    requires Clash(g, file, n, w, steps)
    ensures Clash(g, file, n, w, steps + 1)
    decreases steps
  {
    match g[n].kind
    case KindSlice =>
      if w.depth > 0 {
        ClashStays(g, file, g[n].element, Written(w.depth - 1, w.base), steps - 1);
      }
    case KindStruct =>
      if w.depth == 0 && Declares(file, w.base) {
        var f :| f in g[n].fields && FieldClash(g, file, f, w.base, steps - 1);
        forall w' | HasField(file, w.base, f.name, w')
          ensures Clash(g, file, f.typ, w', steps)
        {
          ClashStays(g, file, f.typ, w', steps - 1);
        }
        assert FieldClash(g, file, f, w.base, steps);
      }
    case _ =>
  }

  ghost function Clashing(g: Graph, file: seq<Decl>, types: set<Written>, steps: nat): set<(TypeSpec, Written)> {
    set n <- g.Keys, w <- types | Clash(g, file, n, w, steps) :: (n, w)
  }

  lemma ClashEarlier(g: Graph, file: seq<Decl>, types: set<Written>, n: TypeSpec, w: Written, k: nat)
    requires HasTypes(file, types) && Clashing(g, file, types, k) == Clashing(g, file, types, k + 1)
    requires w in types && Clash(g, file, n, w, k + 2)
    ensures Clash(g, file, n, w, k + 1)
  {
    match g[n].kind
    case KindSlice =>
      if w.depth > 0 {
        assert (g[n].element, Written(w.depth - 1, w.base)) in Clashing(g, file, types, k + 1);
      }
    case KindStruct =>
      if w.depth == 0 && Declares(file, w.base) {
        var f :| f in g[n].fields && FieldClash(g, file, f, w.base, k + 1);
        forall w' | HasField(file, w.base, f.name, w')
          ensures Clash(g, file, f.typ, w', k)
        {
          assert Clash(g, file, f.typ, w', k + 1) && w' in types;
          assert (f.typ, w') in Clashing(g, file, types, k + 1);
        }
        assert FieldClash(g, file, f, w.base, k);
      }
    case _ =>
  }

  lemma ClashingGrows(g: Graph, file: seq<Decl>, types: set<Written>, k: nat)
    requires HasTypes(file, types)
    ensures Clashing(g, file, types, k) <= Clashing(g, file, types, k + 1) <= Pairs(g.Keys, types)
    ensures Clashing(g, file, types, k) == Clashing(g, file, types, k + 1) ==>
              Clashing(g, file, types, k + 2) <= Clashing(g, file, types, k + 1)
  {
    forall n <- g.Keys, w <- types | Clash(g, file, n, w, k)
      ensures Clash(g, file, n, w, k + 1)
    {
      ClashStays(g, file, n, w, k);
    }
    if Clashing(g, file, types, k) == Clashing(g, file, types, k + 1) {
      forall n <- g.Keys, w <- types | Clash(g, file, n, w, k + 2)
        ensures Clash(g, file, n, w, k + 1)
      {
        ClashEarlier(g, file, types, n, w, k);
      }
    }
  }

  /** A clash is met within as many steps as there are pairs of a node and a written type. */
  ghost predicate Clashes(g: Graph, file: seq<Decl>, n: TypeSpec, w: Written) {
    Clash(g, file, n, w, |g.Keys| * |WrittenTypes(file, w)|)
  }

  lemma ClashWithin(g: Graph, file: seq<Decl>, n: TypeSpec, w: Written, steps: nat)
    requires Clash(g, file, n, w, steps)
    ensures Clashes(g, file, n, w)
  {
    var types := WrittenTypes(file, w);
    var s := (k: nat) => Clashing(g, file, types, k);
    var all := Pairs(g.Keys, types);
    WrittenTypesClosed(file, w);
    forall k: nat
      ensures GrowsAt(s, all, k)
    {
      ClashingGrows(g, file, types, k);
      ClashingGrows(g, file, types, k + 1);
    }
    Settled(s, all, steps);
    PairsSize(g.Keys, types);
    assert (n, w) in s(steps);
    assert (n, w) in s(|all|);
  }

  // ---------- the file of a graph ----------

  lemma LinesDistinct(g: Graph, n: TypeSpec, bound: nat, i: nat, j: nat)
    requires Taggable(g, bound) && AllDistinct(g) && n in g && g[n].kind == KindStruct
    requires var lines := DeclOf(g, n, bound).fields; i < |lines| && j < |lines| && lines[i].name == lines[j].name
    ensures i == j
  {
  }

  lemma SameDecl(file: seq<Decl>, name: string, field: string, w: Written, w': Written) returns (decl: Decl)
    requires Unambiguous(file) && HasField(file, name, field, w) && HasField(file, name, field, w')
    ensures decl in file && Line(field, w) in decl.fields && Line(field, w') in decl.fields
  {
    var decl' :| decl' in file && decl'.name == name && Line(field, w') in decl'.fields;
    decl :| decl in file && decl.name == name && Line(field, w) in decl.fields;
    assert decl == decl';
  }

  lemma FileWellFormed(g: Graph, root: TypeSpec, bound: nat)
    requires Taggable(g, bound) && AllDistinct(g) && root in g
    ensures WellFormed(File(g, root, bound))
  {
    var file := File(g, root, bound);
    FileExactly(g, root, bound);
    forall name, field, w, w' | HasField(file, name, field, w) && HasField(file, name, field, w')
      ensures w == w'
    {
      var decl := SameDecl(file, name, field, w, w');
      var n :| n in Walk(g, root, {}) && IsDeclOf(g, n, bound, decl);
      var i :| 0 <= i < |decl.fields| && decl.fields[i] == Line(field, w);
      var j :| 0 <= j < |decl.fields| && decl.fields[j] == Line(field, w');
      LinesDistinct(g, n, bound, i, j);
    }
  }

  /** Exactly when the file reads every document a node admits. */
  lemma ReadsAllExactly(g: Graph, root: TypeSpec, bound: nat, n: TypeSpec)
    requires Taggable(g, bound) && AllDistinct(g) && root in g && n in g
    ensures var file, w := File(g, root, bound), Spelled(g, n, bound);
            (forall d | Admits(g, n, d) :: Reads(file, w, d)) <==> !Clashes(g, file, n, w)
  {
    var file, w := File(g, root, bound), Spelled(g, n, bound);
    FileWellFormed(g, root, bound);
    if Clashes(g, file, n, w) {
      var d := ClashDocument(g, file, n, w, |g.Keys| * |WrittenTypes(file, w)|);
    } else {
      forall d | Admits(g, n, d)
        ensures Reads(file, w, d)
      {
        ReadsWithoutClash(g, root, bound, n, d);
      }
    }
  }

  lemma ReadsWithoutClash(g: Graph, root: TypeSpec, bound: nat, n: TypeSpec, d: Shapes.Doc)
    requires Taggable(g, bound) && AllDistinct(g) && root in g && n in g && Admits(g, n, d)
    requires !Clashes(g, File(g, root, bound), n, Spelled(g, n, bound))
    ensures Reads(File(g, root, bound), Spelled(g, n, bound), d)
  {
    var file, w := File(g, root, bound), Spelled(g, n, bound);
    FileWellFormed(g, root, bound);
    forall steps: nat
      ensures !Clash(g, file, n, w, steps)
    {
      if Clash(g, file, n, w, steps) {
        ClashWithin(g, file, n, w, steps);
      }
    }
    NoClashReads(g, file, n, w, d);
  }

  /** Where names agree nothing clashes. */
  lemma AgreeingNames(g: Graph, root: TypeSpec, bound: nat, n: TypeSpec)
    requires Taggable(g, bound) && AllDistinct(g) && root in g && NamesAgree(g, root, bound)
    requires n in g && n in Walk(g, root, {})
    ensures !Clashes(g, File(g, root, bound), n, Spelled(g, n, bound))
  {
    forall d | Admits(g, n, d)
      ensures Reads(File(g, root, bound), Spelled(g, n, bound), d)
    {
      AdmitsReads(g, n, d);
      AgreedReads(g, root, bound, n, d);
    }
    ReadsAllExactly(g, root, bound, n);
  }
}
