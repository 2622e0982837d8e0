/** Inference from documents: the inferred type is the least one that admits the document,
    and the union of all themes the least one that admits every theme. */
module Infer {
  import opened Wrappers
  import opened Shapes
  import Merge

  datatype InferError =
    | Unsupported
    | NonStringKey
    | AtField(name: string, cause: InferError)
    | AtElement(index: nat, cause: InferError)
    | Heterogeneous(merge: Merge.MergeError)

  function ScalarName(kind: ScalarKind): string {
    match kind
    case StringNode => "string"
    case IntegerNode => "int"
    case FloatNode => "float64"
    case BoolNode => "bool"
  }

  function InferNode(d: Doc): Result<Shape, InferError>
    decreases d
  {
    match d
    case NullDoc => Success(Null)
    case ScalarDoc(kind) => Success(Scalar(ScalarName(kind)))
    case SequenceDoc(items) =>
      if items == [] then Success(Slice(None)) else
        var elements :- InferItems(items);
        (match Merge.MergeShapes(elements)
         case Failure(e) => Failure(Heterogeneous(e))
         case Success(merged) => Success(Slice(Some(merged))))
    case MappingDoc(entries) =>
      var fields :- InferEntries(entries);
      Success(Struct(fields))
    case UnsupportedDoc => Failure(Unsupported)
  }

  function InferItems(items: seq<Doc>): (r: Result<seq<Shape>, InferError>)
    ensures r.Success? ==> |r.value| == |items|
    decreases items
  {
    if items == [] then Success([]) else
      var k := |items| - 1;
      var init :- InferItems(items[..k]);
      match InferNode(items[k])
      case Failure(cause) => Failure(AtElement(k, cause))
      case Success(shape) => Success(init + [shape])
  }

  function InferEntries(entries: seq<Entry>): (r: Result<seq<Field>, InferError>)
    ensures r.Success? ==> |r.value| == |entries|
    decreases entries
  {
    if entries == [] then Success([]) else
      var k := |entries| - 1;
      var init :- InferEntries(entries[..k]);
      var field :- InferEntry(entries[k]);
      Success(init + [field])
  }

  function InferEntry(e: Entry): Result<Field, InferError>
    decreases e
  {
    if !e.key.StringKey? then Failure(NonStringKey) else
      match InferNode(e.value)
      case Failure(cause) => Failure(AtField(e.key.name, cause))
      case Success(shape) => Success(Field(e.key.name, shape))
  }

  // ---------- principal types ----------

  /** Among types with distinct field names, those that admit d are exactly those above the
      inferred type; if inference fails there are none. */
  lemma {:induction false} InferPrincipal(d: Doc, u: Shape)
    requires UniqueNames(u)
    ensures Fits(d, u) <==> InferNode(d).Success? && Leq(InferNode(d).value, u)
    decreases d
  {
    match d
    case NullDoc =>
    case ScalarDoc(_) =>
    case SequenceDoc(items) =>
      if u.Slice? && u.element.Some? && items != [] {
        ItemsPrincipal(items, u.element.value);
        if InferItems(items).Success? {
          Merge.MergeBounds(InferItems(items).value, u.element.value);
        }
      }
    case MappingDoc(entries) =>
      if u.Struct? {
        EntriesPrincipal(entries, u.fields);
      }
    case UnsupportedDoc =>
  }

  lemma {:induction false} ItemsPrincipal(items: seq<Doc>, u: Shape)
    requires UniqueNames(u)
    ensures (forall i <- items :: Fits(i, u)) <==>
            InferItems(items).Success? && AllBelow(InferItems(items).value, u)
    decreases items
  {
    if items != [] {
      var k := |items| - 1;
      assert items == items[..k] + [items[k]];
      ItemsPrincipal(items[..k], u);
      InferPrincipal(items[k], u);
      if InferItems(items[..k]).Success? && InferNode(items[k]).Success? {
        assert InferItems(items).value == InferItems(items[..k]).value + [InferNode(items[k]).value];
      }
    }
  }

  lemma {:induction false} EntriesPrincipal(entries: seq<Entry>, us: seq<Field>)
    requires UniqueFields(us)
    ensures (forall e <- entries :: EntryFits(e, us)) <==>
            InferEntries(entries).Success? && Merge.AllCovered(InferEntries(entries).value, us)
    decreases entries
  {
    if entries != [] {
      var k := |entries| - 1;
      var e := entries[k];
      assert entries == entries[..k] + [e];
      EntriesPrincipal(entries[..k], us);
      EntryPrincipal(e, us);
      if InferEntries(entries[..k]).Success? && InferEntry(e).Success? {
        assert InferEntries(entries).value == InferEntries(entries[..k]).value + [InferEntry(e).value];
      }
    }
  }

  lemma {:induction false} EntryPrincipal(e: Entry, us: seq<Field>)
    requires UniqueFields(us)
    ensures EntryFits(e, us) <==> InferEntry(e).Success? && Covered(InferEntry(e).value, us)
    decreases e
  {
    if e.key.StringKey? {
      forall g <- us
        ensures Fits(e.value, g.shape) <==>
                InferNode(e.value).Success? && Leq(InferNode(e.value).value, g.shape)
      {
        InferPrincipal(e.value, g.shape);
      }
    }
  }

  // ---------- soundness, with no condition on the document ----------

  lemma {:induction false} InferSound(d: Doc)
    requires InferNode(d).Success?
    ensures Fits(d, InferNode(d).value)
    decreases d
  {
    match d
    case NullDoc =>
    case ScalarDoc(_) =>
    case SequenceDoc(items) =>
      if items != [] {
        var elements := InferItems(items).value;
        Merge.MergeIsLeastUpperBound(elements);
        ItemsSound(items, Merge.MergeShapes(elements).value);
      }
    case MappingDoc(entries) => EntriesSound(entries);
  }

  lemma {:induction false} ItemsSound(items: seq<Doc>, above: Shape)
    requires InferItems(items).Success? && AllBelow(InferItems(items).value, above)
    ensures forall i <- items :: Fits(i, above)
    decreases items
  {
    if items != [] {
      var k := |items| - 1;
      assert items == items[..k] + [items[k]];
      var shape := InferNode(items[k]).value;
      assert InferItems(items).value == InferItems(items[..k]).value + [shape];
      ItemsSound(items[..k], above);
      InferSound(items[k]);
      FitsMonotone(items[k], shape, above);
    }
  }

  lemma {:induction false} EntriesSound(entries: seq<Entry>)
    requires InferEntries(entries).Success?
    ensures forall e <- entries :: EntryFits(e, InferEntries(entries).value)
    decreases entries
  {
    if entries != [] {
      var k := |entries| - 1;
      var e := entries[k];
      assert entries == entries[..k] + [e];
      var init := InferEntries(entries[..k]).value;
      var f := InferEntry(e).value;
      EntriesSound(entries[..k]);
      EntrySound(e);
      assert f in init + [f];
      forall x <- entries
        ensures EntryFits(x, init + [f])
      {
        if x in entries[..k] {
          assert EntryFits(x, init);
        }
      }
    }
  }

  lemma {:induction false} EntrySound(e: Entry)
    requires InferEntry(e).Success?
    ensures EntryFits(e, [InferEntry(e).value])
    decreases e
  {
    InferSound(e.value);
    assert InferEntry(e).value in [InferEntry(e).value];
  }

  // ---------- documents without repeated keys ----------

  ghost predicate DistinctKeys(d: Doc)
    decreases d
  {
    match d
    case SequenceDoc(items) => forall i <- items :: DistinctKeys(i)
    case MappingDoc(entries) =>
      && (forall i, j :: 0 <= i < j < |entries| ==> entries[i].key != entries[j].key)
      && forall e <- entries :: DistinctKeys(e.value)
    case _ => true
  }

  lemma {:induction false} InferUnique(d: Doc)
    requires DistinctKeys(d) && InferNode(d).Success?
    ensures UniqueNames(InferNode(d).value)
    decreases d
  {
    match d
    case SequenceDoc(items) =>
      if items != [] {
        Merge.MergeUnique(InferItems(items).value);
      }
    case MappingDoc(entries) =>
      EntriesUnique(entries);
    case _ =>
  }

  /** The inferred fields stand for the entries, in order, and have distinct field names below. */
  ghost predicate Stands(entries: seq<Entry>, fields: seq<Field>) {
    && |fields| == |entries|
    && (forall f <- fields :: UniqueNames(f.shape))
    && (forall i :: 0 <= i < |entries| ==> entries[i].key == StringKey(fields[i].name))
  }

  lemma StandsNext(entries: seq<Entry>, fields: seq<Field>, e: Entry, f: Field)
    requires Stands(entries, fields) && e.key == StringKey(f.name) && UniqueNames(f.shape)
    ensures Stands(entries + [e], fields + [f])
  {
  }

  lemma {:induction false} EntriesUnique(entries: seq<Entry>)
    requires InferEntries(entries).Success?
    requires forall e <- entries :: DistinctKeys(e.value)
    ensures Stands(entries, InferEntries(entries).value)
    decreases entries
  {
    if entries != [] {
      var k := |entries| - 1;
      assert entries == entries[..k] + [entries[k]];
      EntriesUnique(entries[..k]);
      EntryUnique(entries[k]);
      StandsNext(entries[..k], InferEntries(entries[..k]).value, entries[k], InferEntry(entries[k]).value);
    }
  }

  lemma {:induction false} EntryUnique(e: Entry)
    requires DistinctKeys(e.value) && InferEntry(e).Success?
    ensures UniqueNames(InferEntry(e).value.shape)
    decreases e
  {
    InferUnique(e.value);
  }

  /** Principal types: inference succeeds exactly on the documents some type with distinct
      field names admits, and then returns the least such type. */
  lemma PrincipalType(d: Doc)
    requires DistinctKeys(d)
    ensures var r := InferNode(d);
            if r.Success? then
              && UniqueNames(r.value)
              && Fits(d, r.value)
              && (forall u :: UniqueNames(u) && Fits(d, u) ==> Leq(r.value, u))
            else
              forall u :: UniqueNames(u) ==> !Fits(d, u)
  {
    if InferNode(d).Success? {
      InferUnique(d);
      InferSound(d);
    }
    forall u | UniqueNames(u)
      ensures Fits(d, u) <==> InferNode(d).Success? && Leq(InferNode(d).value, u)
    {
      InferPrincipal(d, u);
    }
  }

  // ---------- the union over all themes ----------

  /** A theme's config.yml: None stands for an empty file or one without a document. */
  type Theme = Option<Doc>

  function InferTheme(theme: Theme): Result<Shape, InferError> {
    match theme
    case None => Success(Struct([]))
    case Some(d) => InferNode(d)
  }

  ghost predicate ThemeFits(theme: Theme, u: Shape) {
    match theme
    case None => u.Struct?
    case Some(d) => Fits(d, u)
  }

  ghost predicate AllFit(themes: seq<Theme>, u: Shape) {
    forall t <- themes :: ThemeFits(t, u)
  }

  function InferThemes(themes: seq<Theme>): (r: Result<seq<Shape>, InferError>)
    ensures r.Success? ==> |r.value| == |themes|
  {
    if themes == [] then Success([]) else
      var k := |themes| - 1;
      var init :- InferThemes(themes[..k]);
      var shape :- InferTheme(themes[k]);
      Success(init + [shape])
  }

  /** None when there is no theme with a configuration at all. */
  function UnionThemes(themes: seq<Theme>): Result<Option<Shape>, InferError> {
    var shapes :- InferThemes(themes);
    if shapes == [] then Success(None) else
      match Merge.MergeShapes(shapes)
      case Failure(e) => Failure(Heterogeneous(e))
      case Success(merged) => Success(Some(merged))
  }

  lemma ThemePrincipal(theme: Theme, u: Shape)
    requires UniqueNames(u)
    ensures ThemeFits(theme, u) <==> InferTheme(theme).Success? && Leq(InferTheme(theme).value, u)
  {
    if theme.Some? {
      InferPrincipal(theme.value, u);
    }
  }

  lemma {:induction false} ThemesPrincipal(themes: seq<Theme>, u: Shape)
    requires UniqueNames(u)
    ensures AllFit(themes, u) <==>
            InferThemes(themes).Success? && AllBelow(InferThemes(themes).value, u)
  {
    if themes != [] {
      var k := |themes| - 1;
      assert themes == themes[..k] + [themes[k]];
      ThemesPrincipal(themes[..k], u);
      ThemePrincipal(themes[k], u);
      if InferThemes(themes[..k]).Success? && InferTheme(themes[k]).Success? {
        assert InferThemes(themes).value == InferThemes(themes[..k]).value + [InferTheme(themes[k]).value];
      }
    }
  }

  /** The union type admits every theme's own document and is the least type that does;
      it does not exist only when no type admits them all. */
  lemma UnionIsLeast(themes: seq<Theme>)
    requires themes != []
    ensures var r := UnionThemes(themes);
            if r.Success? then
              && r.value.Some?
              && AllFit(themes, r.value.value)
              && (forall u :: UniqueNames(u) && AllFit(themes, u) ==>
                    Leq(r.value.value, u))
            else
              forall u :: UniqueNames(u) ==> !AllFit(themes, u)
  {
    forall u | UniqueNames(u)
      ensures AllFit(themes, u) <==>
              InferThemes(themes).Success? && AllBelow(InferThemes(themes).value, u)
    {
      ThemesPrincipal(themes, u);
    }
    if InferThemes(themes).Success? {
      Merge.MergeIsLeastUpperBound(InferThemes(themes).value);
    }
  }
}
