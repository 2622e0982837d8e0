/** What a failed merge or inference reports is what is wrong with its input
    (cmd/themegen/config_infer.go). */
module MergeErrors {
  import opened Wrappers
  import opened Shapes
  import opened Merge
  import Infer

  /** Two types of different kinds, neither null. */
  ghost predicate HasMixedKinds(shapes: seq<Shape>) {
    exists a <- shapes, b <- shapes :: !a.Null? && !b.Null? && !SameKind(a, b)
  }

  /** First the one scalar, and after it the other. */
  ghost predicate HasMixedScalars(shapes: seq<Shape>, base: string, other: string) {
    base != other && exists i, j :: 0 <= i < j < |shapes| && shapes[i] == Scalar(base) && shapes[j] == Scalar(other)
  }

  /** The error is found in the types, in their elements, or in the fields it names, at most so deep. */
  ghost predicate Explains(e: MergeError, shapes: seq<Shape>, depth: nat)
    decreases depth, 0
  {
    || (match e
        case MixedKinds => HasMixedKinds(shapes)
        case MixedScalars(base, other) => HasMixedScalars(shapes, base, other)
        case InField(name, cause) => depth > 0 && InFields(name, cause, shapes, depth - 1))
    || (depth > 0 && InElements(e, shapes, depth - 1))
  }

  ghost predicate InElements(e: MergeError, shapes: seq<Shape>, depth: nat)
    decreases depth, 1
  {
    exists parts: seq<Shape> :: AreElements(parts, shapes) && Explains(e, parts, depth)
  }

  ghost predicate InFields(name: string, cause: MergeError, shapes: seq<Shape>, depth: nat)
    decreases depth, 1
  {
    exists parts: seq<Shape> :: AreFields(parts, name, shapes) && Explains(cause, parts, depth)
  }

  ghost predicate AreElements(parts: seq<Shape>, shapes: seq<Shape>) {
    forall p <- parts :: Slice(Some(p)) in shapes
  }

  ghost predicate AreFields(parts: seq<Shape>, name: string, shapes: seq<Shape>) {
    forall p <- parts :: exists s <- shapes :: s.Struct? && Field(name, p) in s.fields
  }

  lemma {:induction false} FilterOrder(shapes: seq<Shape>, i: nat, j: nat) returns (i': nat, j': nat)
    requires i < j < |FilterNonNull(shapes)|
    ensures i' < j' < |shapes| && shapes[i'] == FilterNonNull(shapes)[i] && shapes[j'] == FilterNonNull(shapes)[j]
  {
    var k := |shapes| - 1;
    var init := FilterNonNull(shapes[..k]);
    if j < |init| {
      i', j' := FilterOrder(shapes[..k], i, j);
    } else {
      FilterMembers(shapes[..k]);
      assert init[i] in init;
      i' :| 0 <= i' < k && shapes[..k][i'] == init[i];
      j' := k;
    }
  }

  lemma {:induction false} MismatchAt(scalars: seq<Shape>, base: string) returns (i: nat)
    requires (forall s <- scalars :: s.Scalar?) && FirstMismatch(scalars, base).Some?
    ensures i < |scalars| && scalars[i] == Scalar(FirstMismatch(scalars, base).value) && scalars[i].scalar != base
  {
    assert scalars[0] in scalars;
    if scalars[0].scalar != base {
      i := 0;
    } else {
      assert forall s <- scalars[1..] :: s in scalars;
      i := MismatchAt(scalars[1..], base);
      i := i + 1;
    }
  }

  /** A failed merge reports a clash that is there, under the names of the fields it lies in. */
  lemma {:induction false} MergeFailureExplained(shapes: seq<Shape>, depth: nat)
    requires MergeShapes(shapes).Failure? && MaxDepth(shapes) <= depth
    ensures Explains(MergeShapes(shapes).error, shapes, depth)
    decreases MaxDepth(shapes), 3
  {
    var nonNull := FilterNonNull(shapes);
    FilterDepth(shapes);
    FilterMembers(shapes);
    if s :| s in nonNull && !SameKind(s, nonNull[0]) {
      assert nonNull[0] in nonNull;
      assert HasMixedKinds(shapes);
    } else {
      KindFailureExplained(nonNull, depth);
      FilteredExplains(MergeShapes(shapes).error, shapes, depth);
    }
  }

  lemma FilteredExplains(e: MergeError, shapes: seq<Shape>, depth: nat)
    requires Explains(e, FilterNonNull(shapes), depth)
    ensures Explains(e, shapes, depth)
  {
    var nonNull := FilterNonNull(shapes);
    FilterMembers(shapes);
    if depth > 0 && InElements(e, nonNull, depth - 1) {
      var parts: seq<Shape> :| AreElements(parts, nonNull) && Explains(e, parts, depth - 1);
      assert AreElements(parts, shapes);
    } else if e.MixedScalars? {
      var i, j :| 0 <= i < j < |nonNull| && nonNull[i] == Scalar(e.base) && nonNull[j] == Scalar(e.other);
      var i', j' := FilterOrder(shapes, i, j);
      assert HasMixedScalars(shapes, e.base, e.other);
    } else if e.InField? {
      var parts: seq<Shape> :| AreFields(parts, e.name, nonNull) && Explains(e.cause, parts, depth - 1);
      assert AreFields(parts, e.name, shapes);
    }
  }

  lemma {:induction false} KindFailureExplained(shapes: seq<Shape>, depth: nat)
    requires OneKind(shapes) && MergeByKind(shapes).Failure? && MaxDepth(shapes) <= depth
    ensures Explains(MergeByKind(shapes).error, shapes, depth)
    decreases MaxDepth(shapes), 2
  {
    assert shapes[0] in shapes;
    match shapes[0]
    case Scalar(base) =>
      assert forall s <- shapes[1..] :: s in shapes;
      var i := MismatchAt(shapes[1..], base);
      assert shapes[i + 1] == shapes[1..][i];
      assert HasMixedScalars(shapes, base, shapes[i + 1].scalar);
    case Struct(_) =>
      AllFieldsDepth(shapes);
      GroupFailureExplained(shapes, Names(AllFields(shapes)), depth);
    case Slice(_) =>
      var elements := Elements(shapes);
      ElementsDepth(shapes);
      ElementsMembers(shapes);
      MergeFailureExplained(elements, depth - 1);
      assert AreElements(elements, shapes);
  }

  lemma {:induction false} GroupFailureExplained(structs: seq<Shape>, names: seq<string>, depth: nat)
    requires structs != [] && forall s <- structs :: s.Struct?
    requires MergeGroups(AllFields(structs), names).Failure? && MaxDepth(structs) <= depth
    ensures Explains(MergeGroups(AllFields(structs), names).error, structs, depth)
    decreases MaxDepth(structs), 1, |names|
  {
    var all, k := AllFields(structs), |names| - 1;
    if MergeGroups(all, names[..k]).Failure? {
      GroupFailureExplained(structs, names[..k], depth);
    } else {
      var group := Group(all, names[k]);
      AllFieldsDepth(structs);
      AllFieldsMembers(structs);
      GroupDepth(all, names[k]);
      GroupMembers(all, names[k]);
      MergeFailureExplained(group, depth - 1);
      assert AreFields(group, names[k], structs);
    }
  }

  // ---------- inference ----------

  /** Where inference fails: at the first item or entry that cannot be inferred, or in the merge of items that
      all can. */
  lemma InferFailureAt(d: Doc)
    requires Infer.InferNode(d).Failure?
    ensures match Infer.InferNode(d).error
            case Unsupported => d.UnsupportedDoc?
            case AtElement(i, cause) =>
              && d.SequenceDoc? && i < |d.items| && Infer.InferNode(d.items[i]) == Failure(cause)
              && forall j :: 0 <= j < i ==> Infer.InferNode(d.items[j]).Success?
            case Heterogeneous(_) => d.SequenceDoc? && forall i <- d.items :: Infer.InferNode(i).Success?
            case NonStringKey =>
              d.MappingDoc? && (exists k :: 0 <= k < |d.entries| && FirstBad(d.entries, k) && d.entries[k].key.OtherKey?)
            case AtField(name, cause) => d.MappingDoc? && exists k :: 0 <= k < |d.entries| && FailsAt(d.entries, k, name, cause)
  {
    match d
    case SequenceDoc(items) =>
      ItemsFailAt(items);
    case MappingDoc(entries) =>
      EntriesFailAt(entries);
      var k :| 0 <= k < |entries| && FirstBad(entries, k) && Infer.InferEntry(entries[k]) == Failure(Infer.InferNode(d).error);
      if entries[k].key.StringKey? {
        assert FailsAt(entries, k, entries[k].key.name, Infer.InferNode(d).error.cause);
      }
    case _ =>
  }

  ghost predicate Inferable(e: Entry) {
    e.key.StringKey? && Infer.InferNode(e.value).Success?
  }

  ghost predicate FailsAt(entries: seq<Entry>, k: nat, name: string, cause: Infer.InferError) {
    FirstBad(entries, k) && entries[k].key == StringKey(name) && Infer.InferNode(entries[k].value) == Failure(cause)
  }

  ghost predicate FirstBad(entries: seq<Entry>, k: nat) {
    k < |entries| && !Inferable(entries[k]) && forall j :: 0 <= j < k ==> Inferable(entries[j])
  }

  lemma {:induction false} ItemsFailAt(items: seq<Doc>)
    ensures var r := Infer.InferItems(items);
            if r.Success? then forall i <- items :: Infer.InferNode(i).Success?
            else
              && r.error.AtElement? && r.error.index < |items|
              && Infer.InferNode(items[r.error.index]) == Failure(r.error.cause)
              && forall j :: 0 <= j < r.error.index ==> Infer.InferNode(items[j]).Success?
  {
    if items != [] {
      var k := |items| - 1;
      ItemsFailAt(items[..k]);
      assert items == items[..k] + [items[k]];
      assert forall j :: 0 <= j < k ==> items[j] in items[..k];
    }
  }

  lemma {:induction false} EntriesFailAt(entries: seq<Entry>)
    ensures var r := Infer.InferEntries(entries);
            if r.Success? then forall j :: 0 <= j < |entries| ==> Inferable(entries[j])
            else exists k :: 0 <= k < |entries| && FirstBad(entries, k) && Infer.InferEntry(entries[k]) == Failure(r.error)
  {
    if entries != [] {
      var k := |entries| - 1;
      EntriesFailAt(entries[..k]);
      if Infer.InferEntries(entries[..k]).Failure? {
        var j :| 0 <= j < k && FirstBad(entries[..k], j) && Infer.InferEntry(entries[..k][j]) == Failure(Infer.InferEntries(entries[..k]).error);
        assert FirstBad(entries, j);
      } else {
        assert forall j :: 0 <= j < k ==> entries[..k][j] == entries[j];
        assert forall j :: 0 <= j < k ==> Inferable(entries[j]);
        assert Infer.InferEntry(entries[k]).Success? <==> Inferable(entries[k]);
        assert !Inferable(entries[k]) ==> FirstBad(entries, k);
      }
    }
  }
}
