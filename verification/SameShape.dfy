/** sameShape, sameStruct and isSubsetStruct on finite types: where they agree with the merge
    order, and exactly where they do not. */
module SameShapes {
  import opened Sets
  import opened Wrappers
  import opened Shapes
  import Merge

  /** The lookup table of sameStruct: a later field of the same name wins. */
  function LastNamed(fields: seq<Field>, name: string): (r: Option<Shape>)
    ensures r.Some? ==> Field(name, r.value) in fields
    ensures r.None? ==> forall f <- fields :: f.name != name
  {
    if fields == [] then None else
      var k := |fields| - 1;
      assert forall f <- fields :: f == fields[k] || f in fields[..k];
      if fields[k].name == name then Some(fields[k].shape) else LastNamed(fields[..k], name)
  }

  predicate SameShape(a: Shape, b: Shape)
    decreases a
  {
    match a
    case Null => false
    case Scalar(_) => a == b
    case Slice(element) =>
      b.Slice? && (element.Some? && b.element.Some? ==> SameShape(element.value, b.element.value))
    case Struct(fields) =>
      b.Struct? && |fields| == |b.fields| && forall f <- fields :: Matched(f, b.fields)
  }

  predicate Matched(f: Field, fields: seq<Field>)
    decreases f
  {
    var other := LastNamed(fields, f.name);
    other.Some? && SameShape(f.shape, other.value)
  }

  /** isSubsetStruct: each field of the smaller one has a match in the larger one. */
  predicate IsSubset(small: seq<Field>, large: seq<Field>) {
    forall f <- small :: Matched(f, large)
  }

  // ---------- the types sameShape is meant for ----------

  /** Distinct field names, no nulls and no element-less slices. */
  ghost predicate Complete(s: Shape)
    decreases s
  {
    match s
    case Null => false
    case Scalar(_) => true
    case Slice(element) => element.Some? && Complete(element.value)
    case Struct(fields) => DistinctNames(fields) && forall f <- fields :: Complete(f.shape)
  }

  ghost function NameSet(fields: seq<Field>): set<string> {
    set f <- fields :: f.name
  }

  lemma {:induction false} NameCount(fields: seq<Field>)
    requires DistinctNames(fields)
    ensures |NameSet(fields)| == |fields|
  {
    if fields != [] {
      var k := |fields| - 1;
      NameCount(fields[..k]);
      assert fields == fields[..k] + [fields[k]];
      assert NameSet(fields) == NameSet(fields[..k]) + {fields[k].name};
      assert fields[k].name !in NameSet(fields[..k]);
    }
  }

  lemma FieldByName(fields: seq<Field>, f: Field, g: Field)
    requires DistinctNames(fields) && f in fields && g in fields && f.name == g.name
    ensures f == g
  {
  }

  /** Equally many distinct names on both sides leave none unmatched: the one-sided check of
      sameStruct covers the other side as well. */
  lemma EveryNameMatched(fs: seq<Field>, gs: seq<Field>, g: Field) returns (f: Field)
    requires DistinctNames(fs) && DistinctNames(gs) && |fs| == |gs|
    requires forall f <- fs :: Matched(f, gs)
    requires g in gs
    ensures f in fs && f.name == g.name && SameShape(f.shape, g.shape)
  {
    NameCount(fs);
    NameCount(gs);
    forall f <- fs
      ensures f.name in NameSet(gs)
    {
      assert Matched(f, gs);
      assert Field(f.name, LastNamed(gs, f.name).value) in gs;
    }
    SubsetOfSameSize(NameSet(fs), NameSet(gs));
    assert g.name in NameSet(fs);
    f :| f in fs && f.name == g.name;
    assert Matched(f, gs);
    FieldByName(gs, g, Field(f.name, LastNamed(gs, f.name).value));
  }

  lemma {:induction false} SameShapeIsEquivalent(a: Shape, b: Shape)
    requires Complete(a) && Complete(b)
    ensures SameShape(a, b) <==> Merge.Equivalent(a, b)
    decreases a, 2
  {
    match a
    case Scalar(_) =>
    case Slice(element) =>
      if b.Slice? {
        SameShapeIsEquivalent(element.value, b.element.value);
      }
    case Struct(fields) =>
      if SameShape(a, b) {
        SameStructEquivalent(fields, b.fields);
      }
      if Merge.Equivalent(a, b) {
        EquivalentSameStruct(fields, b.fields);
      }
  }

  lemma {:induction false} SameStructEquivalent(fs: seq<Field>, gs: seq<Field>)
    requires Complete(Struct(fs)) && Complete(Struct(gs)) && |fs| == |gs|
    requires forall f <- fs :: Matched(f, gs)
    ensures Merge.AllCovered(fs, gs) && Merge.AllCovered(gs, fs)
    decreases fs, 1
  {
    forall f <- fs
      ensures Covered(f, gs)
    {
      assert Matched(f, gs);
      var g := Field(f.name, LastNamed(gs, f.name).value);
      assert g in gs;
      SameShapeIsEquivalent(f.shape, g.shape);
    }
    forall g <- gs
      ensures Covered(g, fs)
    {
      var f := EveryNameMatched(fs, gs, g);
      SameShapeIsEquivalent(f.shape, g.shape);
    }
  }

  lemma {:induction false} EquivalentSameStruct(fs: seq<Field>, gs: seq<Field>)
    requires Complete(Struct(fs)) && Complete(Struct(gs))
    requires Merge.AllCovered(fs, gs) && Merge.AllCovered(gs, fs)
    ensures |fs| == |gs|
    ensures forall f <- fs :: Matched(f, gs)
    decreases fs, 1
  {
    NameCount(fs);
    NameCount(gs);
    forall f <- fs
      ensures f.name in NameSet(gs) && Matched(f, gs)
    {
      assert Covered(f, gs);
      var g :| g in gs && g.name == f.name && Leq(f.shape, g.shape);
      assert Covered(g, fs);
      var h :| h in fs && h.name == g.name && Leq(g.shape, h.shape);
      FieldByName(fs, f, h);
      FieldByName(gs, g, Field(f.name, LastNamed(gs, f.name).value));
      SameShapeIsEquivalent(f.shape, g.shape);
    }
    forall g <- gs
      ensures g.name in NameSet(fs)
    {
      assert Covered(g, fs);
    }
    assert NameSet(fs) == NameSet(gs);
  }

  /** On complete types sameShape is an equivalence relation. */
  lemma SameShapeIsAnEquivalenceRelation(a: Shape, b: Shape, c: Shape)
    requires Complete(a) && Complete(b) && Complete(c)
    ensures SameShape(a, a)
    ensures SameShape(a, b) ==> SameShape(b, a)
    ensures SameShape(a, b) && SameShape(b, c) ==> SameShape(a, c)
  {
    SameShapeIsEquivalent(a, a);
    LeqReflexive(a);
    SameShapeIsEquivalent(a, b);
    SameShapeIsEquivalent(b, a);
    SameShapeIsEquivalent(b, c);
    SameShapeIsEquivalent(a, c);
    if SameShape(a, b) && SameShape(b, c) {
      LeqTransitive(a, b, c);
      LeqTransitive(c, b, a);
    }
  }

  // ---------- nulls and element-less slices ----------

  predicate NoNulls(s: Shape)
    decreases s
  {
    match s
    case Null => false
    case Scalar(_) => true
    case Slice(element) => element.Some? ==> NoNulls(element.value)
    case Struct(fields) => forall f <- fields :: NoNulls(f.shape)
  }

  /** sameShape relates a type to itself exactly when there is no null in it. */
  lemma {:induction false} ReflexiveExactlyWithoutNulls(s: Shape)
    requires UniqueNames(s)
    ensures SameShape(s, s) <==> NoNulls(s)
    decreases s
  {
    match s
    case Null =>
    case Scalar(_) =>
    case Slice(element) =>
      if element.Some? {
        ReflexiveExactlyWithoutNulls(element.value);
      }
    case Struct(fields) =>
      forall f <- fields
        ensures Matched(f, fields) <==> NoNulls(f.shape)
      {
        ReflexiveExactlyWithoutNulls(f.shape);
        FieldByName(fields, f, Field(f.name, LastNamed(fields, f.name).value));
      }
  }

  /** It is not transitive once an element is unknown. */
  lemma NotTransitive()
    ensures var ints, none, strings := Slice(Some(Scalar("int"))), Slice(None), Slice(Some(Scalar("string")));
            SameShape(ints, none) && SameShape(none, strings) && !SameShape(ints, strings)
  {
  }

  /** Some type can be the same shape as s: no null except below a slice. */
  predicate Equatable(s: Shape)
    decreases s
  {
    match s
    case Null => false
    case Scalar(_) => true
    case Slice(_) => true
    case Struct(fields) => forall f <- fields :: Equatable(f.shape)
  }

  /** An element-less slice of s can stand opposite a known element. */
  predicate CanLose(s: Shape)
    decreases s
  {
    match s
    case Null => false
    case Scalar(_) => false
    case Slice(element) => element.None? || CanLose(element.value)
    case Struct(fields) =>
      (forall f <- fields :: Equatable(f.shape)) && exists f <- fields :: CanLose(f.shape)
  }

  lemma {:induction false} SameShapeEquatable(a: Shape, b: Shape)
    requires UniqueNames(a) && UniqueNames(b) && SameShape(a, b)
    ensures Equatable(b)
    decreases b
  {
    match b
    case Struct(fields) =>
      forall g <- fields
        ensures Equatable(g.shape)
      {
        var f := EveryNameMatched(a.fields, fields, g);
        SameShapeEquatable(f.shape, g.shape);
      }
    case _ =>
  }

  lemma {:induction false} SameShapeBelow(a: Shape, b: Shape)
    requires UniqueNames(a) && UniqueNames(b) && SameShape(a, b) && !CanLose(b)
    ensures Leq(a, b)
    decreases a
  {
    match a
    case Scalar(_) =>
    case Slice(element) =>
      if element.Some? {
        SameShapeBelow(element.value, b.element.value);
      }
    case Struct(fields) =>
      SameShapeEquatable(a, b);
      forall f <- fields
        ensures Covered(f, b.fields)
      {
        assert Matched(f, b.fields);
        var g := Field(f.name, LastNamed(b.fields, f.name).value);
        assert g in b.fields;
        SameShapeBelow(f.shape, g.shape);
      }
  }

  /** A type the same shape as s that has an element wherever s lost one. */
  function Witness(s: Shape): Shape
    decreases s
  {
    match s
    case Null => s
    case Scalar(_) => s
    case Slice(None) => Slice(Some(Scalar("string")))
    case Slice(Some(e)) => if CanLose(e) then Slice(Some(Witness(e))) else Slice(None)
    case Struct(fields) => Struct(WitnessFields(fields))
  }

  function WitnessFields(fields: seq<Field>): (r: seq<Field>)
    ensures |r| == |fields|
    ensures forall i :: 0 <= i < |fields| ==> r[i] == Field(fields[i].name, Witness(fields[i].shape))
    decreases fields
  {
    if fields == [] then [] else [WitnessField(fields[0])] + WitnessFields(fields[1..])
  }

  function WitnessField(f: Field): (r: Field)
    ensures r == Field(f.name, Witness(f.shape))
    decreases f
  {
    Field(f.name, Witness(f.shape))
  }

  lemma {:induction false} CanLoseEquatable(s: Shape)
    requires CanLose(s)
    ensures Equatable(s)
  {
  }

  lemma {:induction false} WitnessIsSame(s: Shape)
    requires UniqueNames(s) && Equatable(s)
    ensures UniqueNames(Witness(s)) && SameShape(Witness(s), s)
    ensures CanLose(s) ==> !Leq(Witness(s), s)
    decreases s
  {
    match s
    case Scalar(_) =>
    case Slice(None) =>
    case Slice(Some(e)) =>
      if CanLose(e) {
        CanLoseEquatable(e);
        WitnessIsSame(e);
      }
    case Struct(fields) => WitnessStruct(fields);
  }

  lemma {:induction false} WitnessStruct(fields: seq<Field>)
    requires UniqueFields(fields) && forall f <- fields :: Equatable(f.shape)
    ensures var other := WitnessFields(fields);
            && UniqueFields(other)
            && (forall w <- other :: Matched(w, fields))
            && ((exists f <- fields :: CanLose(f.shape)) ==> exists w <- other :: !Covered(w, fields))
    decreases fields
  {
    var other := WitnessFields(fields);
    forall i | 0 <= i < |fields|
      ensures UniqueNames(other[i].shape) && Matched(other[i], fields)
      ensures CanLose(fields[i].shape) ==> !Covered(other[i], fields)
    {
      WitnessOfField(fields, fields[i]);
    }
    if f :| f in fields && CanLose(f.shape) {
      var i :| 0 <= i < |fields| && fields[i] == f;
      assert other[i] in other && !Covered(other[i], fields);
    }
  }

  lemma {:induction false} WitnessOfField(fields: seq<Field>, f: Field)
    requires DistinctNames(fields) && f in fields
    requires UniqueNames(f.shape) && Equatable(f.shape)
    ensures UniqueNames(WitnessField(f).shape) && Matched(WitnessField(f), fields)
    ensures CanLose(f.shape) ==> !Covered(WitnessField(f), fields)
    decreases f
  {
    WitnessIsSame(f.shape);
    FieldByName(fields, f, Field(f.name, LastNamed(fields, f.name).value));
    if CanLose(f.shape) && Covered(WitnessField(f), fields) {
      var g :| g in fields && g.name == f.name && Leq(WitnessField(f).shape, g.shape);
      FieldByName(fields, f, g);
    }
  }

  /** Replacing any type that sameShape equates with b by b keeps all documents exactly when
      b has no element-less slice in a place sameShape can reach. */
  lemma SafeToReplaceBy(b: Shape)
    requires UniqueNames(b)
    ensures (forall a :: UniqueNames(a) && SameShape(a, b) ==> Leq(a, b)) <==> !CanLose(b)
  {
    if CanLose(b) {
      CanLoseEquatable(b);
      WitnessIsSame(b);
      assert UniqueNames(Witness(b)) && SameShape(Witness(b), b) && !Leq(Witness(b), b);
    } else {
      forall a | UniqueNames(a) && SameShape(a, b)
        ensures Leq(a, b)
      {
        SameShapeBelow(a, b);
      }
    }
  }

  /** A replacement that loses a document: [[1]] no longer fits once the inner element is unknown. */
  lemma SameShapeLosesADocument()
    ensures var known, unknown := Slice(Some(Slice(Some(Scalar("int"))))), Slice(Some(Slice(None)));
            var d := SequenceDoc([SequenceDoc([ScalarDoc(IntegerNode)])]);
            SameShape(known, unknown) && Fits(d, known) && !Fits(d, unknown)
  {
    var inner := SequenceDoc([ScalarDoc(IntegerNode)]);
    assert !Fits(inner, Slice(None));
    assert inner in [inner];
  }
}
