/** Inferred types as finite trees, the order "admits at least as much", and the
    documents a type admits (cmd/themegen/config_infer.go). */
module Shapes {
  import opened Wrappers

  datatype Field = Field(name: string, shape: Shape)

  /** A slice whose element is None is the source's element-less slice (Element == nil). */
  datatype Shape =
    | Null
    | Scalar(scalar: string)
    | Slice(element: Option<Shape>)
    | Struct(fields: seq<Field>)

  /** Field names are pairwise distinct, here and everywhere below. */
  ghost predicate UniqueNames(s: Shape)
    decreases s
  {
    match s
    case Null => true
    case Scalar(_) => true
    case Slice(element) => element.Some? ==> UniqueNames(element.value)
    case Struct(fields) => DistinctNames(fields) && forall f <- fields :: UniqueNames(f.shape)
  }

  ghost predicate DistinctNames(fields: seq<Field>) {
    forall i, j :: 0 <= i < j < |fields| ==> fields[i].name != fields[j].name
  }

  ghost predicate UniqueFields(fields: seq<Field>) {
    DistinctNames(fields) && forall f <- fields :: UniqueNames(f.shape)
  }

  /** a <= b: Null is below everything, the element-less slice below every slice, slices go
      by their elements and structs field by field, where the smaller one may lack fields. */
  ghost predicate Leq(a: Shape, b: Shape)
    decreases a
  {
    match a
    case Null => true
    case Scalar(_) => a == b
    case Slice(None) => b.Slice?
    case Slice(Some(e)) => b.Slice? && b.element.Some? && Leq(e, b.element.value)
    case Struct(fields) => b.Struct? && forall f <- fields :: Covered(f, b.fields)
  }

  /** Some field of the same name lies above f. */
  ghost predicate Covered(f: Field, above: seq<Field>)
    decreases f
  {
    exists g <- above :: g.name == f.name && Leq(f.shape, g.shape)
  }

  ghost predicate AllBelow(shapes: seq<Shape>, u: Shape) {
    forall s <- shapes :: Leq(s, u)
  }

  lemma {:induction false} LeqReflexive(a: Shape)
    ensures Leq(a, a)
    decreases a
  {
    match a
    case Null =>
    case Scalar(_) =>
    case Slice(None) =>
    case Slice(Some(e)) => LeqReflexive(e);
    case Struct(fields) =>
      forall f <- fields
        ensures Covered(f, fields)
      {
        LeqReflexive(f.shape);
      }
  }

  lemma {:induction false} LeqTransitive(a: Shape, b: Shape, c: Shape)
    requires Leq(a, b) && Leq(b, c)
    ensures Leq(a, c)
    decreases a
  {
    match a
    case Null =>
    case Scalar(_) =>
    case Slice(None) =>
    case Slice(Some(e)) => LeqTransitive(e, b.element.value, c.element.value);
    case Struct(fields) =>
      forall f <- fields
        ensures Covered(f, c.fields)
      {
        var g :| g in b.fields && g.name == f.name && Leq(f.shape, g.shape);
        assert Covered(g, c.fields);
        var h :| h in c.fields && h.name == g.name && Leq(g.shape, h.shape);
        LeqTransitive(f.shape, g.shape, h.shape);
      }
  }

  /** The YAML documents of the model: the node types inferNode distinguishes. */
  datatype ScalarKind = StringNode | IntegerNode | FloatNode | BoolNode

  datatype Key = StringKey(name: string) | OtherKey

  datatype Entry = Entry(key: Key, value: Doc)

  datatype Doc =
    | NullDoc
    | ScalarDoc(kind: ScalarKind)
    | SequenceDoc(items: seq<Doc>)
    | MappingDoc(entries: seq<Entry>)
    | UnsupportedDoc

  /** The Go type a scalar of this kind is read into. */
  ghost predicate ScalarFits(kind: ScalarKind, scalar: string) {
    match kind
    case StringNode => scalar == "string"
    case IntegerNode => scalar == "int"
    case FloatNode => scalar == "float64"
    case BoolNode => scalar == "bool"
  }

  /** The document can be read into the type without losing or rejecting anything. */
  ghost predicate Fits(d: Doc, t: Shape)
    decreases d
  {
    match d
    case NullDoc => true
    case ScalarDoc(kind) => t.Scalar? && ScalarFits(kind, t.scalar)
    case SequenceDoc(items) =>
      t.Slice? && match t.element {
        case None => |items| == 0
        case Some(e) => forall i <- items :: Fits(i, e)
      }
    case MappingDoc(entries) => t.Struct? && forall e <- entries :: EntryFits(e, t.fields)
    case UnsupportedDoc => false
  }

  ghost predicate EntryFits(e: Entry, fields: seq<Field>)
    decreases e
  {
    e.key.StringKey? && exists f <- fields :: f.name == e.key.name && Fits(e.value, f.shape)
  }

  /** A larger type admits every document of a smaller one. */
  lemma {:induction false} FitsMonotone(d: Doc, a: Shape, b: Shape)
    requires Fits(d, a) && Leq(a, b)
    ensures Fits(d, b)
    decreases d
  {
    match d
    case NullDoc =>
    case ScalarDoc(_) =>
    case SequenceDoc(items) =>
      if a.element.Some? {
        forall i <- items
          ensures Fits(i, b.element.value)
        {
          FitsMonotone(i, a.element.value, b.element.value);
        }
      }
    case MappingDoc(entries) =>
      forall e <- entries
        ensures EntryFits(e, b.fields)
      {
        assert EntryFits(e, a.fields);
        var f :| f in a.fields && f.name == e.key.name && Fits(e.value, f.shape);
        assert Covered(f, b.fields);
        var g :| g in b.fields && g.name == f.name && Leq(f.shape, g.shape);
        FitsMonotone(e.value, f.shape, g.shape);
      }
    case UnsupportedDoc =>
  }
}
