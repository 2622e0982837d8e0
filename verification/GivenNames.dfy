/** The names assignNames gives, in terms of the fields a struct is reached through
    (cmd/themegen/config_infer.go). */
module GivenNames {
  import opened Wrappers
  import opened TypeGraph
  import opened Naming
  import opened Shapes

  /** The field's name without a final s, unless that is all there is. */
  ghost predicate IsStem(field: string, c: string) {
    (c != "" && field == c + "s") || (c == field && (|field| <= 1 || field[|field| - 1] != 's'))
  }

  /** A struct of the tree bears this name and has named what is below it. The root, called Config, names as
      a struct without a name does. */
  ghost predicate Names(g: Graph, n: TypeSpec, fields: seq<Field>, name: string) {
    Represents(g, n, Struct(fields)) && NamedAs(g, n, Struct(fields), name) && (g[n].name == name || g[n].name == "Config")
  }

  /** m is the struct in the list under field i of n, and e are its fields. */
  ghost predicate ListedUnder(g: Graph, n: TypeSpec, fields: seq<Field>, i: nat, m: TypeSpec, e: seq<Field>)
    requires Represents(g, n, Struct(fields))
  {
    && i < |fields| && fields[i].shape == Slice(Some(Struct(e)))
    && g[n].fields[i].typ in g && g[g[n].fields[i].typ].element == m
  }

  lemma StemUnique(field: string, c: string)
    requires IsStem(field, c)
    ensures c == if |field| > 1 && field[|field| - 1] == 's' then field[..|field| - 1] else field
  {
    if c != "" && field == c + "s" {
      assert field[|field| - 1] == 's' && field[..|field| - 1] == c;
    }
  }

  lemma ElementNamed(g: Graph, n: TypeSpec, fields: seq<Field>, name: string, i: nat, m: TypeSpec, e: seq<Field>)
    requires Represents(g, n, Struct(fields)) && NamedAs(g, n, Struct(fields), name) && ListedUnder(g, n, fields, i, m, e)
    ensures m in g && g[m].name == ElementName(name, fields[i].name)
    ensures Represents(g, m, Struct(e)) && NamedAs(g, m, Struct(e), g[m].name)
  {
    assert ChildNamed(g, g[n].fields[i].typ, fields[i], name);
  }

  /** A struct in a list is called after the struct p around it and the name of the field without its final
      s; under Children it is called as p is. Directly below the root the field's own name stands for p. */
  lemma ElementNameExactly(g: Graph, n: TypeSpec, fields: seq<Field>, name: string, i: nat, m: TypeSpec, e: seq<Field>, c: string)
    requires Names(g, n, fields, name) && ListedUnder(g, n, fields, i, m, e) && IsStem(fields[i].name, c)
    ensures m in g && Names(g, m, e, g[m].name)
    ensures var field := fields[i].name;
            var p := if name == "" || name == "Config" then field else name;
            g[m].name == if field == "Children" && p != "" && p != "Config" then p
                         else if c == p || c == "" then p + "Item"
                         else p + c
  {
    ElementNamed(g, n, fields, name, i, m, e);
    StemUnique(fields[i].name, c);
  }

  /** A struct that is the type of a field is called as the field. */
  lemma FieldNameExactly(g: Graph, n: TypeSpec, fields: seq<Field>, name: string, i: nat, e: seq<Field>)
    requires Names(g, n, fields, name) && i < |fields| && fields[i].shape == Struct(e)
    ensures var m := g[n].fields[i].typ;
            m in g && g[m].name == fields[i].name && Names(g, m, e, fields[i].name)
  {
    var f, m := fields[i], g[n].fields[i].typ;
    assert Represents(g, m, f.shape) && ChildNamed(g, m, f, name);
    StructNamed(g, m, f, name, e);
  }

  lemma StructNamed(g: Graph, m: TypeSpec, f: Field, name: string, e: seq<Field>)
    requires f.shape == Struct(e) && Represents(g, m, f.shape) && ChildNamed(g, m, f, name)
    ensures m in g && g[m].name == f.name && Names(g, m, e, f.name)
  {
  }

  /** m is reached from n through depth lists under fields called Children. */
  ghost predicate ChildrenOf(g: Graph, n: TypeSpec, fields: seq<Field>, m: TypeSpec, depth: nat)
    decreases depth
  {
    Represents(g, n, Struct(fields)) &&
    if depth == 0 then m == n
    else exists i: nat | i < |fields| :: ChildrenThrough(g, n, fields, i, m, depth)
  }

  ghost predicate ChildrenThrough(g: Graph, n: TypeSpec, fields: seq<Field>, i: nat, m: TypeSpec, depth: nat)
    requires depth > 0 && i < |fields| && Represents(g, n, Struct(fields))
    decreases depth, 0
  {
    var t, shape := g[n].fields[i].typ, fields[i].shape;
    && fields[i].name == "Children" && shape.Slice? && shape.element.Some? && shape.element.value.Struct?
    && Represents(g, t, shape) && ChildrenOf(g, g[t].element, shape.element.value.fields, m, depth - 1)
  }

  /** Nested menus are of one type: everything reached through Children has the name of the struct it
      began with, at any depth. */
  lemma {:induction false} ChildrenShareName(g: Graph, n: TypeSpec, fields: seq<Field>, m: TypeSpec, depth: nat)
    requires Represents(g, n, Struct(fields)) && NamedAs(g, n, Struct(fields), g[n].name) && ChildrenOf(g, n, fields, m, depth)
    requires g[n].name != "" && g[n].name != "Config"
    ensures m in g && g[m].name == g[n].name
    decreases depth
  {
    if depth > 0 {
      var i: nat :| i < |fields| && ChildrenThrough(g, n, fields, i, m, depth);
      var child, e := g[g[n].fields[i].typ].element, fields[i].shape.element.value.fields;
      ElementNamed(g, n, fields, g[n].name, i, child, e);
      ChildrenShareName(g, child, e, m, depth - 1);
    }
  }
}
