// Scrubbing query variables for logging: values of marked input fields are replaced, everything else
// that the schema knows is copied. Input types may refer to each other in cycles.
module ScrubVariables {
  import opened Wrappers

  const SCRUB_TEXT: string := "<scrubbed>"

  datatype Json = Null | Scalar(text: string) | Arr(items: seq<Json>) | Obj(fields: map<string, Json>)

  datatype Type = Named(name: string) | ListOf(elem: Type)

  /** An input field and whether it carries the scrub directive. */
  datatype Field = Field(name: string, marked: bool, typ: Type)

  datatype Definition = Definition(marked: bool, fields: seq<Field>)

  type Schema = map<string, Definition>

  // ---- what the code looks up ----

  /** The definition behind a type, looking through at most one list layer. Types without fields count as
      leaves, as do types that are not found. */
  function Lookup(schema: Schema, t: Type): Option<Definition> {
    match t
    case Named(n) => Fielded(schema, n)
    case ListOf(Named(n)) => Fielded(schema, n)
    case ListOf(ListOf(_)) => None
  }

  function Fielded(schema: Schema, name: string): Option<Definition> {
    if name in schema && schema[name].fields != [] then Some(schema[name]) else None
  }

  /** What is written for a field of the object `v`, if anything. */
  function FieldValue(schema: Schema, f: Field, v: Json): Option<Json>
    requires v.Obj?
    decreases v, 0, 0
  {
    if f.name !in v.fields then None
    else if f.marked then Some(Scalar(SCRUB_TEXT))
    else
      match Lookup(schema, f.typ)
      case None => Some(v.fields[f.name])
      case Some(d) => Scrub(schema, d, v.fields[f.name])
  }

  function ScrubFields(schema: Schema, fs: seq<Field>, v: Json, out: map<string, Json>): map<string, Json>
    requires v.Obj?
    decreases v, 1, |fs|
  {
    if fs == [] then out
    else
      match FieldValue(schema, fs[0], v)
      case None => ScrubFields(schema, fs[1..], v, out)
      case Some(x) => ScrubFields(schema, fs[1..], v, out[fs[0].name := x])
  }

  /** The scrubbed entries of a list from position `i` on. Entries that are neither objects nor lists are dropped. */
  function ScrubItems(schema: Schema, d: Definition, v: Json, i: nat): seq<Json>
    requires v.Arr? && i <= |v.items|
    decreases v, 1, |v.items| - i
  {
    if i == |v.items| then []
    else
      (match Scrub(schema, d, v.items[i])
       case None => []
       case Some(x) => [x]) + ScrubItems(schema, d, v, i + 1)
  }

  /** A value of an input type with fields: objects and lists are scrubbed inside, others are left out. */
  function Scrub(schema: Schema, d: Definition, v: Json): Option<Json>
    decreases v, 2, 0
  {
    match v
    case Obj(_) => Some(Obj(ScrubFields(schema, d.fields, v, map[])))
    case Arr(_) => Some(Arr(ScrubItems(schema, d, v, 0)))
    case _ => None
  }

  // ---- the code, filling output maps ----

  class Output {
    var entries: map<string, Json>

    constructor ()
      ensures entries == map[]
    {
      entries := map[];
    }
  }

  method ScrubVariableField(schema: Schema, field: Field, variables: Json, out: Output)
    requires variables.Obj?
    modifies out
    ensures out.entries == match FieldValue(schema, field, variables)
                           case None => old(out.entries)
                           case Some(x) => old(out.entries)[field.name := x]
    decreases variables, 0, 0
  {
    var hasField := field.name in variables.fields;
    if hasField && field.marked {
      out.entries := out.entries[field.name := Scalar(SCRUB_TEXT)];
    }
    match Lookup(schema, field.typ)
    case None =>
      if hasField && !field.marked {
        out.entries := out.entries[field.name := variables.fields[field.name]];
      }
    case Some(definition) =>
      if hasField && !field.marked {
        ScrubVariableChildFields(schema, definition, variables.fields[field.name], out, field.name);
      }
  }

  method ScrubVariableChildFields(schema: Schema, definition: Definition, vars: Json, out: Output, fieldName: string)
    modifies out
    ensures out.entries == match Scrub(schema, definition, vars)
                           case None => old(out.entries)
                           case Some(x) => old(out.entries)[fieldName := x]
    decreases vars, 2, 0
  {
    if vars.Obj? {
      var nested := ScrubObject(schema, definition, vars);
      out.entries := out.entries[fieldName := nested];
    } else if vars.Arr? {
      var items := ScrubVariableSlice(schema, definition, vars);
      out.entries := out.entries[fieldName := Arr(items)];
    }
  }

  method ScrubObject(schema: Schema, definition: Definition, vars: Json) returns (r: Json)
    requires vars.Obj?
    ensures Scrub(schema, definition, vars) == Some(r)
    decreases vars, 1, 0
  {
    var nested := new Output();
    for i := 0 to |definition.fields|
      invariant ScrubFields(schema, definition.fields, vars, map[])
             == ScrubFields(schema, definition.fields[i..], vars, nested.entries)
    {
      assert definition.fields[i..][1..] == definition.fields[i + 1..];
      ScrubVariableField(schema, definition.fields[i], vars, nested);
    }
    r := Obj(nested.entries);
  }

  lemma AppendOne(done: seq<Json>, x: Json, rest: seq<Json>)
    ensures done + ([x] + rest) == done + [x] + rest
  {
  }

  method ScrubVariableSlice(schema: Schema, definition: Definition, vars: Json) returns (items: seq<Json>)
    requires vars.Arr?
    ensures items == ScrubItems(schema, definition, vars, 0)
    decreases vars, 1, 0
  {
    items := [];
    for i := 0 to |vars.items|
      invariant items + ScrubItems(schema, definition, vars, i) == ScrubItems(schema, definition, vars, 0)
    {
      var entry := vars.items[i];
      ghost var done, rest := items, ScrubItems(schema, definition, vars, i + 1);
      if entry.Arr? {
        var nested := ScrubVariableSlice(schema, definition, entry);
        items := items + [Arr(nested)];
        AppendOne(done, Arr(nested), rest);
      } else if entry.Obj? {
        var nested := ScrubObject(schema, definition, entry);
        items := items + [nested];
        AppendOne(done, nested, rest);
      } else {
        assert [] + rest == rest;
      }
    }
  }

  datatype Variable = Variable(name: string, typ: Type)

  /** The definition behind a variable's type, fields or not, through at most one list layer. */
  function VariableDefinition(schema: Schema, t: Type): Option<Definition> {
    match t
    case Named(n) => if n in schema then Some(schema[n]) else None
    case ListOf(Named(n)) => if n in schema then Some(schema[n]) else None
    case ListOf(ListOf(_)) => None
  }

  /** What is written for a variable; a variable without a value reads as null. */
  function VariableValue(schema: Schema, x: Variable, vars: map<string, Json>): Option<Json> {
    var value := if x.name in vars then vars[x.name] else Null;
    match VariableDefinition(schema, x.typ)
    case None => Some(value)
    case Some(d) =>
      if d.marked then Some(Scalar(SCRUB_TEXT))
      else if d.fields == [] then Some(value)
      else Scrub(schema, d, value)
  }

  function ScrubAll(schema: Schema, xs: seq<Variable>, vars: map<string, Json>, out: map<string, Json>)
    : map<string, Json>
  {
    if xs == [] then out
    else
      match VariableValue(schema, xs[0], vars)
      case None => ScrubAll(schema, xs[1..], vars, out)
      case Some(v) => ScrubAll(schema, xs[1..], vars, out[xs[0].name := v])
  }

  method ScrubVariable(schema: Schema, x: Variable, vars: map<string, Json>, out: Output)
    modifies out
    ensures out.entries == match VariableValue(schema, x, vars)
                           case None => old(out.entries)
                           case Some(v) => old(out.entries)[x.name := v]
  {
    var definition := VariableDefinition(schema, x.typ);
    var scrubFieldContents := definition.Some? && definition.value.marked;
    if scrubFieldContents {
      out.entries := out.entries[x.name := Scalar(SCRUB_TEXT)];
    }
    var value := if x.name in vars then vars[x.name] else Null;
    if definition.None? || definition.value.fields == [] {
      if !scrubFieldContents {
        out.entries := out.entries[x.name := value];
      }
      return;
    }
    if !scrubFieldContents {
      ScrubVariableChildFields(schema, definition.value, value, out, x.name);
    }
  }

  method ScrubVariables(schema: Schema, xs: seq<Variable>, vars: map<string, Json>) returns (r: map<string, Json>)
    ensures r == ScrubAll(schema, xs, vars, map[])
  {
    var out := new Output();
    for i := 0 to |xs|
      invariant ScrubAll(schema, xs, vars, map[]) == ScrubAll(schema, xs[i..], vars, out.entries)
    {
      assert xs[i..][1..] == xs[i + 1..];
      ScrubVariable(schema, xs[i], vars, out);
    }
    r := out.entries;
  }
}
