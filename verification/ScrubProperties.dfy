// What scrubbed variables depend on and what they keep.
module ScrubProperties {
  import opened Wrappers
  import opened ScrubVariables

  // ---- marked data ----

  /** The type with all list layers removed. */
  function Base(t: Type): string {
    match t
    case Named(n) => n
    case ListOf(e) => Base(e)
  }

  /** The definition that the values of a type belong to, however deeply they are nested in lists. */
  function Meant(schema: Schema, t: Type): Option<Definition> {
    Fielded(schema, Base(t))
  }

  predicate Shallow(t: Type) {
    match t
    case Named(_) => true
    case ListOf(e) => e.Named?
  }

  lemma ShallowLookup(schema: Schema, t: Type)
    ensures Lookup(schema, t) == if Shallow(t) then Meant(schema, t) else None
  {
    match t
    case Named(_) =>
    case ListOf(e) => assert Base(t) == Base(e);
  }

  /** Field names are unique within a definition. */
  ghost predicate WellFormed(schema: Schema) {
    forall n :: n in schema ==> UniqueNames(schema[n].fields)
  }

  ghost predicate UniqueNames(fs: seq<Field>) {
    forall i, j :: 0 <= i < j < |fs| ==> fs[i].name != fs[j].name
  }

  /** Two values of an input type that differ at most inside marked fields: same keys, same list lengths,
      and the same content everywhere else, unknown keys included. */
  ghost predicate SameUnmarked(schema: Schema, d: Definition, x: Json, y: Json)
    decreases x, 1
  {
    match (x, y)
    case (Obj(m), Obj(n)) =>
      && m.Keys == n.Keys
      && (forall k :: k in m && (forall f :: f in d.fields ==> f.name != k) ==> m[k] == n[k])
      && (forall f :: f in d.fields && f.name in m && !f.marked ==> SameField(schema, f, m[f.name], n[f.name]))
    case (Arr(a), Arr(b)) => |a| == |b| && forall i :: 0 <= i < |a| ==> SameUnmarked(schema, d, a[i], b[i])
    case _ => x == y
  }

  ghost predicate SameField(schema: Schema, f: Field, x: Json, y: Json)
    decreases x, 2
  {
    match Meant(schema, f.typ)
    case None => x == y
    case Some(d) => SameUnmarked(schema, d, x, y)
  }

  /** Scrubbing values of this type gives the same result whatever marked fields contain. */
  ghost predicate Independent(schema: Schema, d: Definition) {
    forall x, y :: SameUnmarked(schema, d, x, y) ==> Scrub(schema, d, x) == Scrub(schema, d, y)
  }

  // ---- where the code goes blind ----

  /** A chain of unmarked fields from `d` that ends at a marked one. */
  ghost predicate Exposes(schema: Schema, d: Definition, path: seq<Field>)
    decreases |path|
  {
    && path != [] && path[0] in d.fields
    && if |path| == 1 then path[0].marked
       else !path[0].marked && Meant(schema, path[0].typ).Some?
            && Exposes(schema, Meant(schema, path[0].typ).value, path[1..])
  }

  /** Such a chain that passes through a field whose type has two or more list layers. */
  ghost predicate Leaks(schema: Schema, d: Definition, path: seq<Field>)
    decreases |path|
  {
    && |path| > 1 && path[0] in d.fields && !path[0].marked && Meant(schema, path[0].typ).Some?
    && if Shallow(path[0].typ) then Leaks(schema, Meant(schema, path[0].typ).value, path[1..])
       else Exposes(schema, Meant(schema, path[0].typ).value, path[1..])
  }

  // ---- no leak, no dependence ----

  /** Where no marked field can be reached, values that agree outside marked fields are equal. */
  lemma {:induction false} NothingMarked(schema: Schema, d: Definition, x: Json, y: Json)
    requires forall path :: !Exposes(schema, d, path)
    requires SameUnmarked(schema, d, x, y)
    ensures x == y
    decreases x, 0
  {
    match (x, y)
    case (Obj(m), Obj(n)) =>
      forall k | k in m
        ensures m[k] == n[k]
      {
        if f :| f in d.fields && f.name == k {
          assert !Exposes(schema, d, [f]);
          assert SameField(schema, f, m[k], n[k]);
          NothingMarkedInField(schema, d, f, m[k], n[k]);
        }
      }
    case (Arr(a), Arr(b)) =>
      forall i | 0 <= i < |a|
        ensures a[i] == b[i]
      {
        NothingMarked(schema, d, a[i], b[i]);
      }
    case _ =>
  }

  lemma {:induction false} NothingMarkedInField(schema: Schema, d: Definition, f: Field, x: Json, y: Json)
    requires f in d.fields && !f.marked && (forall path :: !Exposes(schema, d, path))
    requires SameField(schema, f, x, y)
    ensures x == y
    decreases x, 1
  {
    if Meant(schema, f.typ).Some? {
      var d' := Meant(schema, f.typ).value;
      forall path
        ensures !Exposes(schema, d', path)
      {
        ExposesFurther(schema, d, f, path);
      }
      NothingMarked(schema, d', x, y);
    }
  }

  lemma ExposesFurther(schema: Schema, d: Definition, f: Field, path: seq<Field>)
    requires f in d.fields && !f.marked && Meant(schema, f.typ).Some?
    ensures Exposes(schema, Meant(schema, f.typ).value, path) ==> Exposes(schema, d, [f] + path)
  {
    assert ([f] + path)[1..] == path;
  }

  lemma LeaksFurther(schema: Schema, d: Definition, f: Field, path: seq<Field>)
    requires f in d.fields && !f.marked && Meant(schema, f.typ).Some?
    ensures var d' := Meant(schema, f.typ).value;
            (if Shallow(f.typ) then Leaks(schema, d', path) else Exposes(schema, d', path)) ==>
              Leaks(schema, d, [f] + path)
  {
    assert ([f] + path)[1..] == path;
  }

  lemma {:induction false} SameScrub(schema: Schema, d: Definition, x: Json, y: Json)
    requires forall path :: !Leaks(schema, d, path)
    requires SameUnmarked(schema, d, x, y)
    ensures Scrub(schema, d, x) == Scrub(schema, d, y)
    decreases x, 2, 0
  {
    match (x, y)
    case (Obj(_), Obj(_)) => SameFields(schema, d, d.fields, x, y, map[]);
    case (Arr(_), Arr(_)) => SameItems(schema, d, x, y, 0);
    case _ =>
  }

  lemma {:induction false} SameFields(schema: Schema, d: Definition, fs: seq<Field>, x: Json, y: Json,
                                      out: map<string, Json>)
    requires x.Obj? && y.Obj? && (forall path :: !Leaks(schema, d, path)) && SameUnmarked(schema, d, x, y)
    requires forall f :: f in fs ==> f in d.fields
    ensures ScrubFields(schema, fs, x, out) == ScrubFields(schema, fs, y, out)
    decreases x, 1, |fs|
  {
    if fs == [] {
    } else {
      var f := fs[0];
      assert f in d.fields;
      if f.name in x.fields && !f.marked {
        assert SameField(schema, f, x.fields[f.name], y.fields[f.name]);
        SameFieldValue(schema, d, f, x, y);
      }
      assert FieldValue(schema, f, x) == FieldValue(schema, f, y);
      match FieldValue(schema, f, x)
      case None => SameFields(schema, d, fs[1..], x, y, out);
      case Some(v) => SameFields(schema, d, fs[1..], x, y, out[f.name := v]);
    }
  }

  lemma {:induction false} SameFieldValue(schema: Schema, d: Definition, f: Field, x: Json, y: Json)
    requires x.Obj? && y.Obj? && f in d.fields && !f.marked && f.name in x.fields && f.name in y.fields
    requires forall path :: !Leaks(schema, d, path)
    requires SameField(schema, f, x.fields[f.name], y.fields[f.name])
    ensures FieldValue(schema, f, x) == FieldValue(schema, f, y)
    decreases x, 0, 0
  {
    var v, w := x.fields[f.name], y.fields[f.name];
    ShallowLookup(schema, f.typ);
    if Meant(schema, f.typ).Some? {
      var d' := Meant(schema, f.typ).value;
      if Shallow(f.typ) {
        forall path
          ensures !Leaks(schema, d', path)
        {
          LeaksFurther(schema, d, f, path);
        }
        SameScrub(schema, d', v, w);
      } else {
        forall path
          ensures !Exposes(schema, d', path)
        {
          LeaksFurther(schema, d, f, path);
        }
        NothingMarked(schema, d', v, w);
      }
    }
  }

  lemma {:induction false} SameItems(schema: Schema, d: Definition, x: Json, y: Json, i: nat)
    requires x.Arr? && y.Arr? && i <= |x.items| == |y.items|
    requires (forall path :: !Leaks(schema, d, path)) && SameUnmarked(schema, d, x, y)
    ensures ScrubItems(schema, d, x, i) == ScrubItems(schema, d, y, i)
    decreases x, 1, |x.items| - i
  {
    if i == |x.items| {
    } else {
      SameScrub(schema, d, x.items[i], y.items[i]);
      SameItems(schema, d, x, y, i + 1);
    }
  }

  // ---- a leak is a dependence ----

  /** An object that holds one value at the end of a chain of fields. */
  function Along(path: seq<Field>, leaf: Json): Json {
    if path == [] then leaf else Obj(map[path[0].name := Along(path[1..], leaf)])
  }

  /** Two objects with a single field agree outside marked data if the field is marked or its values do. */
  lemma SingleField(schema: Schema, d: Definition, f: Field, a: Json, b: Json)
    requires UniqueNames(d.fields) && f in d.fields && (f.marked || SameField(schema, f, a, b))
    ensures SameUnmarked(schema, d, Obj(map[f.name := a]), Obj(map[f.name := b]))
    ensures a != b ==> Obj(map[f.name := a]) != Obj(map[f.name := b])
  {
    OnlyField(d, f);
    assert map[f.name := a][f.name] == a && map[f.name := b][f.name] == b;
  }

  lemma {:induction false} AlongExposed(schema: Schema, d: Definition, path: seq<Field>, a: Json, b: Json)
    requires WellFormed(schema) && UniqueNames(d.fields) && Exposes(schema, d, path) && a != b
    ensures SameUnmarked(schema, d, Along(path, a), Along(path, b)) && Along(path, a) != Along(path, b)
    decreases |path|
  {
    var f := path[0];
    if |path| > 1 {
      AlongExposed(schema, Meant(schema, f.typ).value, path[1..], a, b);
    } else {
      assert path[1..] == [] && Along([], a) == a && Along([], b) == b;
    }
    SingleField(schema, d, f, Along(path[1..], a), Along(path[1..], b));
  }

  lemma OnlyField(d: Definition, f: Field)
    requires UniqueNames(d.fields) && f in d.fields
    ensures forall g :: g in d.fields && g.name == f.name ==> g == f
  {
  }

  /** Fields that an object does not have leave no trace; the one it has is scrubbed. */
  lemma {:induction false} ScrubOneField(schema: Schema, fs: seq<Field>, f: Field, x: Json, out: map<string, Json>)
    requires UniqueNames(fs)
    ensures var v := Obj(map[f.name := x]);
            && ((forall g :: g in fs ==> g.name != f.name) ==> ScrubFields(schema, fs, v, out) == out)
            && (f in fs && FieldValue(schema, f, v).Some? ==>
                  ScrubFields(schema, fs, v, out) == out[f.name := FieldValue(schema, f, v).value])
    decreases |fs|
  {
    if fs == [] {
    } else {
      var v := Obj(map[f.name := x]);
      assert UniqueNames(fs[1..]);
      assert fs[0] == f ==> forall g :: g in fs[1..] ==> g.name != f.name;
      if fs[0] == f && FieldValue(schema, f, v).Some? {
        ScrubOneField(schema, fs[1..], f, x, out[f.name := FieldValue(schema, f, v).value]);
      } else if fs[0].name != f.name {
        ScrubOneField(schema, fs[1..], f, x, out);
      }
    }
  }

  lemma ScrubSingleField(schema: Schema, d: Definition, f: Field, a: Json, b: Json)
    requires UniqueNames(d.fields) && f in d.fields
    requires FieldValue(schema, f, Obj(map[f.name := a])).Some? && FieldValue(schema, f, Obj(map[f.name := b])).Some?
    requires FieldValue(schema, f, Obj(map[f.name := a])) != FieldValue(schema, f, Obj(map[f.name := b]))
    ensures Scrub(schema, d, Obj(map[f.name := a])) != Scrub(schema, d, Obj(map[f.name := b]))
  {
    ScrubOneField(schema, d.fields, f, a, map[]);
    ScrubOneField(schema, d.fields, f, b, map[]);
    var v, w := FieldValue(schema, f, Obj(map[f.name := a])).value, FieldValue(schema, f, Obj(map[f.name := b])).value;
    assert map[f.name := v][f.name] == v && map[f.name := w][f.name] == w;
  }

  lemma {:induction false} AlongLeaked(schema: Schema, d: Definition, path: seq<Field>, a: Json, b: Json)
    requires WellFormed(schema) && UniqueNames(d.fields) && Leaks(schema, d, path) && a != b
    ensures SameUnmarked(schema, d, Along(path, a), Along(path, b))
    ensures Scrub(schema, d, Along(path, a)) != Scrub(schema, d, Along(path, b))
    decreases |path|
  {
    var f, d' := path[0], Meant(schema, path[0].typ).value;
    var x, y := Along(path[1..], a), Along(path[1..], b);
    ShallowLookup(schema, f.typ);
    if Shallow(f.typ) {
      AlongLeaked(schema, d', path[1..], a, b);
    } else {
      AlongExposed(schema, d', path[1..], a, b);
    }
    SingleField(schema, d, f, x, y);
    ScrubSingleField(schema, d, f, x, y);
  }

  lemma Dependent(schema: Schema, d: Definition, x: Json, y: Json)
    requires SameUnmarked(schema, d, x, y) && Scrub(schema, d, x) != Scrub(schema, d, y)
    ensures !Independent(schema, d)
  {
  }

  /** Some field with two or more list layers leads, directly or through unmarked fields, to a marked field. */
  ghost predicate HasLeak(schema: Schema, d: Definition) {
    exists path :: Leaks(schema, d, path)
  }

  /** The scrubbed value of an input type is independent of everything inside marked fields if and only if
      it has no leak. */
  lemma IndependentUnlessLeaking(schema: Schema, d: Definition)
    requires WellFormed(schema) && UniqueNames(d.fields)
    ensures Independent(schema, d) <==> !HasLeak(schema, d)
  {
    if HasLeak(schema, d) {
      var path :| Leaks(schema, d, path);
      AlongLeaked(schema, d, path, Scalar("a"), Null);
      Dependent(schema, d, Along(path, Scalar("a")), Along(path, Null));
    } else {
      NoLeakIndependent(schema, d);
    }
  }

  lemma NoLeakIndependent(schema: Schema, d: Definition)
    requires forall path :: !Leaks(schema, d, path)
    ensures Independent(schema, d)
  {
    forall x, y | SameUnmarked(schema, d, x, y)
      ensures Scrub(schema, d, x) == Scrub(schema, d, y)
    {
      SameScrub(schema, d, x, y);
    }
  }

  ghost predicate AllShallow(schema: Schema) {
    forall n, f :: n in schema && f in schema[n].fields ==> Shallow(f.typ)
  }

  lemma {:induction false} ShallowNeverLeaks(schema: Schema, d: Definition, path: seq<Field>)
    requires AllShallow(schema) && (forall f :: f in d.fields ==> Shallow(f.typ))
    ensures !Leaks(schema, d, path)
    decreases |path|
  {
    if |path| <= 1 || path[0] !in d.fields || Meant(schema, path[0].typ).None? {
    } else {
      ShallowNeverLeaks(schema, Meant(schema, path[0].typ).value, path[1..]);
    }
  }

  // ---- whole requests ----

  /** The definition that the values of a variable belong to, however deeply they are nested in lists. */
  function MeantVariable(schema: Schema, t: Type): Option<Definition> {
    if Base(t) in schema then Some(schema[Base(t)]) else None
  }

  lemma ShallowVariable(schema: Schema, t: Type)
    ensures VariableDefinition(schema, t) == if Shallow(t) then MeantVariable(schema, t) else None
  {
    match t
    case Named(_) =>
    case ListOf(e) => assert Base(t) == Base(e);
  }

  /** The two values of a variable agree outside marked data, the variable's own type included. */
  ghost predicate SameVariable(schema: Schema, x: Variable, v: map<string, Json>, w: map<string, Json>) {
    && (x.name in v <==> x.name in w)
    && (x.name in v ==>
          match MeantVariable(schema, x.typ)
          case None => v[x.name] == w[x.name]
          case Some(d) =>
            || d.marked
            || if d.fields == [] then v[x.name] == w[x.name] else SameUnmarked(schema, d, v[x.name], w[x.name]))
  }

  ghost predicate SameVariables(schema: Schema, xs: seq<Variable>, v: map<string, Json>, w: map<string, Json>) {
    forall x :: x in xs ==> SameVariable(schema, x, v, w)
  }

  /** Scrubbing the variables of a request gives the same result whatever marked data contains. */
  ghost predicate RequestIndependent(schema: Schema, xs: seq<Variable>) {
    forall v, w :: SameVariables(schema, xs, v, w) ==> ScrubAll(schema, xs, v, map[]) == ScrubAll(schema, xs, w, map[])
  }

  /** A variable shows marked data if it is of a type with two or more list layers that is marked or leads to
      a marked field, or if its type has a leaking field. */
  ghost predicate VariableLeaks(schema: Schema, x: Variable) {
    match MeantVariable(schema, x.typ)
    case None => false
    case Some(d) =>
      if Shallow(x.typ) then !d.marked && HasLeak(schema, d)
      else d.marked || exists path :: Exposes(schema, d, path)
  }

  ghost predicate UniqueVariables(xs: seq<Variable>) {
    forall i, j :: 0 <= i < j < |xs| ==> xs[i].name != xs[j].name
  }

  lemma SameVariableValue(schema: Schema, x: Variable, v: map<string, Json>, w: map<string, Json>)
    requires !VariableLeaks(schema, x) && SameVariable(schema, x, v, w)
    ensures VariableValue(schema, x, v) == VariableValue(schema, x, w)
  {
    ShallowVariable(schema, x.typ);
    var def := MeantVariable(schema, x.typ);
    if def.Some? && !def.value.marked && def.value.fields != [] && x.name in v {
      if Shallow(x.typ) {
        SameScrub(schema, def.value, v[x.name], w[x.name]);
      } else {
        NothingMarked(schema, def.value, v[x.name], w[x.name]);
      }
    }
  }

  lemma {:induction false} SameScrubAll(schema: Schema, xs: seq<Variable>, v: map<string, Json>, w: map<string, Json>,
                                        out: map<string, Json>)
    requires SameVariables(schema, xs, v, w) && forall x :: x in xs ==> !VariableLeaks(schema, x)
    ensures ScrubAll(schema, xs, v, out) == ScrubAll(schema, xs, w, out)
    decreases |xs|
  {
    if xs == [] {
    } else {
      SameVariableValue(schema, xs[0], v, w);
      match VariableValue(schema, xs[0], v)
      case None => SameScrubAll(schema, xs[1..], v, w, out);
      case Some(y) => SameScrubAll(schema, xs[1..], v, w, out[xs[0].name := y]);
    }
  }

  /** Each variable's value appears under its name. */
  lemma {:induction false} ScrubbedVariable(schema: Schema, xs: seq<Variable>, v: map<string, Json>,
                                            out: map<string, Json>, k: string)
    requires UniqueVariables(xs)
    ensures (forall x :: x in xs ==> x.name != k) ==>
              (k in ScrubAll(schema, xs, v, out) <==> k in out)
              && (k in out ==> ScrubAll(schema, xs, v, out)[k] == out[k])
    ensures forall x :: x in xs && x.name == k && VariableValue(schema, x, v).Some? ==>
              k in ScrubAll(schema, xs, v, out) && ScrubAll(schema, xs, v, out)[k] == VariableValue(schema, x, v).value
    decreases |xs|
  {
    if xs == [] {
    } else {
      assert UniqueVariables(xs[1..]);
      assert xs == [xs[0]] + xs[1..];
      match VariableValue(schema, xs[0], v)
      case None => ScrubbedVariable(schema, xs[1..], v, out, k);
      case Some(y) => ScrubbedVariable(schema, xs[1..], v, out[xs[0].name := y], k);
    }
  }

  /** Values that show the dependence of a leaking variable. */
  lemma LeakingValues(schema: Schema, x: Variable) returns (a: Json, b: Json)
    requires WellFormed(schema) && VariableLeaks(schema, x)
    ensures SameVariable(schema, x, map[x.name := a], map[x.name := b])
    ensures VariableValue(schema, x, map[x.name := a]).Some? && VariableValue(schema, x, map[x.name := b]).Some?
    ensures VariableValue(schema, x, map[x.name := a]) != VariableValue(schema, x, map[x.name := b])
  {
    a, b := Scalar("a"), Null;
    ShallowVariable(schema, x.typ);
    var d := MeantVariable(schema, x.typ).value;
    if Shallow(x.typ) {
      var path :| Leaks(schema, d, path);
      AlongLeaked(schema, d, path, a, b);
      a, b := Along(path, a), Along(path, b);
    } else if !d.marked {
      var path :| Exposes(schema, d, path);
      AlongExposed(schema, d, path, a, b);
      a, b := Along(path, a), Along(path, b);
    }
  }

  /** The scrubbed variables of a request are independent of everything inside marked data if and only if no
      variable leaks. */
  lemma RequestIndependentUnlessLeaking(schema: Schema, xs: seq<Variable>)
    requires WellFormed(schema) && UniqueVariables(xs)
    ensures RequestIndependent(schema, xs) <==> forall x :: x in xs ==> !VariableLeaks(schema, x)
  {
    if x :| x in xs && VariableLeaks(schema, x) {
      var a, b := LeakingValues(schema, x);
      ScrubbedVariable(schema, xs, map[x.name := a], map[], x.name);
      ScrubbedVariable(schema, xs, map[x.name := b], map[], x.name);
      OnlyVariable(schema, xs, x, a, b);
    } else {
      forall v, w | SameVariables(schema, xs, v, w)
        ensures ScrubAll(schema, xs, v, map[]) == ScrubAll(schema, xs, w, map[])
      {
        SameScrubAll(schema, xs, v, w, map[]);
      }
    }
  }

  lemma OnlyVariable(schema: Schema, xs: seq<Variable>, x: Variable, a: Json, b: Json)
    requires UniqueVariables(xs) && x in xs && SameVariable(schema, x, map[x.name := a], map[x.name := b])
    ensures SameVariables(schema, xs, map[x.name := a], map[x.name := b])
  {
    forall y | y in xs
      ensures SameVariable(schema, y, map[x.name := a], map[x.name := b])
    {
      assert y.name == x.name ==> y == x;
    }
  }

  /** With at most one list layer per type, nothing leaks. */
  lemma ShallowRequestIsIndependent(schema: Schema, xs: seq<Variable>)
    requires WellFormed(schema) && UniqueVariables(xs)
    requires AllShallow(schema) && forall x :: x in xs ==> Shallow(x.typ)
    ensures RequestIndependent(schema, xs)
  {
    forall x | x in xs
      ensures !VariableLeaks(schema, x)
    {
      if Base(x.typ) in schema {
        forall path
          ensures !Leaks(schema, schema[Base(x.typ)], path)
        {
          ShallowNeverLeaks(schema, schema[Base(x.typ)], path);
        }
      }
    }
    RequestIndependentUnlessLeaking(schema, xs);
  }

  // ---- what is kept ----

  datatype Step = Key(name: string) | Index(i: nat)

  function Get(v: Json, path: seq<Step>): Option<Json> {
    if path == [] then Some(v)
    else
      match path[0]
      case Key(k) => if v.Obj? && k in v.fields then Get(v.fields[k], path[1..]) else None
      case Index(i) => if v.Arr? && i < |v.items| then Get(v.items[i], path[1..]) else None
  }

  /** The number of entries before position `i` that survive scrubbing. */
  function Survivors(items: seq<Json>, i: nat): nat
    requires i <= |items|
  {
    if i == 0 then 0 else Survivors(items, i - 1) + if items[i - 1].Obj? || items[i - 1].Arr? then 1 else 0
  }

  /** Follows a path through unmarked fields to a leaf, and gives its place in the scrubbed value: the same
      keys, and list positions counted over surviving entries. */
  function LeafPlace(schema: Schema, d: Definition, v: Json, path: seq<Step>): Option<seq<Step>>
    decreases |path|
  {
    if path == [] then None
    else
      match path[0]
      case Key(k) =>
        if !v.Obj? || k !in v.fields then None
        else
          (match FieldNamed(d.fields, k)
           case None => None
           case Some(f) =>
             if f.marked then None
             else
               match Lookup(schema, f.typ)
               case None => Some(path)
               case Some(d') =>
                 match LeafPlace(schema, d', v.fields[k], path[1..])
                 case None => None
                 case Some(rest) => Some([Key(k)] + rest))
      case Index(i) =>
        if !v.Arr? || i >= |v.items| then None
        else
          match LeafPlace(schema, d, v.items[i], path[1..])
          case None => None
          case Some(rest) => Some([Index(Survivors(v.items, i))] + rest)
  }

  function FieldNamed(fs: seq<Field>, k: string): Option<Field> {
    if fs == [] then None else if fs[0].name == k then Some(fs[0]) else FieldNamed(fs[1..], k)
  }

  lemma {:induction false} FieldNamedIsUnique(fs: seq<Field>, k: string)
    requires UniqueNames(fs)
    ensures match FieldNamed(fs, k)
            case None => forall f :: f in fs ==> f.name != k
            case Some(f) => f in fs && f.name == k && forall g :: g in fs && g.name == k ==> g == f
  {
    if fs == [] {
    } else {
      assert UniqueNames(fs[1..]);
      FieldNamedIsUnique(fs[1..], k);
      assert fs == [fs[0]] + fs[1..];
    }
  }

  /** Scrubbing writes, at the key of each field that is present, that field's scrubbed value. */
  lemma {:induction false} ScrubbedField(schema: Schema, fs: seq<Field>, v: Json, out: map<string, Json>, f: Field)
    requires v.Obj? && UniqueNames(fs) && f in fs && FieldValue(schema, f, v).Some?
    ensures f.name in ScrubFields(schema, fs, v, out)
    ensures ScrubFields(schema, fs, v, out)[f.name] == FieldValue(schema, f, v).value
    decreases |fs|
  {
    assert UniqueNames(fs[1..]);
    if fs[0] == f {
      OtherFields(schema, fs[1..], v, out[f.name := FieldValue(schema, f, v).value], f.name);
    } else {
      var value := FieldValue(schema, fs[0], v);
      var out' := if value.Some? then out[fs[0].name := value.value] else out;
      ScrubbedField(schema, fs[1..], v, out', f);
    }
  }

  lemma {:induction false} OtherFields(schema: Schema, fs: seq<Field>, v: Json, out: map<string, Json>, k: string)
    requires v.Obj? && (forall f :: f in fs ==> f.name != k) && k in out
    ensures k in ScrubFields(schema, fs, v, out) && ScrubFields(schema, fs, v, out)[k] == out[k]
    decreases |fs|
  {
    if fs == [] {
    } else {
      var value := FieldValue(schema, fs[0], v);
      var out' := if value.Some? then out[fs[0].name := value.value] else out;
      OtherFields(schema, fs[1..], v, out', k);
    }
  }

  /** Every marked field that is present shows the placeholder and nothing else. */
  lemma MarkedFieldsAreReplaced(schema: Schema, d: Definition, v: Json, f: Field)
    requires v.Obj? && UniqueNames(d.fields) && f in d.fields && f.marked && f.name in v.fields
    ensures Get(Scrub(schema, d, v).value, [Key(f.name)]) == Some(Scalar("<scrubbed>"))
  {
    ScrubbedField(schema, d.fields, v, map[], f);
    assert [Key(f.name)][1..] == [];
  }

  lemma {:induction false} KeysOfFields(schema: Schema, fs: seq<Field>, v: Json, out: map<string, Json>, k: string)
    requires v.Obj? && k in ScrubFields(schema, fs, v, out)
    ensures k in out || (k in v.fields && exists f :: f in fs && f.name == k)
    decreases |fs|
  {
    if fs == [] {
    } else {
      var value := FieldValue(schema, fs[0], v);
      var out' := if value.Some? then out[fs[0].name := value.value] else out;
      KeysOfFields(schema, fs[1..], v, out', k);
      assert fs == [fs[0]] + fs[1..];
    }
  }

  /** A scrubbed object has only keys that the value has and the schema knows. */
  lemma OnlyKnownKeys(schema: Schema, d: Definition, v: Json, k: string)
    requires v.Obj? && k in Scrub(schema, d, v).value.fields
    ensures k in v.fields && exists f :: f in d.fields && f.name == k
  {
    KeysOfFields(schema, d.fields, v, map[], k);
  }

  lemma {:induction false} SurvivorPlace(schema: Schema, d: Definition, v: Json, from: nat, i: nat)
    requires v.Arr? && from <= i < |v.items| && Scrub(schema, d, v.items[i]).Some?
    ensures var at := Survivors(v.items, i) - Survivors(v.items, from);
            && 0 <= at < |ScrubItems(schema, d, v, from)|
            && ScrubItems(schema, d, v, from)[at] == Scrub(schema, d, v.items[i]).value
    decreases i - from
  {
    if from >= i {
    } else {
      SurvivorPlace(schema, d, v, from + 1, i);
    }
  }

  /** Every unmarked leaf that the schema knows is kept, at its place. */
  lemma {:induction false} LeavesAreKept(schema: Schema, d: Definition, v: Json, path: seq<Step>)
    requires WellFormed(schema) && UniqueNames(d.fields) && LeafPlace(schema, d, v, path).Some? && Get(v, path).Some?
    ensures Scrub(schema, d, v).Some?
    ensures Get(Scrub(schema, d, v).value, LeafPlace(schema, d, v, path).value) == Get(v, path)
    decreases |path|
  {
    var place := LeafPlace(schema, d, v, path).value;
    match path[0]
    case Key(k) =>
      FieldNamedIsUnique(d.fields, k);
      var f := FieldNamed(d.fields, k).value;
      if Lookup(schema, f.typ).Some? {
        LeavesAreKept(schema, Lookup(schema, f.typ).value, v.fields[k], path[1..]);
        assert place[1..] == LeafPlace(schema, Lookup(schema, f.typ).value, v.fields[k], path[1..]).value;
      }
      ScrubbedField(schema, d.fields, v, map[], f);
    case Index(i) =>
      LeavesAreKept(schema, d, v.items[i], path[1..]);
      assert place[1..] == LeafPlace(schema, d, v.items[i], path[1..]).value;
      SurvivorPlace(schema, d, v, 0, i);
  }

  /** The same for a path into the value of a variable; values without fields, and those the schema does not
      know, are kept whole. */
  function VariablePlace(schema: Schema, x: Variable, v: Json, path: seq<Step>): Option<seq<Step>> {
    match VariableDefinition(schema, x.typ)
    case None => Some(path)
    case Some(d) =>
      if d.marked then None
      else if d.fields == [] then Some(path)
      else LeafPlace(schema, d, v, path)
  }

  /** Every unmarked leaf in the variables of a request is kept, under the variable's name and at its place. */
  lemma RequestLeavesAreKept(schema: Schema, xs: seq<Variable>, vars: map<string, Json>, x: Variable, path: seq<Step>)
    requires WellFormed(schema) && UniqueVariables(xs) && x in xs && x.name in vars
    requires VariablePlace(schema, x, vars[x.name], path).Some? && Get(vars[x.name], path).Some?
    ensures var place := [Key(x.name)] + VariablePlace(schema, x, vars[x.name], path).value;
            Get(Obj(ScrubAll(schema, xs, vars, map[])), place) == Get(vars[x.name], path)
  {
    var def := VariableDefinition(schema, x.typ);
    if def.Some? && def.value.fields != [] {
      InSchema(schema, x.typ);
      LeavesAreKept(schema, def.value, vars[x.name], path);
    }
    ScrubbedVariable(schema, xs, vars, map[], x.name);
    var rest := VariablePlace(schema, x, vars[x.name], path).value;
    assert ([Key(x.name)] + rest)[1..] == rest;
  }

  lemma {:induction false} LeftOutVariable(schema: Schema, xs: seq<Variable>, vars: map<string, Json>,
                                           out: map<string, Json>, x: Variable)
    requires UniqueVariables(xs) && (x in xs ==> VariableValue(schema, x, vars) == None)
    requires x !in xs ==> forall y :: y in xs ==> y.name != x.name
    ensures x.name in ScrubAll(schema, xs, vars, out) <==> x.name in out
    decreases |xs|
  {
    if xs == [] {
    } else {
      assert UniqueVariables(xs[1..]) && xs == [xs[0]] + xs[1..];
      match VariableValue(schema, xs[0], vars)
      case None => LeftOutVariable(schema, xs[1..], vars, out, x);
      case Some(v) => LeftOutVariable(schema, xs[1..], vars, out[xs[0].name := v], x);
    }
  }

  /** A variable of a marked type shows the placeholder, supplied or not. A variable that is not supplied reads
      as null, unless its type has fields: then it is left out. Nothing but variables is put in. */
  lemma OutcomeOfVariable(schema: Schema, xs: seq<Variable>, vars: map<string, Json>, x: Variable)
    requires UniqueVariables(xs)
    ensures var def, out := VariableDefinition(schema, x.typ), ScrubAll(schema, xs, vars, map[]);
            && (x in xs && def.Some? && def.value.marked ==> x.name in out && out[x.name] == Scalar("<scrubbed>"))
            && (x in xs && x.name !in vars && (def.None? || (!def.value.marked && def.value.fields == [])) ==>
                  x.name in out && out[x.name] == Null)
            && (x in xs && x.name !in vars && def.Some? && !def.value.marked && def.value.fields != [] ==>
                  x.name !in out)
            && ((forall y :: y in xs ==> y.name != x.name) ==> x.name !in out)
  {
    ScrubbedVariable(schema, xs, vars, map[], x.name);
    if x in xs ==> VariableValue(schema, x, vars) == None {
      if x in xs || forall y :: y in xs ==> y.name != x.name {
        LeftOutVariable(schema, xs, vars, map[], x);
      }
    }
  }

  lemma InSchema(schema: Schema, t: Type)
    requires WellFormed(schema) && VariableDefinition(schema, t).Some?
    ensures UniqueNames(VariableDefinition(schema, t).value.fields)
  {
    ShallowVariable(schema, t);
  }
}
