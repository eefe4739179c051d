/** Environment definitions and how `extend` accumulates them in the
    environment context (src/envctx.js, `parseEnvKey` and `_extend`). */
module EnvDefs {
  import opened Outcomes

  /** The value of a definition. Producer functions are represented by
      what they do with the context: return a text, or return the result
      of `ctx.resolve(template)`. */
  datatype Value =
    | Literal(text: string)         // a string, number or boolean: its `${val}` text
    | Returns(text: string)         // `(ctx) => text`, synchronous or not
    | ResolvesThen(template: string) // `(ctx) => ctx.resolve(template)`

  /** A stored definition: whether it must have a value, and the value. */
  datatype Def = Def(required: bool, value: Option<Value>)

  /** The flags encoded in a key: `[NAME]` or `NAME?` is optional, `NAME!`
      overrides a variable of the parent environment. */
  datatype KeyDef = KeyDef(name: string, required: bool, override: bool)

  /** A definition on its way into the table; `value` is `None` when the
      configuration did not mention a value, `Some(None)` when it set it to
      `undefined`. */
  datatype Incoming = Incoming(name: string, required: bool, override: bool, value: Option<Option<Value>>)

  /** The value side of one entry of a configuration map. */
  datatype EntryVal =
    | Scalar(text: string)                      // string, number, boolean
    | Producer(producer: Value)                 // a function
    | Undefined                                 // `undefined`
    | Null                                      // `null`: an object for `typeof`, so nothing is assigned
    | Fields(required: Option<bool>, override: Option<bool>, value: Option<Option<Value>>) // an object definition

  /** What `extend` accepts. */
  datatype EnvConfig =
    | EnvList(items: seq<EnvConfig>)
    | EnvFn(result: EnvConfig)                 // a function, by the configuration it returns
    | EnvName(key: string)
    | EnvMap(entries: seq<(string, EntryVal)>)

  /** The definitions in the order in which they were first added. */
  datatype Table = Table(names: seq<string>, defs: map<string, Def>) {
    ghost predicate Valid() {
      (forall i, j :: 0 <= i < j < |names| ==> names[i] != names[j])
      && (forall n :: n in defs <==> n in names)
    }
  }

  const EmptyTable := Table([], map[])

  /** `parseEnvKey`. */
  function ParseEnvKey(key: string): (r: Result<KeyDef>)
    ensures r.Err? <==> key == [] || key == "?" || key == "!" || key == "[]"
    ensures r.Err? ==> r.msg == "Empty environment variable name"
    ensures r.Ok? ==> r.value.name != [] && !(r.value.override && !r.value.required)
  {
    var kd :=
      if |key| > 1 && key[0] == '[' && key[|key| - 1] == ']' then KeyDef(key[1..|key| - 1], false, false)
      else if |key| > 0 && key[|key| - 1] == '?' then KeyDef(key[..|key| - 1], false, false)
      else if |key| > 0 && key[|key| - 1] == '!' then KeyDef(key[..|key| - 1], true, true)
      else KeyDef(key, true, false);
    if kd.name == [] then Err("Empty environment variable name") else Ok(kd)
  }

  /** A decorated key gives back the name and the flags it encodes. */
  lemma ParseEnvKeyDecorations(name: string)
    requires name != []
    ensures ParseEnvKey("[" + name + "]") == Ok(KeyDef(name, false, false))
    ensures ParseEnvKey(name + "?") == Ok(KeyDef(name, false, false))
    ensures ParseEnvKey(name + "!") == Ok(KeyDef(name, true, true))
    ensures name[|name| - 1] != '?' && name[|name| - 1] != '!' && !(name[0] == '[' && name[|name| - 1] == ']')
            ==> ParseEnvKey(name) == Ok(KeyDef(name, true, false))
  {
    var b := "[" + name + "]";
    assert b[1..|b| - 1] == name;
    assert (name + "?")[..|name|] == name;
    assert (name + "!")[..|name|] == name;
    if name[|name| - 1] == ']' {
      assert |name + "?"| > 1 && (name + "?")[|name|] == '?';
    }
  }

  /** Only a trailing `!` sets the override flag of a key. */
  lemma OverrideKey(key: string)
    ensures ParseEnvKey(key).Ok? && ParseEnvKey(key).value.override ==> key == ParseEnvKey(key).value.name + "!"
  {
    if |key| > 0 && key[|key| - 1] == '!' {
      assert key == key[..|key| - 1] + "!";
    }
  }

  /** The definition one map entry makes: the key's flags, then the value
      assigned over them. A plain value also sets `required`, so that
      `'NAME?': 'x'` is required after all. */
  function EntryDef(key: string, v: EntryVal): (r: Result<Incoming>)
    ensures r.Err? <==> ParseEnvKey(key).Err?
    ensures r.Ok? ==> r.value.name == ParseEnvKey(key).value.name
    ensures r.Ok? && (v.Scalar? || v.Producer? || v.Undefined?) ==> r.value.required
  {
    match ParseEnvKey(key)
    case Err(m) => Err(m)
    case Ok(kd) =>
      var base := Incoming(kd.name, kd.required, kd.override, None);
      Ok(match v
        case Scalar(t) => base.(required := true, value := Some(Some(Literal(t))))
        case Producer(p) => base.(required := true, value := Some(Some(p)))
        case Undefined => base.(required := true, value := Some(None))
        case Null => base
        case Fields(req, ovr, val) =>
          Incoming(kd.name,
                   if req.Some? then req.value else kd.required,
                   if ovr.Some? then ovr.value else kd.override,
                   val))
  }

  /** Adding one definition: an existing name takes the fields the new
      definition sets; a new name is skipped when the parent environment
      has it and the definition does not override it; otherwise it is
      appended. */
  function Add(t: Table, parent: map<string, string>, d: Incoming): (r: Table)
    requires t.Valid()
    ensures r.Valid()
    ensures d.name in t.defs ==> r.names == t.names
    ensures d.name !in t.defs && !d.override && d.name in parent ==> r == t
    ensures d.name !in t.defs && (d.override || d.name !in parent) ==> r.names == t.names + [d.name]
    ensures d.name in r.defs ==> r.defs[d.name].required == d.required
    ensures d.name in r.defs && d.value.Some? ==> r.defs[d.name].value == d.value.value
    ensures d.name in t.defs && d.value.None? ==> r.defs[d.name].value == t.defs[d.name].value
    ensures d.name !in t.defs && d.name in r.defs && d.value.None? ==> r.defs[d.name].value == None
    ensures forall n :: n != d.name ==> (n in r.defs <==> n in t.defs) && (n in t.defs ==> r.defs[n] == t.defs[n])
  {
    if d.name in t.defs then
      var old_ := t.defs[d.name];
      Table(t.names, t.defs[d.name := Def(d.required, if d.value.Some? then d.value.value else old_.value)])
    else if !d.override && d.name in parent then t
    else Table(t.names + [d.name], t.defs[d.name := Def(d.required, if d.value.Some? then d.value.value else None)])
  }

  /** The entries of a map in order; the first bad key aborts the rest. */
  function AddEntries(t: Table, parent: map<string, string>, entries: seq<(string, EntryVal)>): (r: (Table, Option<string>))
    requires t.Valid()
    ensures r.0.Valid()
    decreases |entries|
  {
    if entries == [] then (t, None)
    else match EntryDef(entries[0].0, entries[0].1)
      case Err(m) => (t, Some(m))
      case Ok(d) => AddEntries(Add(t, parent, d), parent, entries[1..])
  }

  /** The number of constructors in a configuration. */
  function Size(c: EnvConfig): nat
    decreases c, 1
  {
    match c
    case EnvList(items) => 1 + SizeAll(items)
    case EnvFn(ret) => 1 + Size(ret)
    case EnvName(_) => 1
    case EnvMap(_) => 1
  }

  function SizeAll(items: seq<EnvConfig>): nat
    decreases items, 0
  {
    if items == [] then 0 else Size(items[0]) + SizeAll(items[1..])
  }

  lemma {:induction false} SizeAppend(a: seq<EnvConfig>, b: seq<EnvConfig>)
    ensures SizeAll(a + b) == SizeAll(a) + SizeAll(b)
    decreases |a|
  {
    if a == [] {
      assert a + b == b;
    } else {
      assert (a + b)[0] == a[0] && (a + b)[1..] == a[1..] + b;
      SizeAppend(a[1..], b);
    }
  }

  /** The synchronous part of `_extend`: the members of a list, names and
      maps are applied at once, in order; a function's configuration is
      only available after `await map(ctx)`, so it is handed back, in
      order, to be applied afterwards. The first error is reported. */
  function Sync(t: Table, parent: map<string, string>, c: EnvConfig): (r: (Table, Option<string>, seq<EnvConfig>))
    requires t.Valid()
    ensures r.0.Valid()
    ensures SizeAll(r.2) < Size(c)
    decreases c, 1
  {
    match c
    case EnvList(items) => SyncAll(t, parent, items)
    case EnvFn(ret) => assert [ret][1..] == []; (t, None, [ret])
    case EnvName(key) =>
      var (t1, e) := AddEntries(t, parent, [(key, Fields(None, None, None))]);
      (t1, e, [])
    case EnvMap(entries) =>
      var (t1, e) := AddEntries(t, parent, entries);
      (t1, e, [])
  }

  function SyncAll(t: Table, parent: map<string, string>, items: seq<EnvConfig>): (r: (Table, Option<string>, seq<EnvConfig>))
    requires t.Valid()
    ensures r.0.Valid()
    ensures SizeAll(r.2) <= SizeAll(items)
    ensures items != [] ==> SizeAll(r.2) < SizeAll(items)
    decreases items, 0
  {
    if items == [] then (t, None, [])
    else
      var (t1, e1, d1) := Sync(t, parent, items[0]);
      var (t2, e2, d2) := SyncAll(t1, parent, items[1..]);
      SizeAppend(d1, d2);
      (t2, if e1.Some? then e1 else e2, d1 + d2)
  }

  /** The configurations still waiting are applied round after round:
      each round applies the synchronous part of every waiting
      configuration, in order, and collects the next round's. */
  function Rounds(t: Table, parent: map<string, string>, pending: seq<EnvConfig>): (r: (Table, Option<string>))
    requires t.Valid()
    ensures r.0.Valid()
    decreases SizeAll(pending)
  {
    if pending == [] then (t, None)
    else
      var (t1, e1, next) := SyncAll(t, parent, pending);
      var (t2, e2) := Rounds(t1, parent, next);
      (t2, if e1.Some? then e1 else e2)
  }

  /** `_extend` of one configuration, to the end of all its rounds. */
  function Apply(t: Table, parent: map<string, string>, c: EnvConfig): (r: (Table, Option<string>))
    requires t.Valid()
    ensures r.0.Valid()
  {
    Rounds(t, parent, [c])
  }

  /** Some entry of `c` defines `name` with the override flag. */
  predicate Overrides(c: EnvConfig, name: string)
    decreases c, 1
  {
    match c
    case EnvList(items) => OverridesSome(items, name)
    case EnvFn(ret) => Overrides(ret, name)
    case EnvName(key) => key == name + "!"
    case EnvMap(entries) => exists k :: 0 <= k < |entries| && EntryOverrides(entries[k], name)
  }

  predicate OverridesSome(items: seq<EnvConfig>, name: string)
    decreases items, 0
  {
    items != [] && (Overrides(items[0], name) || OverridesSome(items[1..], name))
  }

  predicate EntryOverrides(entry: (string, EntryVal), name: string) {
    var r := EntryDef(entry.0, entry.1);
    r.Ok? && r.value.name == name && r.value.override
  }

  lemma {:induction false} EntriesKeepOut(t: Table, parent: map<string, string>, entries: seq<(string, EntryVal)>, name: string)
    requires t.Valid() && name in parent && name !in t.defs
    requires forall k :: 0 <= k < |entries| ==> !EntryOverrides(entries[k], name)
    ensures name !in AddEntries(t, parent, entries).0.defs
    decreases |entries|
  {
    if entries != [] {
      match EntryDef(entries[0].0, entries[0].1)
      case Err(_) =>
      case Ok(d) =>
        assert !EntryOverrides(entries[0], name);
        EntriesKeepOut(Add(t, parent, d), parent, entries[1..], name);
    }
  }

  lemma {:induction false} OverridesAppend(a: seq<EnvConfig>, b: seq<EnvConfig>, name: string)
    ensures OverridesSome(a + b, name) <==> OverridesSome(a, name) || OverridesSome(b, name)
    decreases |a|
  {
    if a == [] {
      assert a + b == b;
    } else {
      assert (a + b)[0] == a[0] && (a + b)[1..] == a[1..] + b;
      OverridesAppend(a[1..], b, name);
    }
  }

  /** The synchronous part keeps the name out, and nothing it hands on
      overrides it. */
  lemma {:induction false} SyncKeepsOut(t: Table, parent: map<string, string>, c: EnvConfig, name: string)
    requires t.Valid() && name in parent && name !in t.defs && !Overrides(c, name)
    ensures name !in Sync(t, parent, c).0.defs && !OverridesSome(Sync(t, parent, c).2, name)
    decreases c, 1
  {
    match c
    case EnvList(items) => SyncAllKeepsOut(t, parent, items, name);
    case EnvFn(ret) => assert [ret][1..] == [];
    case EnvName(key) =>
      OverrideKey(key);
      EntriesKeepOut(t, parent, [(key, Fields(None, None, None))], name);
    case EnvMap(entries) => EntriesKeepOut(t, parent, entries, name);
  }

  lemma {:induction false} SyncAllKeepsOut(t: Table, parent: map<string, string>, items: seq<EnvConfig>, name: string)
    requires t.Valid() && name in parent && name !in t.defs && !OverridesSome(items, name)
    ensures name !in SyncAll(t, parent, items).0.defs && !OverridesSome(SyncAll(t, parent, items).2, name)
    decreases items, 0
  {
    if items != [] {
      var (t1, e1, d1) := Sync(t, parent, items[0]);
      SyncKeepsOut(t, parent, items[0], name);
      SyncAllKeepsOut(t1, parent, items[1..], name);
      OverridesAppend(d1, SyncAll(t1, parent, items[1..]).2, name);
    }
  }

  lemma {:induction false} RoundsKeepOut(t: Table, parent: map<string, string>, pending: seq<EnvConfig>, name: string)
    requires t.Valid() && name in parent && name !in t.defs && !OverridesSome(pending, name)
    ensures name !in Rounds(t, parent, pending).0.defs
    decreases SizeAll(pending)
  {
    if pending != [] {
      SyncAllKeepsOut(t, parent, pending, name);
      var (t1, e1, next) := SyncAll(t, parent, pending);
      RoundsKeepOut(t1, parent, next, name);
    }
  }

  /** A variable of the parent environment enters the table only through
      a definition that overrides it: whatever is extended, a name the
      parent has and no entry overrides stays out of the table (and so
      out of the resolved environment). */
  lemma ParentKeptUnlessOverridden(t: Table, parent: map<string, string>, c: EnvConfig, name: string)
    requires t.Valid() && name in parent && name !in t.defs && !Overrides(c, name)
    ensures name !in Apply(t, parent, c).0.defs
  {
    assert [c][1..] == [];
    RoundsKeepOut(t, parent, [c], name);
  }

  /** A map alone is applied in one round. */
  lemma ApplyMap(t: Table, parent: map<string, string>, entries: seq<(string, EntryVal)>)
    requires t.Valid()
    ensures Apply(t, parent, EnvMap(entries)) == AddEntries(t, parent, entries)
  {
    RoundsOne(t, parent, EnvMap(entries));
  }

  /** A map with one good key adds its definition. */
  lemma SingleEntry(t: Table, parent: map<string, string>, e: (string, EntryVal))
    requires t.Valid() && EntryDef(e.0, e.1).Ok?
    ensures AddEntries(t, parent, [e]) == (Add(t, parent, EntryDef(e.0, e.1).value), None)
  {
    assert [e][1..] == [];
  }

  lemma PortEntry(x: string)
    ensures EntryDef("PORT", Scalar(x)) == Ok(Incoming("PORT", true, false, Some(Some(Literal(x)))))
  {
    assert ParseEnvKey("PORT") == Ok(KeyDef("PORT", true, false));
  }

  lemma SyncPair(t: Table, parent: map<string, string>, x: EnvConfig, y: EnvConfig)
    requires t.Valid()
    ensures var (t1, e1, d1) := Sync(t, parent, x);
            var (t2, e2, d2) := Sync(t1, parent, y);
            SyncAll(t, parent, [x, y]) == (t2, if e1.Some? then e1 else e2, d1 + d2)
  {
    var r1 := Sync(t, parent, x);
    assert [x, y][1..] == [y] && [y][1..] == [];
    var r2 := Sync(r1.0, parent, y);
    AppendEmpty(r2.2);
    assert SyncAll(r2.0, parent, []) == (r2.0, None, []);
    assert SyncAll(r1.0, parent, [y]) == r2;
  }

  lemma RoundsOne(t: Table, parent: map<string, string>, c: EnvConfig)
    requires t.Valid()
    ensures var (t1, e1, next) := Sync(t, parent, c);
            var (t2, e2) := Rounds(t1, parent, next);
            Rounds(t, parent, [c]) == (t2, if e1.Some? then e1 else e2)
  {
    assert [c][1..] == [];
    var r := Sync(t, parent, c);
    AppendEmpty(r.2);
    assert SyncAll(r.0, parent, []) == (r.0, None, []);
    assert SyncAll(t, parent, [c]) == r;
  }

  function PortTable(x: string): Table {
    Table(["PORT"], map["PORT" := Def(true, Some(Literal(x)))])
  }

  lemma PortAdded(parent: map<string, string>, x: string)
    requires "PORT" !in parent
    ensures Sync(EmptyTable, parent, EnvMap([("PORT", Scalar(x))])) == (PortTable(x), None, [])
  {
    PortEntry(x);
    SingleEntry(EmptyTable, parent, ("PORT", Scalar(x)));
    assert [] + ["PORT"] == ["PORT"];
  }

  lemma PortMerged(parent: map<string, string>, x: string, y: string)
    ensures Sync(PortTable(y), parent, EnvMap([("PORT", Scalar(x))])) == (PortTable(x), None, [])
  {
    PortEntry(x);
    SingleEntry(PortTable(y), parent, ("PORT", Scalar(x)));
    assert PortTable(y).defs["PORT" := Def(true, Some(Literal(x)))] == PortTable(x).defs;
  }

  /** A function's configuration is applied after the maps that follow it
      in the same list: in `[ctx => ({PORT: a}), {PORT: b}]` the map sets
      `b` first and the function's `a` is merged over it. */
  lemma FunctionAppliedLast(parent: map<string, string>, a: string, b: string)
    requires "PORT" !in parent
    ensures Apply(EmptyTable, parent, EnvList([EnvFn(EnvMap([("PORT", Scalar(a))])), EnvMap([("PORT", Scalar(b))])]))
            == (PortTable(a), None)
  {
    var ma := EnvMap([("PORT", Scalar(a))]);
    var mb := EnvMap([("PORT", Scalar(b))]);
    PortAdded(parent, b);
    PortMerged(parent, a, b);
    SyncPair(EmptyTable, parent, EnvFn(ma), mb);
    assert [ma] + [] == [ma];
    RoundsOne(EmptyTable, parent, EnvList([EnvFn(ma), mb]));
    RoundsOne(PortTable(b), parent, ma);
  }
}
