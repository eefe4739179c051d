/** The environment context object of src/envctx.js: `extend` adds
    definitions to its table, `resolve` settles every defined variable. */
module EnvContext {
  import opened Outcomes
  import opened EnvTemplates
  import opened EnvDefs
  import opened EnvResolve

  /** The synchronous part of one call of a variable's resolver: parse
      the text and record, in order of first use, the local variables it
      refers to; stop at the first reference that cannot be resolved. */
  method Record(c: Context, self: string, text: string) returns (dep: seq<string>, err: Option<string>)
    ensures (dep, err) == ScanRefs(c, self, Segments(text), [])
  {
    var parsed := ParseEnvStr(text);
    dep := [];
    err := None;
    var i := 0;
    while i < |parsed|
      invariant 0 <= i <= |parsed|
      invariant forall k :: 0 <= k < |dep| ==> dep[k] in c.t.defs && dep[k] != self
      invariant forall a, b :: 0 <= a < b < |dep| ==> dep[a] != dep[b]
      invariant ScanRefs(c, self, parsed, []) == ScanRefs(c, self, parsed[i..], dep)
    {
      assert parsed[i..][1..] == parsed[i + 1..];
      match parsed[i] {
        case Text(_) =>
        case Var(n) =>
          if n in c.t.defs && n != self {
            if n !in dep { dep := dep + [n]; }
          } else if n !in c.parent {
            err := Some("Undefined env var: " + n);
            return;
          }
        case Command(cmd, _) =>
          if c.runner.None? {
            err := Some("No command runner to resolve: $(" + cmd + ")");
            return;
          }
      }
      i := i + 1;
    }
  }

  /** The dependencies recorded for `name` by the time the walk runs. */
  method Recorded(c: Context, name: string) returns (dep: seq<string>)
    requires name in c.t.defs
    ensures dep == RecordedDeps(c, name)
  {
    dep := [];
    if c.t.defs[name].value.Some? {
      var template := EagerTemplate(c.t.defs[name].value.value);
      if template.Some? {
        var err;
        dep, err := Record(c, name, template.value);
      }
    }
  }

  /** The walk that starts from the dependencies of one waiter, level by
      level, and reports a cycle when a name is met a second time. */
  method CheckCycle(g: Graph, name: string) returns (detected: bool)
    requires Closed(g) && name in g
    ensures detected == Detects(g, g[name], {})
  {
    var cycle: set<string> := {};
    var dep := g[name];
    detected := false;
    while dep != []
      invariant Within(g, dep) && cycle <= g.Keys
      invariant Detects(g, g[name], {}) == Detects(g, dep, cycle)
      decreases |g.Keys - cycle|, |dep|
    {
      var found, seen, newdeps := VisitLevel(g, dep, cycle);
      if found {
        detected := true;
        return;
      }
      assert dep[0] in seen - cycle;
      assert |g.Keys - seen| < |g.Keys - cycle| by {
        assert g.Keys - seen < g.Keys - cycle by { assert dep[0] in g.Keys - cycle; }
      }
      cycle, dep := seen, newdeps;
    }
  }

  /** One level of the walk: marks every name of the level as seen,
      notes whether one was seen before, and collects the next level. */
  method VisitLevel(g: Graph, dep: seq<string>, cycle: set<string>) returns (detected: bool, seen: set<string>, newdeps: seq<string>)
    requires Closed(g) && Within(g, dep)
    ensures detected == Revisits(dep, cycle)
    ensures seen == cycle + Elems(dep)
    ensures newdeps == Flatten(g, dep)
  {
    seen := cycle;
    detected := false;
    newdeps := [];
    var k := 0;
    while k < |dep|
      invariant 0 <= k <= |dep|
      invariant seen == cycle + Elems(dep[..k])
      invariant detected <==> exists j :: 0 <= j < k && (dep[j] in cycle || dep[j] in dep[..j])
      invariant Within(g, dep[..k]) && newdeps == Flatten(g, dep[..k])
    {
      assert dep[k] in seen <==> dep[k] in cycle || dep[k] in dep[..k] by {
        if dep[k] in Elems(dep[..k]) { ElemsIn(dep[..k], dep[k]); }
        if dep[k] in dep[..k] { InElems(dep[..k], dep[k]); }
      }
      detected := detected || dep[k] in seen;
      seen := seen + {dep[k]};
      FlattenSnoc(g, dep[..k], dep[k]);
      assert dep[..k + 1] == dep[..k] + [dep[k]];
      ElemsSnoc(dep[..k], dep[k]);
      newdeps := newdeps + g[dep[k]];
      k := k + 1;
    }
    assert dep[..k] == dep;
  }

  lemma ElemsIn(s: seq<string>, x: string)
    requires x in Elems(s)
    ensures x in s
  {
  }

  lemma InElems(s: seq<string>, x: string)
    requires x in s
    ensures x in Elems(s)
  {
    var k :| 0 <= k < |s| && s[k] == x;
  }

  lemma ElemsSnoc(s: seq<string>, x: string)
    ensures Elems(s + [x]) == Elems(s) + {x}
  {
    assert forall k :: 0 <= k < |s| ==> (s + [x])[k] == s[k];
    assert (s + [x])[|s|] == x;
  }

  lemma {:induction false} FlattenSnoc(g: Graph, level: seq<string>, x: string)
    requires Closed(g) && Within(g, level) && x in g
    ensures Within(g, level + [x])
    ensures Flatten(g, level + [x]) == Flatten(g, level) + g[x]
  {
    if level == [] {
      assert [x][1..] == [];
    } else {
      assert (level + [x])[1..] == level[1..] + [x];
      FlattenSnoc(g, level[1..], x);
    }
  }

  class EnvContext {
    /** The read-only parent environment. */
    const parent: map<string, string>
    /** The definitions accumulated by `extend`. */
    var table: Table
    /** The first error an extension threw: every later extension is
        skipped and `resolve` reports it. */
    var failure: Option<string>

    ghost predicate Valid()
      reads this
    {
      table.Valid()
    }

    /** `createEnvContext(parentEnv)`. */
    constructor (parent: map<string, string>)
      ensures Valid()
      ensures this.parent == parent && table == EmptyTable && failure == None
    {
      this.parent := parent;
      table := EmptyTable;
      failure := None;
    }

    /** `extend(map)`, chained after every earlier extension. */
    method Extend(c: EnvConfig)
      requires Valid()
      modifies this
      ensures Valid()
      ensures old(failure).Some? ==> table == old(table) && failure == old(failure)
      ensures old(failure).None? ==> (table, failure) == Apply(old(table), parent, c)
    {
      if failure.None? {
        failure := ExtendWith(c);
      }
    }

    /** `_extend`, to the end of all its rounds: the configurations
        returned by awaited functions are applied after everything
        synchronous, in the order their functions were called. */
    method ExtendWith(c: EnvConfig) returns (err: Option<string>)
      requires Valid()
      modifies this
      ensures Valid() && failure == old(failure)
      ensures (table, err) == Apply(old(table), parent, c)
    {
      var pending := [c];
      err := None;
      while pending != []
        invariant Valid() && failure == old(failure)
        invariant Apply(old(table), parent, c)
          == (var r := Rounds(table, parent, pending); (r.0, if err.Some? then err else r.1))
        decreases SizeAll(pending)
      {
        var e, next := SyncWith(EnvList(pending));
        if err.None? { err := e; }
        pending := next;
      }
    }

    /** The synchronous part of `_extend`: what runs before its first
        `await`. */
    method SyncWith(c: EnvConfig) returns (err: Option<string>, deferred: seq<EnvConfig>)
      requires Valid()
      modifies this
      ensures Valid() && failure == old(failure)
      ensures (table, err, deferred) == Sync(old(table), parent, c)
      decreases c
    {
      match c
      case EnvList(items) =>
        err, deferred := None, [];
        AppendEmpty(items);
        AppendEmpty(SyncAll(table, parent, items).2);
        var i := 0;
        while i < |items|
          invariant 0 <= i <= |items| && Valid() && failure == old(failure)
          invariant SyncAll(old(table), parent, items)
            == (var r := SyncAll(table, parent, items[i..]); (r.0, if err.Some? then err else r.1, deferred + r.2))
        {
          assert items[i..][1..] == items[i + 1..];
          var e, d := SyncWith(items[i]);
          Assoc(deferred, d, SyncAll(table, parent, items[i + 1..]).2);
          if err.None? { err := e; }
          deferred := deferred + d;
          i := i + 1;
        }
        AppendEmpty(deferred);
      case EnvFn(ret) =>
        err, deferred := None, [ret];
      case EnvName(key) =>
        err := AddAll([(key, Fields(None, None, None))]);
        deferred := [];
      case EnvMap(entries) =>
        err := AddAll(entries);
        deferred := [];
    }

    /** The loop over the keys of one map. */
    method AddAll(entries: seq<(string, EntryVal)>) returns (err: Option<string>)
      requires Valid()
      modifies this
      ensures Valid() && failure == old(failure)
      ensures (table, err) == AddEntries(old(table), parent, entries)
    {
      var i := 0;
      while i < |entries|
        invariant 0 <= i <= |entries| && Valid() && failure == old(failure)
        invariant AddEntries(old(table), parent, entries) == AddEntries(table, parent, entries[i..])
      {
        assert entries[i..][1..] == entries[i + 1..];
        match EntryDef(entries[i].0, entries[i].1) {
          case Err(m) =>
            return Some(m);
          case Ok(d) =>
            table := Add(table, parent, d);
        }
        i := i + 1;
      }
      return None;
    }

    /** `resolve(cmdrun)`. */
    method Resolve(runner: Option<Runner>) returns (r: Resolution)
      requires Valid()
      ensures r == if failure.Some? then Failed(failure.value) else ResolveTable(Context(table, parent, runner))
    {
      if failure.Some? {
        return Failed(failure.value);
      }
      var c := Context(table, parent, runner);
      assert forall k :: 0 <= k < |table.names| ==> table.names[k] in table.defs;
      var missing, waitlist := Admit(table, table.names);
      if missing.Some? {
        return Failed("Missing required env: " + missing.value);
      }
      var g := Dependencies(c);
      var rejected := RejectCircular(c, g);
      r := Await(c, rejected, waitlist);
    }
  }

  /** The first loop of `resolve`: the required-value check and the
      waitlist. */
  method Admit(t: Table, names: seq<string>) returns (missing: Option<string>, waitlist: seq<string>)
    requires forall k :: 0 <= k < |names| ==> names[k] in t.defs
    ensures missing == FirstMissing(t, names)
    ensures missing.None? ==> waitlist == Waitlist(t, names)
  {
    waitlist := [];
    var i := 0;
    AppendEmpty(names);
    AppendEmpty(Waitlist(t, names));
    while i < |names|
      invariant 0 <= i <= |names|
      invariant FirstMissing(t, names) == FirstMissing(t, names[i..])
      invariant Waitlist(t, names) == waitlist + Waitlist(t, names[i..])
    {
      var name := names[i];
      AdmitStep(t, names, i);
      if t.defs[name].value.None? && t.defs[name].required {
        return Some(name), waitlist;
      }
      if t.defs[name].value.Some? {
        Assoc(waitlist, [name], Waitlist(t, names[i + 1..]));
        waitlist := waitlist + [name];
      }
      i := i + 1;
    }
    assert names[i..] == [];
    missing := None;
  }

  /** The references every value records as it is processed, by name. */
  method Dependencies(c: Context) returns (g: Graph)
    requires c.Valid()
    ensures g == DepGraph(c)
  {
    var names := c.t.names;
    g := map[];
    var i := 0;
    while i < |names|
      invariant 0 <= i <= |names|
      invariant forall n :: n in g <==> n in names[..i]
      invariant forall n :: n in g ==> n in c.t.defs && g[n] == RecordedDeps(c, n)
    {
      assert names[..i + 1] == names[..i] + [names[i]];
      var dep := Recorded(c, names[i]);
      g := g[names[i] := dep];
      i := i + 1;
    }
    assert names[..i] == names;
    GraphComplete(c, g);
  }

  lemma AdmitStep(t: Table, names: seq<string>, i: nat)
    requires i < |names| && forall k :: 0 <= k < |names| ==> names[k] in t.defs
    ensures FirstMissing(t, names[i..])
      == if t.defs[names[i]].value.None? && t.defs[names[i]].required then Some(names[i]) else FirstMissing(t, names[i + 1..])
    ensures t.defs[names[i]].value.Some? ==> Waitlist(t, names[i..]) == [names[i]] + Waitlist(t, names[i + 1..])
    ensures t.defs[names[i]].value.None? ==> Waitlist(t, names[i..]) == Waitlist(t, names[i + 1..])
  {
    assert names[i..][1..] == names[i + 1..];
  }

  lemma GraphComplete(c: Context, g: Graph)
    requires c.Valid()
    requires forall n :: n in g <==> n in c.t.names
    requires forall n :: n in g ==> n in c.t.defs && g[n] == RecordedDeps(c, n)
    ensures g == DepGraph(c)
  {
  }

  /** The cycle walk from every waiter. */
  method RejectCircular(c: Context, g: Graph) returns (rejected: set<string>)
    requires c.Valid() && g == DepGraph(c)
    ensures rejected == Rejections(c)
  {
    var names := c.t.names;
    rejected := {};
    var i := 0;
    while i < |names|
      invariant 0 <= i <= |names|
      invariant rejected == set n | n in names[..i] && Detects(g, g[n], {})
    {
      var detected := CheckCycle(g, names[i]);
      assert names[..i + 1] == names[..i] + [names[i]];
      if detected {
        rejected := rejected + {names[i]};
      }
      i := i + 1;
    }
    assert names[..i] == names;
  }

  /** The last loop of `resolve`: awaiting every waiter in order. */
  method Await(c: Context, rejected: set<string>, waitlist: seq<string>) returns (r: Resolution)
    requires c.Valid()
    requires forall k :: 0 <= k < |waitlist| ==> waitlist[k] in c.t.defs && c.t.defs[waitlist[k]].value.Some?
    ensures r == Collect(waitlist, Settle(c, rejected, waitlist), [], map[])
  {
    ghost var outs := Settle(c, rejected, waitlist);
    var doneNames: seq<string> := [];
    var env: map<string, string> := map[];
    var k := 0;
    while k < |waitlist|
      invariant 0 <= k <= |waitlist|
      invariant Collect(waitlist, outs, [], map[]) == Collect(waitlist[k..], outs[k..], doneNames, env)
    {
      assert waitlist[k..][1..] == waitlist[k + 1..] && outs[k..][1..] == outs[k + 1..];
      match Eval(c, rejected, waitlist[k], {}) {
        case Fail(m) => return Failed(m);
        case Stuck => return Hangs;
        case Done(v) =>
          doneNames := doneNames + [waitlist[k]];
          env := env[waitlist[k] := v];
      }
      k := k + 1;
    }
    return Resolved(doneNames, env);
  }
}
