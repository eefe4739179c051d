/** Resolving the definition table of an environment context
    (src/envctx.js, `resolve`): the required-value check, the references
    each value records, the cycle walk, and the value each variable
    settles to. Promises are modelled by their outcome: a value, a
    rejection, or `Stuck` when a promise never settles, because it waits,
    directly or not, on itself or on a waiter that nothing settles. */
module EnvResolve {
  import opened Outcomes
  import opened EnvTemplates
  import opened EnvDefs

  /** `cmdrun(cmd, profile)`: the text the command prints, or its error. */
  type Runner = (string, Option<string>) -> Result<string>

  datatype Outcome = Done(text: string) | Fail(msg: string) | Stuck

  /** The answer of `resolve()`: the variables with a value in table
      order, a rejection, or a promise that never settles. */
  datatype Resolution = Resolved(names: seq<string>, env: map<string, string>) | Failed(msg: string) | Hangs

  /** Everything `resolve` reads: the table, the read-only parent
      environment and the command runner, if one was given. */
  datatype Context = Context(t: Table, parent: map<string, string>, runner: Option<Runner>) {
    ghost predicate Valid() { t.Valid() }
  }

  // ---------------------------------------------------------------------
  // References recorded while a value is parsed

  /** The references a pass over `segs` records for `self` (each local
      variable once, in order of first use, but never `self` itself, which
      refers to the parent), and the error it throws, if any, at the first
      reference to an unknown variable or the first command without a
      runner. */
  function ScanRefs(c: Context, self: string, segs: seq<Segment>, acc: seq<string>): (r: (seq<string>, Option<string>))
    requires forall k :: 0 <= k < |acc| ==> acc[k] in c.t.defs && acc[k] != self
    requires forall i, j :: 0 <= i < j < |acc| ==> acc[i] != acc[j]
    ensures |acc| <= |r.0| && r.0[..|acc|] == acc
    ensures forall k :: 0 <= k < |r.0| ==> r.0[k] in c.t.defs && r.0[k] != self
    ensures forall i, j :: 0 <= i < j < |r.0| ==> r.0[i] != r.0[j]
    decreases |segs|
  {
    if segs == [] then (acc, None)
    else match segs[0]
      case Text(_) => ScanRefs(c, self, segs[1..], acc)
      case Var(n) =>
        if n in c.t.defs && n != self then ScanRefs(c, self, segs[1..], if n in acc then acc else acc + [n])
        else if n in c.parent then ScanRefs(c, self, segs[1..], acc)
        else (acc, Some("Undefined env var: " + n))
      case Command(cmd, _) =>
        if c.runner.None? then (acc, Some("No command runner to resolve: $(" + cmd + ")"))
        else ScanRefs(c, self, segs[1..], acc)
  }

  /** The text a value hands to the context's resolver before the
      cycle walk runs: a literal at once, and the template of a producer
      that calls `ctx.resolve` at once; the text a producer returns is
      resolved only after it has been awaited. */
  function EagerTemplate(v: Value): Option<string> {
    match v
    case Literal(text) => Some(text)
    case ResolvesThen(template) => Some(template)
    case Returns(_) => None
  }

  /** The references recorded for `name` by the time the walk runs. */
  function RecordedDeps(c: Context, name: string): (deps: seq<string>)
    requires name in c.t.defs
    ensures forall k :: 0 <= k < |deps| ==> deps[k] in c.t.defs && deps[k] != name
  {
    match c.t.defs[name].value
    case None => []
    case Some(v) =>
      match EagerTemplate(v)
      case None => []
      case Some(text) => ScanRefs(c, name, Segments(text), []).0
  }

  /** Some value records `x` before the walk runs. Its waiter then exists
      when the final checks run, and they reject it when `x` has no value;
      the waiter of a name first met later is never rejected. */
  predicate Waited(c: Context, x: string) {
    exists m :: m in c.t.defs && x in RecordedDeps(c, m)
  }

  /** The error thrown while the value of `name` is first parsed, if any. */
  function EagerError(c: Context, name: string): Option<string>
    requires name in c.t.defs
  {
    match c.t.defs[name].value
    case None => None
    case Some(v) =>
      match EagerTemplate(v)
      case None => None
      case Some(text) => ScanRefs(c, name, Segments(text), []).1
  }

  // ---------------------------------------------------------------------
  // The cycle walk

  /** Which names each waiter depends on. */
  type Graph = map<string, seq<string>>

  ghost predicate Closed(g: Graph) {
    forall n :: n in g ==> forall k :: 0 <= k < |g[n]| ==> g[n][k] in g
  }

  predicate Within(g: Graph, level: seq<string>) {
    forall k :: 0 <= k < |level| ==> level[k] in g
  }

  function DepGraph(c: Context): (g: Graph)
    ensures g.Keys == c.t.defs.Keys
    ensures Closed(g)
  {
    map n | n in c.t.defs :: RecordedDeps(c, n)
  }

  /** The next level of the walk: the dependencies of every name of this
      level, concatenated (repeats included). */
  function Flatten(g: Graph, level: seq<string>): (next: seq<string>)
    requires Closed(g) && Within(g, level)
    ensures Within(g, next)
  {
    if level == [] then [] else g[level[0]] + Flatten(g, level[1..])
  }

  function Elems(level: seq<string>): set<string> {
    set k | 0 <= k < |level| :: level[k]
  }

  /** Some name of the level was seen on an earlier level or appears
      twice in this one. */
  predicate Revisits(level: seq<string>, seen: set<string>) {
    exists k :: 0 <= k < |level| && (level[k] in seen || level[k] in level[..k])
  }

  /** The walk of the source: level by level from a waiter's
      dependencies, reporting a cycle as soon as a name is met twice. */
  function Detects(g: Graph, level: seq<string>, seen: set<string>): bool
    requires Closed(g) && Within(g, level) && seen <= g.Keys
    decreases g.Keys - seen
  {
    if level == [] then false
    else if Revisits(level, seen) then true
    else
      assert level[0] in Elems(level) - seen;
      Detects(g, Flatten(g, level), seen + Elems(level))
  }

  /** The names the walk rejects as circular. */
  function Rejections(c: Context): (rej: set<string>)
    ensures rej <= c.t.defs.Keys
  {
    var g := DepGraph(c);
    set n | n in c.t.defs && Detects(g, g[n], {})
  }

  // ---------------------------------------------------------------------
  // The value each variable settles to

  /** The text a resolved piece contributes to the join: `p.val || p`
      turns an empty value into the piece object's own text. */
  function JoinPiece(v: string): string {
    if v == [] then "[object Object]" else v
  }

  /** `Promise.all` over the pieces: a rejection wins (the first in
      piece order), then a piece that never settles, then the join. */
  function Combine(outs: seq<Outcome>): (o: Outcome)
    ensures o.Fail? <==> exists k :: 0 <= k < |outs| && outs[k].Fail?
    ensures o.Stuck? <==> (exists k :: 0 <= k < |outs| && outs[k].Stuck?) && !(exists k :: 0 <= k < |outs| && outs[k].Fail?)
  {
    if outs == [] then Done([])
    else
      var rest := Combine(outs[1..]);
      match outs[0]
      case Fail(m) => Fail(m)
      case Stuck => if rest.Fail? then rest else Stuck
      case Done(v) => if rest.Done? then Done(v + rest.text) else rest
  }

  function Measure(c: Context, path: set<string>): nat {
    |c.t.defs.Keys - path|
  }

  /** Waiting on one more defined variable shrinks the measure. */
  lemma MeasureDrops(c: Context, path: set<string>, x: string)
    requires x in c.t.defs && x !in path
    ensures Measure(c, path + {x}) < Measure(c, path)
  {
    assert x in c.t.defs.Keys - path;
    assert c.t.defs.Keys - (path + {x}) == (c.t.defs.Keys - path) - {x};
  }

  /** The outcome of the promise of variable `name`, evaluated while the
      variables of `path` wait on it. */
  function Eval(c: Context, rej: set<string>, name: string, path: set<string>): Outcome
    requires c.Valid() && name in c.t.defs && c.t.defs[name].value.Some?
    decreases Measure(c, path), 0, 0
  {
    if name in rej then Fail("Circular dependency: " + name)
    else if EagerError(c, name).Some? then Fail(EagerError(c, name).value)
    else if name in path then Stuck
    else
      var inner := path + {name};
      MeasureDrops(c, path, name);
      match c.t.defs[name].value.value
      case Literal(text) => Pass(c, rej, name, text, inner)
      case Returns(text) => Pass(c, rej, name, text, inner)
      case ResolvesThen(template) =>
        match Pass(c, rej, name, template, inner)
        case Done(first) => Pass(c, rej, name, first, inner)
        case other => other
  }

  /** One call of the resolver of `self` on `text`: a reference to an
      unknown variable or a command without a runner throws before
      anything is awaited; otherwise the pieces are awaited together. */
  function Pass(c: Context, rej: set<string>, self: string, text: string, path: set<string>): Outcome
    requires c.Valid()
    decreases Measure(c, path), 2, 0
  {
    var segs := Segments(text);
    match ScanRefs(c, self, segs, []).1
    case Some(m) => Fail(m)
    case None => Combine(PieceOutcomes(c, rej, self, segs, path))
  }

  /** The outcome of each piece, in order. */
  function PieceOutcomes(c: Context, rej: set<string>, self: string, segs: seq<Segment>, path: set<string>): (outs: seq<Outcome>)
    requires c.Valid()
    ensures |outs| == |segs|
    decreases Measure(c, path), 1, |segs|
  {
    if segs == [] then []
    else [PieceOutcome(c, rej, self, segs[0], path)] + PieceOutcomes(c, rej, self, segs[1..], path)
  }

  /** The outcome of one piece. A reference to a variable of the table
      that has no value fails when the final checks rejected its waiter;
      when the waiter is first created later, by text resolved after the
      walk, nothing ever settles it. */
  function PieceOutcome(c: Context, rej: set<string>, self: string, seg: Segment, path: set<string>): Outcome
    requires c.Valid()
    decreases Measure(c, path), 1, 0
  {
    match seg
    case Text(text) => Done(text)
    case Var(n) =>
      if n in c.t.defs && n != self then
        if c.t.defs[n].value.None? then
          if Waited(c, n) then Fail("Undefined env var: " + n) else Stuck
        else match Eval(c, rej, n, path)
          case Done(v) => Done(JoinPiece(v))
          case other => other
      else if n in c.parent then Done(JoinPiece(c.parent[n]))
      else Fail("Undefined env var: " + n)
    case Command(cmd, profile) =>
      match c.runner
      case None => Fail("No command runner to resolve: $(" + cmd + ")")
      case Some(run) =>
        match run(cmd, profile)
        case Ok(v) => Done(JoinPiece(v))
        case Err(m) => Fail(m)
  }

  // ---------------------------------------------------------------------
  // resolve()

  /** The first name of the table without a value that is required. */
  function FirstMissing(t: Table, names: seq<string>): (m: Option<string>)
    requires forall k :: 0 <= k < |names| ==> names[k] in t.defs
    ensures m.Some? ==> m.value in names && t.defs[m.value].value.None? && t.defs[m.value].required
    ensures m.None? ==> forall k :: 0 <= k < |names| ==> t.defs[names[k]].value.Some? || !t.defs[names[k]].required
  {
    if names == [] then None
    else if t.defs[names[0]].value.None? && t.defs[names[0]].required then Some(names[0])
    else FirstMissing(t, names[1..])
  }

  /** The names with a value, in table order: the waitlist. */
  function Waitlist(t: Table, names: seq<string>): (w: seq<string>)
    requires forall k :: 0 <= k < |names| ==> names[k] in t.defs
    ensures forall k :: 0 <= k < |w| ==> w[k] in t.defs && t.defs[w[k]].value.Some?
  {
    if names == [] then []
    else (if t.defs[names[0]].value.Some? then [names[0]] else []) + Waitlist(t, names[1..])
  }

  /** The waitlist holds exactly the names with a value, each once when
      the names have no repeats. */
  lemma {:induction false} WaitlistExact(t: Table, names: seq<string>)
    requires forall k :: 0 <= k < |names| ==> names[k] in t.defs
    ensures forall n :: n in Waitlist(t, names) <==> n in names && t.defs[n].value.Some?
    ensures (forall i, j :: 0 <= i < j < |names| ==> names[i] != names[j])
      ==> forall i, j :: 0 <= i < j < |Waitlist(t, names)| ==> Waitlist(t, names)[i] != Waitlist(t, names)[j]
  {
    if names != [] {
      WaitlistExact(t, names[1..]);
      var w := Waitlist(t, names);
      var rest := Waitlist(t, names[1..]);
      assert forall n :: n in names <==> n == names[0] || n in names[1..] by {
        assert names == [names[0]] + names[1..];
      }
      if forall i, j :: 0 <= i < j < |names| ==> names[i] != names[j] {
        assert forall i, j :: 0 <= i < j < |names[1..]| ==> names[1..][i] != names[1..][j] by {
          forall i, j | 0 <= i < j < |names[1..]| ensures names[1..][i] != names[1..][j] {
            assert names[1..][i] == names[i + 1] && names[1..][j] == names[j + 1];
          }
        }
        assert names[0] !in names[1..] by {
          forall k | 0 <= k < |names[1..]| ensures names[1..][k] != names[0] { assert names[1..][k] == names[k + 1]; }
        }
        if t.defs[names[0]].value.Some? {
          forall i, j | 0 <= i < j < |w| ensures w[i] != w[j] {
            if i == 0 { assert w[j] == rest[j - 1]; assert rest[j - 1] in rest; }
            else { assert w[i] == rest[i - 1] && w[j] == rest[j - 1]; }
          }
        }
      }
    }
  }

  /** The outcome of every variable of the waitlist, in order. */
  function Settle(c: Context, rej: set<string>, waitlist: seq<string>): (outs: seq<Outcome>)
    requires c.Valid()
    requires forall k :: 0 <= k < |waitlist| ==> waitlist[k] in c.t.defs && c.t.defs[waitlist[k]].value.Some?
  {
    seq(|waitlist|, k requires 0 <= k < |waitlist| => Eval(c, rej, waitlist[k], {}))
  }

  /** Awaiting the waitlist in order, adding each value to the
      environment: the first rejection or the first promise that never
      settles decides. */
  function Collect(names: seq<string>, outs: seq<Outcome>, doneNames: seq<string>, env: map<string, string>): (r: Resolution)
    requires |names| == |outs|
  {
    if names == [] then Resolved(doneNames, env)
    else match outs[0]
      case Fail(m) => Failed(m)
      case Stuck => Hangs
      case Done(v) => Collect(names[1..], outs[1..], doneNames + [names[0]], env[names[0] := v])
  }

  predicate AllDone(outs: seq<Outcome>) {
    forall k :: 0 <= k < |outs| ==> outs[k].Done?
  }

  /** When every promise settles to a value, the resolved environment
      holds exactly the waitlist (which has no repeats), each name with the
      value of its own promise. */
  lemma {:induction false} CollectResolved(names: seq<string>, outs: seq<Outcome>, doneNames: seq<string>, env: map<string, string>)
    requires |names| == |outs| && AllDone(outs)
    requires forall i, j :: 0 <= i < j < |names| ==> names[i] != names[j]
    ensures Collect(names, outs, doneNames, env).Resolved?
    ensures Collect(names, outs, doneNames, env).names == doneNames + names
    ensures Collect(names, outs, doneNames, env).env.Keys == env.Keys + Elems(names)
    ensures forall k :: 0 <= k < |names| ==> outs[k] == Done(Collect(names, outs, doneNames, env).env[names[k]])
    ensures forall n :: n in env && n !in Elems(names) ==> Collect(names, outs, doneNames, env).env[n] == env[n]
  {
    if names != [] {
      assert AllDone(outs[1..]) by {
        forall k | 0 <= k < |outs[1..]| ensures outs[1..][k].Done? { assert outs[1..][k] == outs[k + 1]; }
      }
      var env1 := env[names[0] := outs[0].text];
      CollectResolved(names[1..], outs[1..], doneNames + [names[0]], env1);
      assert Elems(names) == {names[0]} + Elems(names[1..]);
      assert doneNames + [names[0]] + names[1..] == doneNames + names;
      var r := Collect(names, outs, doneNames, env).env;
      assert names[0] !in Elems(names[1..]);
      forall k | 0 <= k < |names|
        ensures outs[k] == Done(r[names[k]])
      {
        if k > 0 { assert names[k] == names[1..][k - 1]; }
      }
    }
  }

  /** Otherwise the answer comes from the first outcome that is not a
      value: its rejection, or a hang. */
  lemma {:induction false} CollectStops(names: seq<string>, outs: seq<Outcome>, doneNames: seq<string>, env: map<string, string>, j: nat)
    requires |names| == |outs| && j < |outs| && !outs[j].Done?
    requires forall k :: 0 <= k < j ==> outs[k].Done?
    ensures Collect(names, outs, doneNames, env) == if outs[j].Fail? then Failed(outs[j].msg) else Hangs
  {
    if j > 0 {
      CollectStops(names[1..], outs[1..], doneNames + [names[0]], env[names[0] := outs[0].text], j - 1);
    }
  }

  /** `resolve()` with the variables of `rej` rejected as circular. */
  function ResolveWith(c: Context, rej: set<string>): Resolution
    requires c.Valid()
  {
    match FirstMissing(c.t, c.t.names)
    case Some(n) => Failed("Missing required env: " + n)
    case None =>
      var w := Waitlist(c.t, c.t.names);
      Collect(w, Settle(c, rej, w), [], map[])
  }

  /** `resolve()`, on the table built by the extensions. */
  function ResolveTable(c: Context): Resolution
    requires c.Valid()
  {
    ResolveWith(c, Rejections(c))
  }

  /** When every variable with a value settles to one, `resolve` yields
      exactly those variables, in table order, each with its value; a
      variable of the parent environment is never among them unless an
      extension defined it. */
  lemma ResolvedEnv(c: Context)
    requires c.Valid() && FirstMissing(c.t, c.t.names).None?
    requires forall n :: n in c.t.defs && c.t.defs[n].value.Some? ==> Eval(c, Rejections(c), n, {}).Done?
    ensures ResolveTable(c).Resolved?
    ensures ResolveTable(c).names == Waitlist(c.t, c.t.names)
    ensures forall n :: n in ResolveTable(c).env <==> n in c.t.defs && c.t.defs[n].value.Some?
    ensures forall n :: n in ResolveTable(c).env ==> Eval(c, Rejections(c), n, {}) == Done(ResolveTable(c).env[n])
  {
    var names := c.t.names;
    assert forall k :: 0 <= k < |names| ==> names[k] in c.t.defs;
    var w := Waitlist(c.t, names);
    var outs := Settle(c, Rejections(c), w);
    WaitlistExact(c.t, names);
    assert AllDone(outs);
    CollectFromEmpty(w, outs);
    var r := Collect(w, outs, [], map[]);
    assert ResolveTable(c) == r;
    forall n | n in r.env ensures Eval(c, Rejections(c), n, {}) == Done(r.env[n]) {
      var k :| 0 <= k < |w| && w[k] == n;
      assert outs[k] == Eval(c, Rejections(c), w[k], {});
    }
  }

  /** Collecting a whole waitlist whose promises all settle to values. */
  lemma CollectFromEmpty(w: seq<string>, outs: seq<Outcome>)
    requires |w| == |outs| && AllDone(outs)
    requires forall i, j :: 0 <= i < j < |w| ==> w[i] != w[j]
    ensures var r := Collect(w, outs, [], map[]);
            && r.Resolved? && r.names == w
            && (forall n :: n in r.env <==> n in w)
            && (forall n :: n in r.env ==> exists k :: 0 <= k < |w| && w[k] == n && outs[k] == Done(r.env[n]))
  {
    CollectResolved(w, outs, [], map[]);
    AppendEmpty(w);
    var r := Collect(w, outs, [], map[]);
    forall n ensures n in r.env <==> n in w {
      if n in w {
        var k :| 0 <= k < |w| && w[k] == n;
        assert n in Elems(w);
      }
    }
  }

  /** Otherwise the first waiter in table order that does not settle to a
      value decides: its rejection, or a hang. */
  lemma ResolveStops(c: Context, j: nat)
    requires c.Valid() && FirstMissing(c.t, c.t.names).None?
    requires forall k :: 0 <= k < |c.t.names| ==> c.t.names[k] in c.t.defs
    requires j < |Waitlist(c.t, c.t.names)|
    requires !Eval(c, Rejections(c), Waitlist(c.t, c.t.names)[j], {}).Done?
    requires forall k :: 0 <= k < j ==> Eval(c, Rejections(c), Waitlist(c.t, c.t.names)[k], {}).Done?
    ensures ResolveTable(c) == match Eval(c, Rejections(c), Waitlist(c.t, c.t.names)[j], {})
      case Fail(m) => Failed(m)
      case _ => Hangs
  {
    var w := Waitlist(c.t, c.t.names);
    CollectStops(w, Settle(c, Rejections(c), w), [], map[], j);
  }
}
