/** The behaviour the environment context's own tests describe
    (src/__tests__/envctx.test.js), stated over the model: a map is
    applied to an empty table, and the table is resolved. */
module EnvExamples {
  import opened Outcomes
  import opened Backtrack
  import opened EnvTemplates
  import opened EnvDefs
  import opened EnvResolve
  import opened EnvCycles

  // ---------------------------------------------------------------------
  // Parsing values with one reference

  predicate WordName(name: string) {
    name != [] && forall k :: 0 <= k < |name| ==> IsWordChar(name[k])
  }

  predicate BraceName(name: string) {
    name != [] && forall k :: 0 <= k < |name| ==> InBraces(name[k])
  }

  lemma NoDollarNoRef(s: string, i: nat)
    requires i <= |s| && forall q :: i <= q < |s| ==> s[q] != '$'
    ensures NextRef(s, i).None?
  {
  }

  /** A bare `$NAME` at `i` is matched whole. */
  lemma BareAt(s: string, i: nat, name: string)
    requires WordName(name) && i + 1 + |name| <= |s| && s[i] == '$' && s[i + 1..i + 1 + |name|] == name
    requires i + 1 + |name| < |s| ==> !IsWordChar(s[i + 1 + |name|])
    ensures RefEnd(s, i) == Some(i + 1 + |name|)
    ensures NextRef(s, i) == Some(i)
    ensures TokenList(s, i, i + 1 + |name|) == [Var(name)]
  {
    assert s[i + 1] == name[0];
    forall k | i + 1 <= k < i + 1 + |name| ensures IsWordChar(s[k]) { assert s[k] == name[k - i - 1]; }
    RunEndIs(IsWordChar, s, i + 1, i + 1 + |name|);
  }

  /** A braced `${NAME}` at `i` is matched whole. */
  lemma BraceAt(s: string, i: nat, name: string)
    requires BraceName(name) && i + 3 + |name| <= |s| && s[i] == '$' && s[i + 1] == '{'
    requires s[i + 2..i + 2 + |name|] == name && s[i + 2 + |name|] == '}'
    ensures RefEnd(s, i) == Some(i + 3 + |name|)
    ensures NextRef(s, i) == Some(i)
    ensures TokenList(s, i, i + 3 + |name|) == [Var(name)]
  {
    forall k | i + 2 <= k < i + 2 + |name| ensures InBraces(s[k]) { assert s[k] == name[k - i - 2]; }
    RunEndIs(InBraces, s, i + 2, i + 2 + |name|);
  }

  /** `$NAME` followed by text that cannot continue the name. */
  lemma BareThenText(name: string, rest: string)
    requires WordName(name) && '$' !in rest && (rest != [] ==> !IsWordChar(rest[0]))
    ensures Segments("$" + name + rest) == [Var(name)] + (if rest == [] then [] else [Text(rest)])
  {
    var s := "$" + name + rest;
    var e := 1 + |name|;
    assert s[1..e] == name && s[e..|s|] == rest;
    BareAt(s, 0, name);
    ScanStep(s, 0, 0);
    NoDollarNoRef(s, e);
    ScanEnd(s, e);
  }

  /** `${NAME}` followed by text. */
  lemma BraceThenText(name: string, rest: string)
    requires BraceName(name) && '$' !in rest
    ensures Segments("${" + name + "}" + rest) == [Var(name)] + (if rest == [] then [] else [Text(rest)])
  {
    var s := "${" + name + "}" + rest;
    var e := 3 + |name|;
    assert s[2..2 + |name|] == name && s[e..|s|] == rest;
    BraceAt(s, 0, name);
    ScanStep(s, 0, 0);
    NoDollarNoRef(s, e);
    ScanEnd(s, e);
  }

  /** Two bare references in a row. */
  lemma TwoBare(a: string, b: string)
    requires WordName(a) && WordName(b)
    ensures Segments("$" + a + "$" + b) == [Var(a), Var(b)]
  {
    var s := "$" + a + "$" + b;
    var e := 1 + |a|;
    assert s[0] == '$' && s[1..e] == a && s[e] == '$' && s[e + 1..e + 1 + |b|] == b;
    TwoBareAt(s, a, b);
  }

  lemma TwoBareAt(s: string, a: string, b: string)
    requires WordName(a) && WordName(b) && |s| == 2 + |a| + |b|
    requires s[0] == '$' && s[1..1 + |a|] == a && s[1 + |a|] == '$' && s[2 + |a|..|s|] == b
    ensures Segments(s) == [Var(a), Var(b)]
  {
    var e := 1 + |a|;
    BareThen(s, 0, a);
    BareThen(s, e, b);
    ScanEnd(s, |s|);
  }

  /** A bare reference at `i`, then the scan after it. */
  lemma BareThen(s: string, i: nat, name: string)
    requires WordName(name) && i + 1 + |name| <= |s| && s[i] == '$' && s[i + 1..i + 1 + |name|] == name
    requires i + 1 + |name| < |s| ==> !IsWordChar(s[i + 1 + |name|])
    ensures SegmentsOf(s, Scan(s, i)) == [Var(name)] + SegmentsOf(s, Scan(s, i + 1 + |name|))
  {
    BareAt(s, i, name);
    ScanStep(s, i, i);
    var tail := SegmentsOf(s, Scan(s, i + 1 + |name|));
    assert SegmentsOf(s, Scan(s, i)) == [] + [Var(name)] + tail;
    AppendEmpty([Var(name)]);
  }

  lemma PlainText(s: string)
    requires s != [] && '$' !in s
    ensures Segments(s) == [Text(s)]
  {
    NoDollarIsText(s);
  }

  // ---------------------------------------------------------------------
  // Evaluating short values

  /** Literal text, or nothing, records nothing and throws nothing. */
  lemma ScanPlain(c: Context, self: string, segs: seq<Segment>, text: string)
    requires segs == if text == [] then [] else [Text(text)]
    ensures ScanRefs(c, self, segs, []) == ([], None)
  {
    if text != [] { assert segs[1..] == []; }
  }

  /** A value without references resolves to itself. */
  lemma PassPlain(c: Context, rej: set<string>, self: string, text: string, path: set<string>)
    requires c.Valid() && text != [] && '$' !in text
    ensures ScanRefs(c, self, Segments(text), []) == ([], None)
    ensures Pass(c, rej, self, text, path) == Done(text)
  {
    PlainText(text);
    assert [Text(text)][1..] == [];
    assert PieceOutcomes(c, rej, self, [Text(text)], path) == [Done(text)];
    assert Combine([Done(text)]) == Done(text + []);
    assert text + [] == text;
  }

  /** The outcome of one reference to `m` from the value of `self`. */
  function RefOutcome(c: Context, rej: set<string>, self: string, m: string, path: set<string>): Outcome
    requires c.Valid()
  {
    PieceOutcome(c, rej, self, Var(m), path)
  }

  /** A value made of one reference and a literal tail records the
      reference, if it is local, and throws nothing. */
  lemma ScanRef(c: Context, self: string, segs: seq<Segment>, m: string, rest: string)
    requires segs == [Var(m)] + (if rest == [] then [] else [Text(rest)])
    requires (m in c.t.defs && m != self) || m in c.parent
    ensures ScanRefs(c, self, segs, []) == (if m in c.t.defs && m != self then [m] else [], None)
  {
    var tail: seq<Segment> := if rest == [] then [] else [Text(rest)];
    var acc1: seq<string> := if m in c.t.defs && m != self then [m] else [];
    assert segs[0] == Var(m) && segs[1..] == tail;
    assert ScanRefs(c, self, tail, acc1) == (acc1, None) by {
      if rest != [] { assert tail[1..] == []; }
    }
    assert [] + [m] == [m];
  }

  /** Such a value resolves to the reference's value and the tail, or
      fails or waits with the reference. */
  lemma PassRef(c: Context, rej: set<string>, self: string, text: string, m: string, rest: string, path: set<string>)
    requires c.Valid()
    requires Segments(text) == [Var(m)] + (if rest == [] then [] else [Text(rest)])
    requires (m in c.t.defs && m != self) || m in c.parent
    ensures Pass(c, rej, self, text, path) ==
      match RefOutcome(c, rej, self, m, path)
      case Done(x) => Done(x + rest)
      case o => o
  {
    ScanRef(c, self, Segments(text), m, rest);
    OutcomesRef(c, rej, self, m, rest, path);
    CombineRef(RefOutcome(c, rej, self, m, path), rest);
  }

  lemma OutcomesRef(c: Context, rej: set<string>, self: string, m: string, rest: string, path: set<string>)
    requires c.Valid()
    ensures PieceOutcomes(c, rej, self, [Var(m)] + (if rest == [] then [] else [Text(rest)]), path)
            == [RefOutcome(c, rej, self, m, path)] + (if rest == [] then [] else [Done(rest)])
  {
    var segs := [Var(m)] + (if rest == [] then [] else [Text(rest)]);
    var tail := segs[1..];
    assert segs[0] == Var(m) && tail == if rest == [] then [] else [Text(rest)];
    assert PieceOutcomes(c, rej, self, segs, path)
           == [RefOutcome(c, rej, self, m, path)] + PieceOutcomes(c, rej, self, tail, path);
    if rest != [] {
      assert tail[0] == Text(rest) && tail[1..] == [];
      assert PieceOutcomes(c, rej, self, tail, path) == [Done(rest)] + [];
    }
  }

  lemma CombineRef(o: Outcome, rest: string)
    ensures Combine([o] + (if rest == [] then [] else [Done(rest)]))
            == match o
               case Done(x) => Done(x + rest)
               case _ => o
  {
    var outs := [o] + (if rest == [] then [] else [Done(rest)]);
    assert outs[0] == o;
    if rest != [] {
      assert outs[1..] == [Done(rest)] && outs[1..][1..] == [];
      assert Combine([Done(rest)]) == Done(rest + []);
      assert rest + [] == rest;
    } else {
      assert outs[1..] == [];
      if o.Done? { assert o.text + [] == o.text; }
    }
  }

  /** A reference to another variable of the table takes its outcome. */
  lemma RefLocal(c: Context, rej: set<string>, self: string, m: string, path: set<string>)
    requires c.Valid() && m in c.t.defs && m != self && c.t.defs[m].value.Some?
    ensures RefOutcome(c, rej, self, m, path) ==
      match Eval(c, rej, m, path)
      case Done(x) => Done(JoinPiece(x))
      case o => o
  {
  }

  /** A reference to a variable of the parent environment only. */
  lemma RefParent(c: Context, rej: set<string>, self: string, m: string, path: set<string>)
    requires c.Valid() && !(m in c.t.defs && m != self) && m in c.parent && c.parent[m] != []
    ensures RefOutcome(c, rej, self, m, path) == Done(c.parent[m])
  {
  }

  /** A literal that throws nothing when first parsed resolves by one pass. */
  lemma EvalLiteral(c: Context, rej: set<string>, n: string, text: string, path: set<string>)
    requires c.Valid() && n in c.t.defs && c.t.defs[n].value == Some(Literal(text))
    requires n !in rej && n !in path
    requires ScanRefs(c, n, Segments(text), []).1.None?
    ensures Eval(c, rej, n, path) == Pass(c, rej, n, text, path + {n})
  {
  }

  /** A reference to another variable of the table that has no value. */
  lemma RefUnset(c: Context, rej: set<string>, self: string, m: string, path: set<string>)
    requires c.Valid() && m in c.t.defs && m != self && c.t.defs[m].value.None?
    ensures RefOutcome(c, rej, self, m, path) ==
      if Waited(c, m) then Fail("Undefined env var: " + m) else Stuck
  {
  }

  /** A producer resolves the text it returns by one pass. */
  lemma EvalReturns(c: Context, rej: set<string>, n: string, text: string, path: set<string>)
    requires c.Valid() && n in c.t.defs && c.t.defs[n].value == Some(Returns(text))
    requires n !in rej && n !in path
    ensures Eval(c, rej, n, path) == Pass(c, rej, n, text, path + {n})
  {
  }

  // ---------------------------------------------------------------------
  // The tests

  function Lit(text: string): Def { Def(true, Some(Literal(text))) }

  /** A key without decorations names a required variable. */
  predicate PlainKey(key: string) {
    key != [] && key[|key| - 1] != '?' && key[|key| - 1] != '!' && !(key[0] == '[' && key[|key| - 1] == ']')
  }

  /** A new plain entry with a string value is appended to the table. */
  lemma AddStep(t: Table, parent: map<string, string>, key: string, text: string, rest: seq<(string, EntryVal)>)
    requires t.Valid() && PlainKey(key) && key !in t.defs && key !in parent
    ensures Table(t.names + [key], t.defs[key := Lit(text)]).Valid()
    ensures AddEntries(t, parent, [(key, Scalar(text))] + rest)
      == AddEntries(Table(t.names + [key], t.defs[key := Lit(text)]), parent, rest)
  {
    ParseEnvKeyDecorations(key);
    assert ([(key, Scalar(text))] + rest)[1..] == rest;
  }

  /** A single waiter whose dependencies the walk clears. */
  lemma WalkClears(g: Graph, x: string, seen: set<string>)
    requires Closed(g) && x in g && seen <= g.Keys && x !in seen
    requires !Detects(g, g[x], seen + {x})
    ensures !Detects(g, [x], seen)
  {
    assert [x][..0] == [];
    assert !Revisits([x], seen);
    assert Elems([x]) == {x};
    assert [x][1..] == [];
    assert Flatten(g, [x]) == g[x] + [];
    assert g[x] + [] == g[x];
  }

  lemma RejectsNone(c: Context)
    requires forall n :: n in c.t.defs ==> !Detects(DepGraph(c), DepGraph(c)[n], {})
    ensures Rejections(c) == {}
  {
  }

  /** Two variables, one waiting on the other: nothing is rejected. */
  lemma ChainNone(c: Context, x: string, y: string)
    requires c.t.defs.Keys == {x, y} && x != y
    requires RecordedDeps(c, x) == [y] && RecordedDeps(c, y) == []
    ensures Rejections(c) == {}
  {
    var g := DepGraph(c);
    assert g[x] == [y] && g[y] == [];
    WalkClears(g, y, {});
    RejectsNone(c);
  }

  /** Two variables that wait on nothing: nothing is rejected. */
  lemma NoneNone(c: Context, x: string, y: string)
    requires c.t.defs.Keys == {x, y}
    requires RecordedDeps(c, x) == [] && RecordedDeps(c, y) == []
    ensures Rejections(c) == {}
  {
    var g := DepGraph(c);
    assert g[x] == [] && g[y] == [];
    RejectsNone(c);
  }

  /** Every variable has a value: nothing is missing and every name waits. */
  lemma {:induction false} AllValued(t: Table, names: seq<string>)
    requires forall k :: 0 <= k < |names| ==> names[k] in t.defs && t.defs[names[k]].value.Some?
    ensures FirstMissing(t, names).None?
    ensures Waitlist(t, names) == names
  {
    if names != [] {
      AllValued(t, names[1..]);
      assert [names[0]] + names[1..] == names;
    }
  }

  /** A variable rejected as circular fails with the circular message. */
  lemma RejectedFails(c: Context, rej: set<string>, name: string)
    requires c.Valid() && name in c.t.defs && c.t.defs[name].value.Some? && name in rej
    ensures Eval(c, rej, name, {}) == Fail("Circular dependency: " + name)
  {
  }

  /** Every name of the table has a value. */
  predicate Valued(c: Context) {
    forall k :: 0 <= k < |c.t.names| ==> c.t.names[k] in c.t.defs && c.t.defs[c.t.names[k]].value.Some?
  }

  /** The first waiter that does not settle to a value rejects. */
  lemma FailsAt(c: Context, j: nat, m: string)
    requires c.Valid() && Valued(c) && j < |c.t.names|
    requires Eval(c, Rejections(c), c.t.names[j], {}) == Fail(m)
    requires forall k :: 0 <= k < j ==> Eval(c, Rejections(c), c.t.names[k], {}).Done?
    ensures ResolveTable(c) == Failed(m)
  {
    AllValued(c.t, c.t.names);
    ResolveStops(c, j);
  }

  /** The second waiter rejects after the first has settled. */
  lemma FailsSecond(c: Context, m: string)
    requires c.Valid() && Valued(c) && |c.t.names| >= 2
    requires Eval(c, Rejections(c), c.t.names[0], {}).Done?
    requires Eval(c, Rejections(c), c.t.names[1], {}) == Fail(m)
    ensures ResolveTable(c) == Failed(m)
  {
    forall k | 0 <= k < 1 ensures Eval(c, Rejections(c), c.t.names[k], {}).Done? {
      assert k == 0;
    }
    FailsAt(c, 1, m);
  }

  /** ... or waits for ever. */
  /** The same, for waiters given by name. */
  lemma FailsSecondOf(c: Context, a: string, b: string, m: string)
    requires c.Valid() && Valued(c) && |c.t.names| >= 2 && c.t.names[0] == a && c.t.names[1] == b
    requires Eval(c, Rejections(c), a, {}).Done? && Eval(c, Rejections(c), b, {}) == Fail(m)
    ensures ResolveTable(c) == Failed(m)
  {
    FailsSecond(c, m);
  }

  lemma HangsAt(c: Context, j: nat)
    requires c.Valid() && Valued(c) && j < |c.t.names|
    requires Eval(c, Rejections(c), c.t.names[j], {}).Stuck?
    requires forall k :: 0 <= k < j ==> Eval(c, Rejections(c), c.t.names[k], {}).Done?
    ensures ResolveTable(c) == Hangs
  {
    AllValued(c.t, c.t.names);
    ResolveStops(c, j);
  }

  /** Two maps with the same keys and the same values are equal. */
  lemma SameMap(r: map<string, string>, env: map<string, string>)
    requires forall n :: n in r <==> n in env
    requires forall n :: n in r ==> r[n] == env[n]
    ensures r == env
  {
  }

  /** Every variable settles to the value `env` gives it. */
  lemma ResolvedAs(c: Context, env: map<string, string>)
    requires c.Valid() && Valued(c)
    requires forall n :: n in env <==> n in c.t.defs
    requires forall n :: n in env ==> Eval(c, Rejections(c), n, {}) == Done(env[n])
    ensures ResolveTable(c) == Resolved(c.t.names, env)
  {
    AllValued(c.t, c.t.names);
    DefsValued(c);
    ResolvedEnv(c);
    SameMap(ResolveTable(c).env, env);
  }

  lemma DefsValued(c: Context)
    requires c.Valid() && Valued(c)
    ensures forall n :: n in c.t.defs ==> c.t.defs[n].value.Some?
  {
    forall n | n in c.t.defs ensures c.t.defs[n].value.Some? {
      var k :| 0 <= k < |c.t.names| && c.t.names[k] == n;
    }
  }

  /** Two variables that both settle. */
  lemma ResolvedTwo(c: Context, a: string, b: string, va: string, vb: string)
    requires c.Valid() && Valued(c) && c.t.names == [a, b]
    requires Eval(c, Rejections(c), a, {}) == Done(va) && Eval(c, Rejections(c), b, {}) == Done(vb)
    ensures ResolveTable(c) == Resolved([a, b], map[a := va, b := vb])
  {
    var env := map[a := va, b := vb];
    forall n ensures n in env <==> n in c.t.defs {
      assert n in c.t.defs <==> n in c.t.names;
    }
    ResolvedAs(c, env);
  }

  function ExpansionCtx(a: string, b: string, v: string): Context {
    Context(Table([a, b], map[a := Lit(v), b := Lit("$" + a)]), map[], None)
  }

  lemma ExpansionWalk(a: string, b: string, v: string)
    requires WordName(a) && a != b && v != [] && '$' !in v
    ensures ExpansionCtx(a, b, v).Valid()
    ensures Rejections(ExpansionCtx(a, b, v)) == {}
  {
    var c := ExpansionCtx(a, b, v);
    TwoValid(a, b, Lit(v), Lit("$" + a));
    BareRef(a);
    assert c.t.defs[a] == Lit(v) && c.t.defs[b] == Lit("$" + a);
    RecordsNone(c, a, v);
    RecordsOne(c, b, "$" + a, a);
    ChainNone(c, b, a);
  }

  lemma ExpansionEvalA(a: string, b: string, v: string, path: set<string>)
    requires WordName(a) && a != b && v != [] && '$' !in v && a !in path
    ensures ExpansionCtx(a, b, v).Valid()
    ensures Eval(ExpansionCtx(a, b, v), {}, a, path) == Done(v)
  {
    var c := ExpansionCtx(a, b, v);
    TwoValid(a, b, Lit(v), Lit("$" + a));
    RecordsNone(c, a, v);
    PassPlain(c, {}, a, v, path + {a});
    EvalLiteral(c, {}, a, v, path);
  }

  lemma ExpansionEvalB(a: string, b: string, v: string)
    requires WordName(a) && a != b && v != [] && '$' !in v
    ensures ExpansionCtx(a, b, v).Valid()
    ensures Eval(ExpansionCtx(a, b, v), {}, b, {}) == Done(v)
  {
    var c := ExpansionCtx(a, b, v);
    BareThenText(a, "");
    assert "$" + a + "" == "$" + a;
    ExpansionEvalA(a, b, v, {b});
    assert {} + {b} == {b};
    RefLocal(c, {}, b, a, {b});
    PassRef(c, {}, b, "$" + a, a, "", {b});
    assert v + "" == v;
    ScanRef(c, b, Segments("$" + a), a, "");
    EvalLiteral(c, {}, b, "$" + a, {});
  }

  /** `{ A: 'abc', B: '$A' }`: `B` expands to the value of `A`. */
  lemma SimpleExpansion(a: string, b: string, v: string)
    requires WordName(a) && a != b && v != [] && '$' !in v
    ensures ResolveTable(ExpansionCtx(a, b, v)) == Resolved([a, b], map[a := v, b := v])
  {
    var c := ExpansionCtx(a, b, v);
    ExpansionWalk(a, b, v);
    ExpansionEvalA(a, b, v, {});
    ExpansionEvalB(a, b, v);
    ResolvedTwo(c, a, b, v, v);
  }

  /** A table of one variable. */
  function OneCtx(n: string, d: Def, parent: map<string, string>): Context {
    Context(Table([n], map[n := d]), parent, None)
  }

  /** `{ A: '$B' }` with no `B` anywhere: the unknown reference rejects. */
  lemma UnknownVar(a: string, b: string)
    requires WordName(b) && a != b
    ensures ResolveTable(OneCtx(a, Lit("$" + b), map[])) == Failed("Undefined env var: " + b)
  {
    var c := OneCtx(a, Lit("$" + b), map[]);
    BareThenText(b, "");
    assert "$" + b + "" == "$" + b;
    assert ScanRefs(c, a, [Var(b)], []) == ([], Some("Undefined env var: " + b));
    assert DepGraph(c)[a] == [];
    RejectsNone(c);
    AllValued(c.t, c.t.names);
    ResolveStops(c, 0);
  }

  /** `${P}` followed by a literal tail, where `P` is a variable of the
      parent environment: either another name (`MYPORT: '${PORT}'`) or
      the variable's own name, which always means the parent's value
      (`'PATH!': '${PATH}:/usr/local/bin'`). */
  lemma ParentRef(n: string, p: string, v: string, rest: string)
    requires BraceName(p) && v != [] && '$' !in rest
    ensures ResolveTable(OneCtx(n, Lit("${" + p + "}" + rest), map[p := v])) == Resolved([n], map[n := v + rest])
  {
    var text := "${" + p + "}" + rest;
    var c := OneCtx(n, Lit(text), map[p := v]);
    BraceThenText(p, rest);
    ScanRef(c, n, Segments(text), p, rest);
    assert DepGraph(c)[n] == [];
    RejectsNone(c);
    RefParent(c, {}, n, p, {n});
    PassRef(c, {}, n, text, p, rest, {n});
    EvalLiteral(c, {}, n, text, {});
    assert {} + {n} == {n};
    AllValued(c.t, c.t.names);
    ResolvedEnv(c);
    assert ResolveTable(c).env == map[n := v + rest];
  }

  /** `'PATH!': '...'` over a parent that has `PATH`: the override enters
      the table as a required literal. */
  lemma OverrideEnters(p: string, v: string, text: string)
    requires PlainKey(p)
    ensures Apply(EmptyTable, map[p := v], EnvMap([(p + "!", Scalar(text))])) == (Table([p], map[p := Lit(text)]), None)
  {
    ParseEnvKeyDecorations(p);
    var d := Incoming(p, true, true, Some(Some(Literal(text))));
    assert EntryDef(p + "!", Scalar(text)) == Ok(d);
    assert Add(EmptyTable, map[p := v], d) == Table([p], map[p := Lit(text)]) by {
      assert [] + [p] == [p];
    }
    var es := [(p + "!", Scalar(text))];
    assert es[1..] == [];
    assert AddEntries(EmptyTable, map[p := v], es) == AddEntries(Table([p], map[p := Lit(text)]), map[p := v], []);
    ApplyMap(EmptyTable, map[p := v], es);
  }

  /** `{ PATH: '/usr/local/bin' }` over a parent that has `PATH`: the
      definition is skipped and nothing is resolved. */
  lemma DoNotOverride(p: string, v: string, text: string, runner: Option<Runner>)
    requires PlainKey(p)
    ensures Apply(EmptyTable, map[p := v], EnvMap([(p, Scalar(text))])) == (EmptyTable, None)
    ensures ResolveTable(Context(EmptyTable, map[p := v], runner)) == Resolved([], map[])
  {
    ParseEnvKeyDecorations(p);
    var d := Incoming(p, true, false, Some(Some(Literal(text))));
    assert EntryDef(p, Scalar(text)) == Ok(d);
    assert Add(EmptyTable, map[p := v], d) == EmptyTable;
    var es := [(p, Scalar(text))];
    assert es[1..] == [];
    assert AddEntries(EmptyTable, map[p := v], es) == AddEntries(EmptyTable, map[p := v], []);
    ApplyMap(EmptyTable, map[p := v], es);
  }

  /** `{ 'PATH!': '${PATH}' + tail }` over `PATH` in the parent. */
  lemma ExtendVar(p: string, v: string, rest: string)
    requires PlainKey(p) && BraceName(p) && v != [] && '$' !in rest
    ensures var (t, err) := Apply(EmptyTable, map[p := v], EnvMap([(p + "!", Scalar("${" + p + "}" + rest))]));
            err.None? && ResolveTable(Context(t, map[p := v], None)) == Resolved([p], map[p := v + rest])
  {
    OverrideEnters(p, v, "${" + p + "}" + rest);
    ParentRef(p, p, v, rest);
  }

  lemma ElemsOne(x: string)
    ensures Elems([x]) == {x}
  {
    assert [x][0] == x;
  }

  /** One step of the walk over a single name that is new. */
  lemma WalkOne(g: Graph, x: string, seen: set<string>)
    requires Closed(g) && x in g && seen <= g.Keys && x !in seen
    ensures Detects(g, [x], seen) == Detects(g, g[x], seen + {x})
  {
    assert [x][..0] == [];
    assert !Revisits([x], seen);
    ElemsOne(x);
    assert [x][1..] == [];
    assert Flatten(g, [x]) == g[x] + [];
    assert g[x] + [] == g[x];
  }

  /** Two waiters that wait on each other are both rejected by the walk. */
  lemma MutualDetects(g: Graph, x: string, y: string)
    requires Closed(g) && x in g && y in g && x != y && g[x] == [y] && g[y] == [x]
    ensures Detects(g, g[x], {})
  {
    WalkOne(g, y, {});
    WalkOne(g, x, {y});
    assert {} + {y} == {y};
    assert Revisits([y], {y} + {x}) by { assert [y][0] == y; }
  }

  /** A waiter with one dependency, which has none, is not rejected. */
  lemma ChainClears(g: Graph, x: string, y: string)
    requires Closed(g) && x in g && y in g && x != y && g[x] == [y] && g[y] == []
    ensures !Detects(g, g[x], {}) && !Detects(g, g[y], {})
  {
    WalkClears(g, y, {});
  }

  /** `$NAME` alone. */
  lemma BareRef(name: string)
    requires WordName(name)
    ensures Segments("$" + name) == [Var(name)]
  {
    BareThenText(name, "");
    assert "$" + name + "" == "$" + name;
  }

  /** A value whose text refers to one other variable of the table
      records that variable and throws nothing. */
  lemma RecordsOne(c: Context, n: string, text: string, m: string)
    requires n in c.t.defs && c.t.defs[n].value.Some? && EagerTemplate(c.t.defs[n].value.value) == Some(text)
    requires Segments(text) == [Var(m)] && m in c.t.defs && m != n
    ensures RecordedDeps(c, n) == [m] && EagerError(c, n).None?
  {
    ScanRef(c, n, Segments(text), m, "");
  }

  /** A value whose text refers to a variable of the parent environment
      only records nothing and throws nothing. */
  lemma RecordsParent(c: Context, n: string, text: string, m: string)
    requires n in c.t.defs && c.t.defs[n].value.Some? && EagerTemplate(c.t.defs[n].value.value) == Some(text)
    requires Segments(text) == [Var(m)] && m !in c.t.defs && m in c.parent
    ensures RecordedDeps(c, n) == [] && EagerError(c, n).None?
  {
    ScanRef(c, n, Segments(text), m, "");
  }

  /** A value whose text has no reference records nothing. */
  lemma RecordsNone(c: Context, n: string, text: string)
    requires n in c.t.defs && c.t.defs[n].value.Some? && EagerTemplate(c.t.defs[n].value.value) == Some(text)
    requires '$' !in text
    ensures RecordedDeps(c, n) == [] && EagerError(c, n).None?
  {
    NoDollarIsText(text);
    ScanPlain(c, n, Segments(text), text);
  }

  /** A producer's value is not parsed before the walk. */
  lemma RecordsProducer(c: Context, n: string, text: string)
    requires n in c.t.defs && c.t.defs[n].value == Some(Returns(text))
    ensures RecordedDeps(c, n) == [] && EagerError(c, n).None?
  {
  }

  lemma TwoValid(a: string, b: string, da: Def, db: Def)
    requires a != b
    ensures Table([a, b], map[a := da, b := db]).Valid()
  {
  }

  lemma FourValid(a: string, b: string, d: string, e: string, da: Def, db: Def, dd: Def, de: Def)
    requires a != b && a != d && a != e && b != d && b != e && d != e
    ensures Table([a, b, d, e], map[a := da, b := db, d := dd, e := de]).Valid()
  {
    var t := Table([a, b, d, e], map[a := da, b := db, d := dd, e := de]);
    forall n ensures n in t.defs <==> n in t.names {
      assert n in t.names <==> n == a || n == b || n == d || n == e;
    }
  }

  function ThenCtx(a: string, b: string, v: string): Context {
    Context(Table([a, b], map[a := Lit(v), b := Def(true, Some(ResolvesThen("$" + a)))]), map[], None)
  }

  lemma ThenWalk(a: string, b: string, v: string)
    requires WordName(a) && a != b && v != [] && '$' !in v
    ensures ThenCtx(a, b, v).Valid()
    ensures Rejections(ThenCtx(a, b, v)) == {}
    ensures EagerError(ThenCtx(a, b, v), b).None?
  {
    var c := ThenCtx(a, b, v);
    TwoValid(a, b, Lit(v), Def(true, Some(ResolvesThen("$" + a))));
    BareRef(a);
    assert c.t.defs[a] == Lit(v) && c.t.defs[b] == Def(true, Some(ResolvesThen("$" + a)));
    RecordsNone(c, a, v);
    RecordsOne(c, b, "$" + a, a);
    ChainNone(c, b, a);
  }

  lemma ThenEvalB(a: string, b: string, v: string)
    requires WordName(a) && a != b && v != [] && '$' !in v
    ensures Eval(ThenCtx(a, b, v), {}, b, {}) == Done(v)
  {
    var c := ThenCtx(a, b, v);
    ThenWalk(a, b, v);
    ThenEvalA(a, b, v);
    BareRef(a);
    RefLocal(c, {}, b, a, {b});
    PassRef(c, {}, b, "$" + a, a, "", {b});
    assert v + "" == v;
    PassPlain(c, {}, b, v, {b});
    assert {} + {b} == {b};
  }

  lemma ThenEvalA(a: string, b: string, v: string)
    requires WordName(a) && a != b && v != [] && '$' !in v
    ensures ThenCtx(a, b, v).Valid() && Eval(ThenCtx(a, b, v), {}, a, {b}) == Done(v)
  {
    var c := ThenCtx(a, b, v);
    ThenWalk(a, b, v);
    PassPlain(c, {}, a, v, {b, a});
    EvalLiteral(c, {}, a, v, {b});
    assert {b} + {a} == {b, a};
  }

  /** `{ A: 'abc', B: (ctx) => ctx.resolve('$A') }`: the producer's
      template is resolved like a value. */
  lemma SimpleResolve(a: string, b: string, v: string)
    requires WordName(a) && a != b && v != [] && '$' !in v
    ensures ResolveTable(ThenCtx(a, b, v)) == Resolved([a, b], map[a := v, b := v])
  {
    var c := ThenCtx(a, b, v);
    ThenWalk(a, b, v);
    PassPlain(c, {}, a, v, {a});
    EvalLiteral(c, {}, a, v, {});
    assert {} + {a} == {a};
    ThenEvalB(a, b, v);
    ResolvedTwo(c, a, b, v, v);
  }

  function MutualCtx(a: string, b: string): Context {
    Context(Table([a, b], map[a := Def(true, Some(ResolvesThen("$" + b))), b := Def(true, Some(ResolvesThen("$" + a)))]), map[], None)
  }

  lemma MutualRejects(a: string, b: string)
    requires WordName(a) && WordName(b) && a != b
    ensures MutualCtx(a, b).Valid() && a in Rejections(MutualCtx(a, b))
  {
    var c := MutualCtx(a, b);
    MutualGraph(a, b);
    var g := DepGraph(c);
    assert g[a] == [b] && g[b] == [a];
    MutualDetects(g, a, b);
  }

  lemma MutualGraph(a: string, b: string)
    requires WordName(a) && WordName(b) && a != b
    ensures MutualCtx(a, b).Valid()
    ensures RecordedDeps(MutualCtx(a, b), a) == [b] && RecordedDeps(MutualCtx(a, b), b) == [a]
  {
    var c := MutualCtx(a, b);
    TwoValid(a, b, Def(true, Some(ResolvesThen("$" + b))), Def(true, Some(ResolvesThen("$" + a))));
    BareRef(a);
    BareRef(b);
    assert c.t.defs[a] == Def(true, Some(ResolvesThen("$" + b))) && c.t.defs[b] == Def(true, Some(ResolvesThen("$" + a)));
    RecordsOne(c, a, "$" + b, b);
    RecordsOne(c, b, "$" + a, a);
  }

  /** `A` and `B` each resolve the other: the first is rejected as
      circular. */
  lemma CircularResolve(a: string, b: string)
    requires WordName(a) && WordName(b) && a != b
    ensures ResolveTable(MutualCtx(a, b)) == Failed("Circular dependency: " + a)
  {
    var c := MutualCtx(a, b);
    MutualRejects(a, b);
    FailsAt(c, 0, "Circular dependency: " + a);
  }

  /** `{ A: '$E', B: '$C', C: '$D', D: '$B', E: 'abc' }`. */
  function LoopCtx(a: string, b: string, c: string, d: string, e: string, v: string): Context {
    Context(Table([a, b, c, d, e], map[a := Lit("$" + e), b := Lit("$" + c), c := Lit("$" + d), d := Lit("$" + b), e := Lit(v)]), map[], None)
  }

  predicate LoopNames(a: string, b: string, c: string, d: string, e: string, v: string) {
    WordName(b) && WordName(c) && WordName(d) && WordName(e) && v != [] && '$' !in v
    && a != b && a != c && a != d && a != e && b != c && b != d && b != e && c != d && c != e && d != e
  }

  lemma FiveValid(a: string, b: string, c: string, d: string, e: string, da: Def, db: Def, dc: Def, dd: Def, de: Def)
    requires a != b && a != c && a != d && a != e && b != c && b != d && b != e && c != d && c != e && d != e
    ensures Table([a, b, c, d, e], map[a := da, b := db, c := dc, d := dd, e := de]).Valid()
  {
  }

  lemma LoopDefs(a: string, b: string, c: string, d: string, e: string, v: string)
    requires LoopNames(a, b, c, d, e, v)
    ensures LoopCtx(a, b, c, d, e, v).Valid()
    ensures var defs := LoopCtx(a, b, c, d, e, v).t.defs;
            defs[a] == Lit("$" + e) && defs[b] == Lit("$" + c) && defs[c] == Lit("$" + d)
            && defs[d] == Lit("$" + b) && defs[e] == Lit(v) && defs.Keys == {a, b, c, d, e}
  {
    FiveValid(a, b, c, d, e, Lit("$" + e), Lit("$" + c), Lit("$" + d), Lit("$" + b), Lit(v));
  }

  /** `A` waits on `E`, which waits on nothing. */
  lemma LoopGraphHead(a: string, b: string, c: string, d: string, e: string, v: string)
    requires LoopNames(a, b, c, d, e, v)
    ensures LoopCtx(a, b, c, d, e, v).Valid()
    ensures RecordedDeps(LoopCtx(a, b, c, d, e, v), a) == [e] && RecordedDeps(LoopCtx(a, b, c, d, e, v), e) == []
    ensures EagerError(LoopCtx(a, b, c, d, e, v), a).None? && EagerError(LoopCtx(a, b, c, d, e, v), e).None?
  {
    var ctx := LoopCtx(a, b, c, d, e, v);
    LoopDefs(a, b, c, d, e, v);
    BareRef(e);
    RecordsOne(ctx, a, "$" + e, e);
    RecordsNone(ctx, e, v);
  }

  /** `B`, `C` and `D` wait on each other in a loop. */
  lemma LoopGraphCycle(a: string, b: string, c: string, d: string, e: string, v: string)
    requires LoopNames(a, b, c, d, e, v)
    ensures LoopCtx(a, b, c, d, e, v).Valid()
    ensures var ctx := LoopCtx(a, b, c, d, e, v);
            RecordedDeps(ctx, b) == [c] && RecordedDeps(ctx, c) == [d] && RecordedDeps(ctx, d) == [b]
  {
    var ctx := LoopCtx(a, b, c, d, e, v);
    LoopDefs(a, b, c, d, e, v);
    BareRef(b);
    BareRef(c);
    BareRef(d);
    RecordsOne(ctx, b, "$" + c, c);
    RecordsOne(ctx, c, "$" + d, d);
    RecordsOne(ctx, d, "$" + b, b);
  }

  lemma LoopEvalA(a: string, b: string, c: string, d: string, e: string, v: string, rej: set<string>)
    requires LoopNames(a, b, c, d, e, v) && a !in rej && e !in rej
    ensures LoopCtx(a, b, c, d, e, v).Valid()
    ensures Eval(LoopCtx(a, b, c, d, e, v), rej, a, {}) == Done(v)
  {
    var ctx := LoopCtx(a, b, c, d, e, v);
    LoopPassA(a, b, c, d, e, v, rej);
    LoopDefs(a, b, c, d, e, v);
    LoopGraphHead(a, b, c, d, e, v);
    EvalLiteral(ctx, rej, a, "$" + e, {});
    assert {} + {a} == {a};
  }

  /** `A`'s text `$E` takes `E`'s value. */
  lemma LoopPassA(a: string, b: string, c: string, d: string, e: string, v: string, rej: set<string>)
    requires LoopNames(a, b, c, d, e, v) && e !in rej
    ensures LoopCtx(a, b, c, d, e, v).Valid()
    ensures Pass(LoopCtx(a, b, c, d, e, v), rej, a, "$" + e, {a}) == Done(v)
  {
    var ctx := LoopCtx(a, b, c, d, e, v);
    LoopEvalE(a, b, c, d, e, v, rej);
    LoopDefs(a, b, c, d, e, v);
    BareRef(e);
    RefLocal(ctx, rej, a, e, {a});
    PassRef(ctx, rej, a, "$" + e, e, "", {a});
    assert v + "" == v;
  }

  lemma LoopEvalE(a: string, b: string, c: string, d: string, e: string, v: string, rej: set<string>)
    requires LoopNames(a, b, c, d, e, v) && e !in rej
    ensures LoopCtx(a, b, c, d, e, v).Valid()
    ensures EagerError(LoopCtx(a, b, c, d, e, v), a).None?
    ensures Eval(LoopCtx(a, b, c, d, e, v), rej, e, {a}) == Done(v)
  {
    var ctx := LoopCtx(a, b, c, d, e, v);
    LoopDefs(a, b, c, d, e, v);
    LoopGraphHead(a, b, c, d, e, v);
    PassPlain(ctx, rej, e, v, {a, e});
    EvalLiteral(ctx, rej, e, v, {a});
    assert {a} + {e} == {a, e};
  }

  /** A waiter on a cycle of three: the walk comes back to the first name
      on its fourth level. */
  lemma TriangleDetects(g: Graph, x: string, y: string, z: string)
    requires Closed(g) && x in g && y in g && z in g && x != y && x != z && y != z
    requires g[x] == [y] && g[y] == [z] && g[z] == [x]
    ensures Detects(g, g[x], {})
  {
    WalkOne(g, y, {});
    WalkOne(g, z, {y});
    WalkOne(g, x, {y, z});
    assert {} + {y} == {y} && {y} + {z} == {y, z};
    assert Revisits([y], {y, z} + {x}) by { assert [y][0] == y; }
  }

  lemma LoopRejects(a: string, b: string, c: string, d: string, e: string, v: string)
    requires LoopNames(a, b, c, d, e, v)
    ensures LoopCtx(a, b, c, d, e, v).Valid()
    ensures var rej := Rejections(LoopCtx(a, b, c, d, e, v)); b in rej && a !in rej && e !in rej
  {
    var ctx := LoopCtx(a, b, c, d, e, v);
    LoopGraphHead(a, b, c, d, e, v);
    LoopGraphCycle(a, b, c, d, e, v);
    var g := DepGraph(ctx);
    assert g[a] == [e] && g[b] == [c] && g[c] == [d] && g[d] == [b] && g[e] == [];
    TriangleDetects(g, b, c, d);
    ChainClears(g, a, e);
  }

  /** `{ A: '$E', B: '$C', C: '$D', D: '$B', E: 'abc' }`: `A` settles, and
      `B`, the first waiter on the loop `B→C→D→B`, is rejected by name. */
  lemma CircularExpansion(a: string, b: string, c: string, d: string, e: string, v: string)
    requires LoopNames(a, b, c, d, e, v)
    ensures LoopCtx(a, b, c, d, e, v).Valid()
    ensures ResolveTable(LoopCtx(a, b, c, d, e, v)) == Failed("Circular dependency: " + b)
  {
    LoopOutcomes(a, b, c, d, e, v);
    FailsSecondOf(LoopCtx(a, b, c, d, e, v), a, b, "Circular dependency: " + b);
  }

  /** The first two waiters: `A` settles and `B` is rejected. */
  lemma LoopOutcomes(a: string, b: string, c: string, d: string, e: string, v: string)
    requires LoopNames(a, b, c, d, e, v)
    ensures var ctx := LoopCtx(a, b, c, d, e, v);
            ctx.Valid() && Valued(ctx) && |ctx.t.names| >= 2 && ctx.t.names[0] == a && ctx.t.names[1] == b
    ensures var ctx := LoopCtx(a, b, c, d, e, v);
            Eval(ctx, Rejections(ctx), a, {}).Done?
            && Eval(ctx, Rejections(ctx), b, {}) == Fail("Circular dependency: " + b)
  {
    var ctx := LoopCtx(a, b, c, d, e, v);
    LoopValued(a, b, c, d, e, v);
    LoopDefs(a, b, c, d, e, v);
    LoopRejects(a, b, c, d, e, v);
    var rej := Rejections(ctx);
    LoopEvalA(a, b, c, d, e, v, rej);
    RejectedFails(ctx, rej, b);
  }

  lemma LoopValued(a: string, b: string, c: string, d: string, e: string, v: string)
    requires LoopNames(a, b, c, d, e, v)
    ensures LoopCtx(a, b, c, d, e, v).Valid() && Valued(LoopCtx(a, b, c, d, e, v))
    ensures LoopCtx(a, b, c, d, e, v).t.names == [a, b, c, d, e]
  {
    LoopDefs(a, b, c, d, e, v);
  }

  // ---------------------------------------------------------------------
  // Behaviour the tests do not cover

  function InheritCtx(m: string, h: string, u: string, pv: string, hv: string): Context {
    Context(Table([m, h], map[m := Lit("$" + u), h := Lit(hv)]), map[u := pv], None)
  }

  predicate InheritNames(m: string, h: string, u: string, pv: string, hv: string) {
    WordName(u) && u != m && u != h && m != h && pv != [] && hv != [] && '$' !in hv
  }

  lemma InheritWalk(m: string, h: string, u: string, pv: string, hv: string)
    requires InheritNames(m, h, u, pv, hv)
    ensures InheritCtx(m, h, u, pv, hv).Valid() && Rejections(InheritCtx(m, h, u, pv, hv)) == {}
    ensures EagerError(InheritCtx(m, h, u, pv, hv), m).None?
  {
    var c := InheritCtx(m, h, u, pv, hv);
    TwoValid(m, h, Lit("$" + u), Lit(hv));
    BareRef(u);
    assert c.t.defs[m] == Lit("$" + u) && c.t.defs[h] == Lit(hv);
    RecordsParent(c, m, "$" + u, u);
    RecordsNone(c, h, hv);
    NoneNone(c, m, h);
  }

  /** `{ MY_API_URL: '$API_URL', API_HOST: 'abc' }` over a parent whose
      `API_URL` mentions `${API_HOST}`: a parent value is taken as it is,
      never expanded, whatever it refers to. */
  lemma InheritWithoutResolving(m: string, h: string, u: string, pv: string, hv: string)
    requires InheritNames(m, h, u, pv, hv)
    ensures ResolveTable(InheritCtx(m, h, u, pv, hv)) == Resolved([m, h], map[m := pv, h := hv])
  {
    var c := InheritCtx(m, h, u, pv, hv);
    InheritWalk(m, h, u, pv, hv);
    InheritEvalRef(m, h, u, pv, hv);
    InheritEvalPlain(m, h, u, pv, hv);
    assert Valued(c);
    ResolvedTwo(c, m, h, pv, hv);
  }

  lemma InheritEvalRef(m: string, h: string, u: string, pv: string, hv: string)
    requires InheritNames(m, h, u, pv, hv)
    ensures InheritCtx(m, h, u, pv, hv).Valid()
    ensures Eval(InheritCtx(m, h, u, pv, hv), {}, m, {}) == Done(pv)
  {
    var c := InheritCtx(m, h, u, pv, hv);
    InheritWalk(m, h, u, pv, hv);
    BareRef(u);
    RefParent(c, {}, m, u, {m});
    PassRef(c, {}, m, "$" + u, u, "", {m});
    assert pv + "" == pv;
    EvalLiteral(c, {}, m, "$" + u, {});
    assert {} + {m} == {m};
  }

  lemma InheritEvalPlain(m: string, h: string, u: string, pv: string, hv: string)
    requires InheritNames(m, h, u, pv, hv)
    ensures InheritCtx(m, h, u, pv, hv).Valid()
    ensures Eval(InheritCtx(m, h, u, pv, hv), {}, h, {}) == Done(hv)
  {
    var c := InheritCtx(m, h, u, pv, hv);
    InheritWalk(m, h, u, pv, hv);
    RecordsNone(c, h, hv);
    PassPlain(c, {}, h, hv, {h});
    EvalLiteral(c, {}, h, hv, {});
    assert {} + {h} == {h};
  }

  function ProducerCtx(a: string, p: string): Context {
    Context(Table([a, p], map[a := Lit("$" + p), p := Def(true, Some(Returns("$" + a)))]), map[], None)
  }

  lemma ProducerWalk(a: string, p: string)
    requires WordName(a) && WordName(p) && a != p
    ensures ProducerCtx(a, p).Valid() && Rejections(ProducerCtx(a, p)) == {}
    ensures EagerError(ProducerCtx(a, p), a).None? && EagerError(ProducerCtx(a, p), p).None?
  {
    var c := ProducerCtx(a, p);
    TwoValid(a, p, Lit("$" + p), Def(true, Some(Returns("$" + a))));
    BareRef(p);
    assert c.t.defs[a] == Lit("$" + p) && c.t.defs[p] == Def(true, Some(Returns("$" + a)));
    RecordsOne(c, a, "$" + p, p);
    RecordsProducer(c, p, "$" + a);
    assert c.t.defs.Keys == {a, p};
    ChainNone(c, a, p);
  }

  /** `A: '$P'` where `P` is a producer returning `'$A'`: the cycle is
      closed only by the returned text, after the walk has run, so the
      walk lets both through and `resolve()` never settles. */
  lemma ProducerCycleHangs(a: string, p: string)
    requires WordName(a) && WordName(p) && a != p
    ensures ResolveTable(ProducerCtx(a, p)) == Hangs
  {
    var c := ProducerCtx(a, p);
    ProducerWalk(a, p);
    ProducerStuck(a, p);
    assert c.t.names[0] == a && Valued(c);
    HangsAt(c, 0);
  }

  /** `A` waits on the producer, which waits on `A`. */
  lemma ProducerStuck(a: string, p: string)
    requires WordName(a) && WordName(p) && a != p
    ensures ProducerCtx(a, p).Valid() && Eval(ProducerCtx(a, p), {}, a, {}) == Stuck
  {
    var c := ProducerCtx(a, p);
    ProducerWalk(a, p);
    ProducerWaits(a, p);
    BareRef(p);
    RefLocal(c, {}, a, p, {a});
    PassRef(c, {}, a, "$" + p, p, "", {a});
    EvalLiteral(c, {}, a, "$" + p, {});
    assert {} + {a} == {a};
  }

  /** Evaluated while `A` waits on it, the producer waits on `A`. */
  lemma ProducerWaits(a: string, p: string)
    requires WordName(a) && WordName(p) && a != p
    ensures ProducerCtx(a, p).Valid() && Eval(ProducerCtx(a, p), {}, p, {a}) == Stuck
  {
    var c := ProducerCtx(a, p);
    ProducerWalk(a, p);
    BareRef(a);
    assert "$" + a + "" == "$" + a;
    assert Eval(c, {}, a, {a, p}) == Stuck;
    RefLocal(c, {}, p, a, {a, p});
    PassRef(c, {}, p, "$" + a, a, "", {a, p});
    assert {a} + {p} == {a, p};
  }

  /** A producer returning `'$X'`, or the literal `'$X'`, beside an
      optional `X` that has no value. */
  function UnsetCtx(a: string, x: string, v: Value): Context {
    Context(Table([a, x], map[a := Def(true, Some(v)), x := Def(false, None)]), map[], None)
  }

  /** Only `A` waits: `X` is optional and has no value. */
  lemma UnsetWaitlist(a: string, x: string, v: Value)
    requires a != x
    ensures UnsetCtx(a, x, v).Valid()
    ensures FirstMissing(UnsetCtx(a, x, v).t, [a, x]).None?
    ensures Waitlist(UnsetCtx(a, x, v).t, [a, x]) == [a]
  {
    var t := UnsetCtx(a, x, v).t;
    TwoValid(a, x, Def(true, Some(v)), Def(false, None));
    assert [a, x][1..] == [x] && [x][1..] == [];
    assert Waitlist(t, [x]) == [] + Waitlist(t, []);
  }

  /** The answer of `resolve()` is the outcome of `A`'s promise. */
  lemma UnsetResolves(a: string, x: string, v: Value, o: Outcome)
    requires a != x && !o.Done?
    requires UnsetCtx(a, x, v).Valid() && Eval(UnsetCtx(a, x, v), Rejections(UnsetCtx(a, x, v)), a, {}) == o
    ensures ResolveTable(UnsetCtx(a, x, v)) == if o.Fail? then Failed(o.msg) else Hangs
  {
    UnsetWaitlist(a, x, v);
    ResolveStops(UnsetCtx(a, x, v), 0);
  }

  /** The producer records nothing before the walk, so nothing is
      rejected and `X`'s waiter is not made in time. */
  lemma LateUnsetWalk(a: string, x: string)
    requires WordName(x) && a != x
    ensures UnsetCtx(a, x, Returns("$" + x)).Valid()
    ensures Rejections(UnsetCtx(a, x, Returns("$" + x))) == {}
    ensures !Waited(UnsetCtx(a, x, Returns("$" + x)), x)
  {
    var c := UnsetCtx(a, x, Returns("$" + x));
    UnsetWaitlist(a, x, Returns("$" + x));
    assert c.t.defs[a] == Def(true, Some(Returns("$" + x)));
    RecordsProducer(c, a, "$" + x);
    assert RecordedDeps(c, x) == [];
    assert c.t.defs.Keys == {a, x};
    NoneNone(c, a, x);
  }

  lemma LateUnsetStuck(a: string, x: string)
    requires WordName(x) && a != x
    ensures UnsetCtx(a, x, Returns("$" + x)).Valid()
    ensures Eval(UnsetCtx(a, x, Returns("$" + x)), {}, a, {}) == Stuck
  {
    var c := UnsetCtx(a, x, Returns("$" + x));
    LateUnsetWalk(a, x);
    BareRef(x);
    RefUnset(c, {}, a, x, {a});
    PassRef(c, {}, a, "$" + x, x, "", {a});
    assert c.t.defs[a].value == Some(Returns("$" + x));
    EvalReturns(c, {}, a, "$" + x, {});
    assert {} + {a} == {a};
  }

  /** `{ A: () => '$X', 'X?': {} }`: the returned text meets `X` only after
      the final checks, so its waiter is created then and nothing ever
      settles it; `resolve()` never settles either. */
  lemma LateUnsetHangs(a: string, x: string)
    requires WordName(x) && a != x
    ensures ResolveTable(UnsetCtx(a, x, Returns("$" + x))) == Hangs
  {
    LateUnsetWalk(a, x);
    LateUnsetStuck(a, x);
    UnsetResolves(a, x, Returns("$" + x), Stuck);
  }

  /** The literal records `X` before the walk, which rejects nothing. */
  lemma EagerUnsetWalk(a: string, x: string)
    requires WordName(x) && a != x
    ensures UnsetCtx(a, x, Literal("$" + x)).Valid()
    ensures Rejections(UnsetCtx(a, x, Literal("$" + x))) == {}
    ensures Waited(UnsetCtx(a, x, Literal("$" + x)), x)
    ensures EagerError(UnsetCtx(a, x, Literal("$" + x)), a).None?
  {
    var c := UnsetCtx(a, x, Literal("$" + x));
    UnsetWaitlist(a, x, Literal("$" + x));
    BareRef(x);
    assert c.t.defs[a] == Lit("$" + x);
    RecordsOne(c, a, "$" + x, x);
    assert RecordedDeps(c, x) == [];
    assert c.t.defs.Keys == {a, x};
    ChainNone(c, a, x);
    assert x in RecordedDeps(c, a);
  }

  lemma EagerUnsetEval(a: string, x: string)
    requires WordName(x) && a != x
    ensures UnsetCtx(a, x, Literal("$" + x)).Valid()
    ensures Eval(UnsetCtx(a, x, Literal("$" + x)), {}, a, {}) == Fail("Undefined env var: " + x)
  {
    var c := UnsetCtx(a, x, Literal("$" + x));
    EagerUnsetWalk(a, x);
    BareRef(x);
    RefUnset(c, {}, a, x, {a});
    PassRef(c, {}, a, "$" + x, x, "", {a});
    assert c.t.defs[a] == Lit("$" + x);
    EvalLiteral(c, {}, a, "$" + x, {});
    assert {} + {a} == {a};
  }

  /** `{ A: '$X', 'X?': {} }`: the literal meets `X` before the final
      checks, which reject its waiter, so `resolve()` fails. */
  lemma EagerUnsetFails(a: string, x: string)
    requires WordName(x) && a != x
    ensures ResolveTable(UnsetCtx(a, x, Literal("$" + x))) == Failed("Undefined env var: " + x)
  {
    EagerUnsetWalk(a, x);
    EagerUnsetEval(a, x);
    UnsetResolves(a, x, Literal("$" + x), Fail("Undefined env var: " + x));
  }

  function DiamondCtx(a: string, b: string, e: string, d: string, v: string): Context {
    Context(Table([a, b, e, d], map[a := Lit("$" + b + "$" + e), b := Lit("$" + d), e := Lit("$" + d), d := Lit(v)]), map[], None)
  }

  predicate DiamondNames(a: string, b: string, e: string, d: string, v: string) {
    WordName(b) && WordName(e) && WordName(d) && v != [] && '$' !in v
    && a != b && a != e && a != d && b != e && b != d && e != d
  }

  /** Two references to other variables of the table record both. */
  lemma ScanTwo(c: Context, n: string, segs: seq<Segment>, m1: string, m2: string)
    requires segs == [Var(m1), Var(m2)] && m1 in c.t.defs && m2 in c.t.defs && m1 != n && m2 != n && m1 != m2
    ensures ScanRefs(c, n, segs, []) == ([m1, m2], None)
  {
    assert segs[1..] == [Var(m2)] && segs[1..][1..] == [];
    assert [] + [m1] == [m1] && m2 !in [m1] && [m1] + [m2] == [m1, m2];
    assert ScanRefs(c, n, segs[1..], [m1]) == ScanRefs(c, n, [], [m1, m2]);
  }

  /** A value referring to two other variables records both. */
  lemma RecordsTwo(c: Context, n: string, text: string, m1: string, m2: string)
    requires n in c.t.defs && c.t.defs[n].value.Some? && EagerTemplate(c.t.defs[n].value.value) == Some(text)
    requires Segments(text) == [Var(m1), Var(m2)] && m1 in c.t.defs && m2 in c.t.defs && m1 != n && m2 != n && m1 != m2
    ensures RecordedDeps(c, n) == [m1, m2]
  {
    ScanTwo(c, n, Segments(text), m1, m2);
  }

  lemma DiamondDeps(a: string, b: string, e: string, d: string, v: string)
    requires DiamondNames(a, b, e, d, v)
    ensures DiamondCtx(a, b, e, d, v).Valid()
    ensures var g := DepGraph(DiamondCtx(a, b, e, d, v)); g[a] == [b, e] && g[b] == [d] && g[e] == [d]
  {
    var c := DiamondCtx(a, b, e, d, v);
    FourValid(a, b, e, d, Lit("$" + b + "$" + e), Lit("$" + d), Lit("$" + d), Lit(v));
    TwoBare(b, e);
    BareRef(d);
    assert c.t.defs[a] == Lit("$" + b + "$" + e) && c.t.defs[b] == Lit("$" + d) && c.t.defs[e] == Lit("$" + d);
    RecordsTwo(c, a, "$" + b + "$" + e, b, e);
    RecordsOne(c, b, "$" + d, d);
    RecordsOne(c, e, "$" + d, d);
  }

  /** Two dependencies that share one of their own: the walk meets the
      shared name twice on one level. */
  lemma DiamondWalk(g: Graph, a: string, b: string, e: string, d: string)
    requires Closed(g) && a in g && b in g && e in g && d in g && b != e
    requires g[a] == [b, e] && g[b] == [d] && g[e] == [d]
    ensures Detects(g, g[a], {})
  {
    var level := [b, e];
    assert level[..0] == [] && level[..1] == [b];
    assert !Revisits(level, {});
    assert level[1..] == [e] && [e][1..] == [];
    assert Flatten(g, [e]) == [d] + Flatten(g, []);
    assert Flatten(g, level) == [d] + Flatten(g, [e]);
    assert Flatten(g, level) == [d, d];
    assert Detects(g, level, {}) == Detects(g, [d, d], {} + Elems(level));
    assert [d, d][..1] == [d];
    assert Revisits([d, d], {} + Elems(level));
  }

  /** `{ A: '$B$C', B: '$D', C: '$D', D: 'abc' }`: no variable waits on
      itself, yet the walk meets `D` twice and `A` is rejected as
      circular. */
  lemma DiamondTable(a: string, b: string, e: string, d: string, v: string)
    requires DiamondNames(a, b, e, d, v)
    ensures ResolveTable(DiamondCtx(a, b, e, d, v)) == Failed("Circular dependency: " + a)
  {
    var c := DiamondCtx(a, b, e, d, v);
    DiamondDeps(a, b, e, d, v);
    DiamondWalk(DepGraph(c), a, b, e, d);
    assert a in Rejections(c);
    RejectedFails(c, Rejections(c), a);
    assert c.t.names[0] == a && Valued(c);
    FailsAt(c, 0, "Circular dependency: " + a);
  }
}
