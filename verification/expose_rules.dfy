/** The expose context of src/exposectx.js: `extend` compiles an expose
    configuration into an ordered list of rules, and `apply` runs the rules
    one after the other. User functions in the configuration are foreign
    code: what each one does on a given environment enters as a
    `Behaviour` parameter (the values it passes to its callback and the
    value it returns). Watching the child's output with a regex is reduced
    to registering a watch; each later match is an input event. */
module ExposeRules {
  import opened Outcomes

  type Env = map<string, string>

  /** One call of the expose callback: keys to values, where `None` is
      JavaScript's `undefined`. */
  type Exposure = map<string, Option<string>>

  /** The `regex` field of an object definition. `NoRegex` is any falsy
      value; `RegexText` a string, `RegexObject` a RegExp (by its source),
      `NotRegex` any other truthy value, shown by its string form. */
  datatype RegexField = NoRegex | RegexText(text: string) | RegexObject(source: string) | NotRegex(shown: string)

  /** The value of one key of a map definition. `Scalar` is a string,
      number, boolean, `null` or `undefined`, by its string form. */
  datatype ExposeValue = Scalar(text: string) | ValueFn(id: nat) | Definition(regex: RegexField)

  /** An expose configuration: a list, a whole-map function, a map (its
      entries in `Object.keys` order), a bare variable name, or anything
      else, which is ignored. */
  datatype ExposeConfig =
    | Configs(items: seq<ExposeConfig>)
    | MapFn(id: nat)
    | Entries(entries: seq<(string, ExposeValue)>)
    | Name(name: string)
    | Ignored

  datatype Pattern = Pattern(source: string)

  /** The compiled rules, one per closure pushed onto `fns`. */
  datatype Rule =
    | ExposeEnv(name: string)
    | ExposeText(key: string, text: string)
    | CallValue(key: string, id: nat)
    | CallMap(id: nat)
    | WatchTap(key: string, pattern: Pattern)

  /** What `extend` did: the rules it pushed and the error it threw. The
      rules pushed before a throw stay pushed. */
  datatype Compiled = Compiled(rules: seq<Rule>, error: Option<string>)

  /** A per-key function's run: the values (in string form) it passed to
      its callback, then what it returned (`None` for `undefined`). */
  datatype ValueRun = ValueRun(calls: seq<string>, returned: Option<string>)

  /** A whole-map function's run: the maps it passed to its callback,
      then the map it returned, if any. */
  datatype MapRun = MapRun(calls: seq<Exposure>, returned: Option<Exposure>)

  datatype Behaviour = Behaviour(valueFn: (nat, Env) -> ValueRun, mapFn: (nat, Env) -> MapRun)

  /** What running the rules does, in order: an exposure passed to the
      callback, or a regex watch attached to the tap. */
  datatype Effect = Expose(exposure: Exposure) | Watch(key: string, pattern: Pattern)

  const InvalidRegex := "Invalid regex value: "

  /** One key of a map definition (src/exposectx.js:33-56). */
  function CompileValue(key: string, v: ExposeValue): (r: Compiled)
    ensures |r.rules| <= 1 && (r.error.Some? ==> r.rules == [])
    ensures r.error.Some? <==> v.Definition? && v.regex.NotRegex?
    ensures r.error.Some? ==> r.error.value == InvalidRegex + v.regex.shown
    ensures r.rules == [] && r.error.None? <==>
              v.Definition? && (v.regex.NoRegex? || v.regex == RegexText(""))
  {
    match v
    case Scalar(text) => Compiled([ExposeText(key, text)], None)
    case ValueFn(id) => Compiled([CallValue(key, id)], None)
    case Definition(regex) =>
      match regex
      case NoRegex => Compiled([], None)
      case RegexText(text) =>
        if text == "" then Compiled([], None) else Compiled([WatchTap(key, Pattern(text))], None)
      case RegexObject(source) => Compiled([WatchTap(key, Pattern(source))], None)
      case NotRegex(shown) => Compiled([], Some(InvalidRegex + shown))
  }

  /** The keys of a map definition, in order, stopping at the first
      error (src/exposectx.js:32-57). Defined by its last entry, as a
      left-to-right loop builds it. */
  function CompileEntries(entries: seq<(string, ExposeValue)>): Compiled
  {
    if entries == [] then Compiled([], None)
    else
      var front := CompileEntries(entries[..|entries| - 1]);
      if front.error.Some? then front
      else
        var last := CompileValue(entries[|entries| - 1].0, entries[|entries| - 1].1);
        Compiled(front.rules + last.rules, last.error)
  }

  /** `extend` (src/exposectx.js:18-62). */
  function Compile(c: ExposeConfig): Compiled
    decreases c
  {
    match c
    case Configs(items) => CompileAll(items)
    case MapFn(id) => Compiled([CallMap(id)], None)
    case Entries(entries) => CompileEntries(entries)
    case Name(name) => Compiled([ExposeEnv(name)], None)
    case Ignored => Compiled([], None)
  }

  /** The elements of a list configuration, in order (src/exposectx.js:19-20). */
  function CompileAll(items: seq<ExposeConfig>): Compiled
    decreases items
  {
    if items == [] then Compiled([], None)
    else
      var front := CompileAll(items[..|items| - 1]);
      if front.error.Some? then front
      else
        var last := Compile(items[|items| - 1]);
        Compiled(front.rules + last.rules, last.error)
  }

  /** A configuration that `extend` accepts: no object definition whose
      `regex` is neither a string nor a RegExp. */
  predicate WellFormed(c: ExposeConfig)
    decreases c
  {
    match c
    case Configs(items) => forall k :: 0 <= k < |items| ==> WellFormed(items[k])
    case Entries(entries) => forall k :: 0 <= k < |entries| ==> !IsInvalid(entries[k].1)
    case _ => true
  }

  predicate IsInvalid(v: ExposeValue) {
    v.Definition? && v.regex.NotRegex?
  }

  /** A map definition's keys compile one by one; an invalid key stops
      the rest. */
  lemma {:induction false} EntriesError(entries: seq<(string, ExposeValue)>)
    ensures var r := CompileEntries(entries);
            && (r.error.None? <==> forall k :: 0 <= k < |entries| ==> !IsInvalid(entries[k].1))
            && (r.error.Some? ==> exists shown :: r.error.value == InvalidRegex + shown)
  {
    if entries != [] {
      var front := entries[..|entries| - 1];
      EntriesError(front);
      assert forall k :: 0 <= k < |front| ==> front[k] == entries[k];
    }
  }

  /** `extend` throws exactly when the configuration holds an invalid
      regex, and then with the `Invalid regex value` message. */
  lemma {:induction false} CompileError(c: ExposeConfig)
    ensures Compile(c).error.None? <==> WellFormed(c)
    ensures Compile(c).error.Some? ==> exists shown :: Compile(c).error.value == InvalidRegex + shown
    decreases c, 1
  {
    match c
    case Configs(items) => AllError(c, items);
    case Entries(entries) => EntriesError(entries);
    case _ =>
  }

  lemma {:induction false} AllError(c: ExposeConfig, items: seq<ExposeConfig>)
    requires forall k :: 0 <= k < |items| ==> items[k] < c
    ensures CompileAll(items).error.None? <==> forall k :: 0 <= k < |items| ==> WellFormed(items[k])
    ensures CompileAll(items).error.Some? ==> exists shown :: CompileAll(items).error.value == InvalidRegex + shown
    decreases c, 0, |items|
  {
    if items != [] {
      var front := items[..|items| - 1];
      AllError(c, front);
      CompileError(items[|items| - 1]);
      assert forall k :: 0 <= k < |front| ==> front[k] == items[k];
    }
  }

  /** The rules of a list are those of its parts in order; once a part
      throws, the rules pushed so far stay and nothing after is compiled. */
  lemma {:induction false} CompileAllAppend(a: seq<ExposeConfig>, b: seq<ExposeConfig>)
    ensures CompileAll(a + b) ==
              if CompileAll(a).error.Some? then CompileAll(a)
              else Compiled(CompileAll(a).rules + CompileAll(b).rules, CompileAll(b).error)
    decreases |b|
  {
    if b == [] {
      assert a + b == a;
    } else {
      var front := b[..|b| - 1];
      CompileAllAppend(a, front);
      assert (a + b)[..|a + b| - 1] == a + front;
      assert (a + b)[|a + b| - 1] == b[|b| - 1];
    }
  }

  function Lookup(env: Env, name: string): Option<string> {
    if name in env then Some(env[name]) else None
  }

  /** A per-key function's exposures: each callback value, then the
      returned value unless it is `undefined`, all under its key
      (src/exposectx.js:36-41). */
  function ValueExposures(key: string, run: ValueRun): (r: seq<Effect>)
    ensures |r| == |run.calls| + (if run.returned.Some? then 1 else 0)
    ensures forall i :: 0 <= i < |r| ==> r[i].Expose? && r[i].exposure.Keys == {key}
    ensures forall i :: 0 <= i < |run.calls| ==> r[i].exposure[key] == Some(run.calls[i])
    ensures run.returned.Some? ==> r[|r| - 1].exposure[key] == run.returned
  {
    seq(|run.calls|, i requires 0 <= i < |run.calls| => Expose(map[key := Some(run.calls[i])]))
      + (if run.returned.Some? then [Expose(map[key := run.returned])] else [])
  }

  /** A whole-map function's exposures: what it passed to the callback,
      then the map it returned, if any (src/exposectx.js:22-29). */
  function MapExposures(run: MapRun): (r: seq<Effect>)
    ensures |r| == |run.calls| + (if run.returned.Some? then 1 else 0)
    ensures forall i :: 0 <= i < |run.calls| ==> r[i] == Expose(run.calls[i])
    ensures run.returned.Some? ==> r[|r| - 1] == Expose(run.returned.value)
  {
    seq(|run.calls|, i requires 0 <= i < |run.calls| => Expose(run.calls[i]))
      + (if run.returned.Some? then [Expose(run.returned.value)] else [])
  }

  /** What one rule does when applied. */
  function RuleEffects(rule: Rule, env: Env, run: Behaviour): seq<Effect> {
    match rule
    case ExposeEnv(name) => [Expose(map[name := Lookup(env, name)])]
    case ExposeText(key, text) => [Expose(map[key := Some(text)])]
    case CallValue(key, id) => ValueExposures(key, run.valueFn(id, env))
    case CallMap(id) => MapExposures(run.mapFn(id, env))
    case WatchTap(key, pattern) => [Watch(key, pattern)]
  }

  /** The rules run one after the other (src/exposectx.js:84-86). */
  function Trace(rules: seq<Rule>, env: Env, run: Behaviour): seq<Effect> {
    if rules == [] then []
    else Trace(rules[..|rules| - 1], env, run) + RuleEffects(rules[|rules| - 1], env, run)
  }

  lemma {:induction false} TraceAppend(a: seq<Rule>, b: seq<Rule>, env: Env, run: Behaviour)
    ensures Trace(a + b, env, run) == Trace(a, env, run) + Trace(b, env, run)
    decreases |b|
  {
    if b == [] {
      assert a + b == a;
    } else {
      var front, last := b[..|b| - 1], b[|b| - 1];
      TraceAppend(a, front, env, run);
      SplitLast(a, b);
      TraceSnoc(a + front, last, env, run);
      TraceSnoc(front, last, env, run);
      Assoc(Trace(a, env, run), Trace(front, env, run), RuleEffects(last, env, run));
    }
  }

  lemma SplitLast<T>(a: seq<T>, b: seq<T>)
    requires b != []
    ensures a + b == (a + b[..|b| - 1]) + [b[|b| - 1]]
    ensures b == b[..|b| - 1] + [b[|b| - 1]]
  {
  }

  lemma TraceSnoc(rules: seq<Rule>, rule: Rule, env: Env, run: Behaviour)
    ensures Trace(rules + [rule], env, run) == Trace(rules, env, run) + RuleEffects(rule, env, run)
  {
    var rs := rules + [rule];
    assert rs[..|rs| - 1] == rules && rs[|rs| - 1] == rule;
  }

  /** Each match of a watched regex exposes its first capture group under
      the watch's key, `undefined` when the regex has no group
      (src/exposectx.js:49-51). */
  function MatchExposure(key: string, captures: seq<Option<string>>): Exposure {
    map[key := if |captures| > 0 then captures[0] else None]
  }

  /** The meaning of a configuration read directly: what exposing it does
      on an environment, key by key and item by item. */
  function Interpret(c: ExposeConfig, env: Env, run: Behaviour): seq<Effect>
    decreases c
  {
    match c
    case Configs(items) => InterpretAll(items, env, run)
    case MapFn(id) => MapExposures(run.mapFn(id, env))
    case Entries(entries) => InterpretEntries(entries, env, run)
    case Name(name) => [Expose(map[name := Lookup(env, name)])]
    case Ignored => []
  }

  function InterpretAll(items: seq<ExposeConfig>, env: Env, run: Behaviour): seq<Effect>
    decreases items
  {
    if items == [] then [] else Interpret(items[0], env, run) + InterpretAll(items[1..], env, run)
  }

  function InterpretEntries(entries: seq<(string, ExposeValue)>, env: Env, run: Behaviour): seq<Effect> {
    if entries == [] then []
    else InterpretValue(entries[0].0, entries[0].1, env, run) + InterpretEntries(entries[1..], env, run)
  }

  function InterpretValue(key: string, v: ExposeValue, env: Env, run: Behaviour): seq<Effect> {
    match v
    case Scalar(text) => [Expose(map[key := Some(text)])]
    case ValueFn(id) => ValueExposures(key, run.valueFn(id, env))
    case Definition(regex) =>
      match regex
      case RegexText(text) => if text == "" then [] else [Watch(key, Pattern(text))]
      case RegexObject(source) => [Watch(key, Pattern(source))]
      case _ => []
  }

  lemma {:induction false} InterpretAllSnoc(items: seq<ExposeConfig>, env: Env, run: Behaviour)
    requires items != []
    ensures InterpretAll(items, env, run)
            == InterpretAll(items[..|items| - 1], env, run) + Interpret(items[|items| - 1], env, run)
    decreases |items|
  {
    if |items| > 1 {
      InterpretAllSnoc(items[1..], env, run);
      assert items[1..][..|items[1..]| - 1] == items[..|items| - 1][1..];
    }
  }

  lemma {:induction false} InterpretEntriesSnoc(entries: seq<(string, ExposeValue)>, env: Env, run: Behaviour)
    requires entries != []
    ensures InterpretEntries(entries, env, run)
            == InterpretEntries(entries[..|entries| - 1], env, run)
               + InterpretValue(entries[|entries| - 1].0, entries[|entries| - 1].1, env, run)
    decreases |entries|
  {
    if |entries| > 1 {
      InterpretEntriesSnoc(entries[1..], env, run);
      assert entries[1..][..|entries[1..]| - 1] == entries[..|entries| - 1][1..];
    }
  }

  lemma {:induction false} EntriesCorrect(entries: seq<(string, ExposeValue)>, env: Env, run: Behaviour)
    requires CompileEntries(entries).error.None?
    ensures Trace(CompileEntries(entries).rules, env, run) == InterpretEntries(entries, env, run)
  {
    if entries != [] {
      var front := entries[..|entries| - 1];
      var (key, v) := entries[|entries| - 1];
      EntriesCorrect(front, env, run);
      InterpretEntriesSnoc(entries, env, run);
      TraceAppend(CompileEntries(front).rules, CompileValue(key, v).rules, env, run);
      ValueCorrect(key, v, env, run);
    }
  }

  lemma TraceSingle(rule: Rule, env: Env, run: Behaviour)
    ensures Trace([rule], env, run) == RuleEffects(rule, env, run)
  {
    assert [rule][..0] == [];
  }

  lemma ValueCorrect(key: string, v: ExposeValue, env: Env, run: Behaviour)
    requires CompileValue(key, v).error.None?
    ensures Trace(CompileValue(key, v).rules, env, run) == InterpretValue(key, v, env, run)
  {
    var rs := CompileValue(key, v).rules;
    if rs != [] {
      TraceSingle(rs[0], env, run);
      assert rs == [rs[0]];
    }
  }

  /** Compiling then applying a configuration that `extend` accepts does
      exactly what the configuration says. */
  lemma {:induction false} CompileCorrect(c: ExposeConfig, env: Env, run: Behaviour)
    requires Compile(c).error.None?
    ensures Trace(Compile(c).rules, env, run) == Interpret(c, env, run)
    decreases c, 1
  {
    match c
    case Configs(items) => AllCorrect(c, items, env, run);
    case Entries(entries) => EntriesCorrect(entries, env, run);
    case MapFn(id) => TraceSingle(CallMap(id), env, run);
    case Name(name) => TraceSingle(ExposeEnv(name), env, run);
    case Ignored =>
  }

  lemma {:induction false} AllCorrect(c: ExposeConfig, items: seq<ExposeConfig>, env: Env, run: Behaviour)
    requires forall k :: 0 <= k < |items| ==> items[k] < c
    requires CompileAll(items).error.None?
    ensures Trace(CompileAll(items).rules, env, run) == InterpretAll(items, env, run)
    decreases c, 0, |items|
  {
    if items != [] {
      var front := items[..|items| - 1];
      var last := items[|items| - 1];
      AllCorrect(c, front, env, run);
      CompileCorrect(last, env, run);
      InterpretAllSnoc(items, env, run);
      TraceAppend(CompileAll(front).rules, Compile(last).rules, env, run);
    }
  }

  /** One more element compiled, while none has thrown yet. */
  lemma AllStep(items: seq<ExposeConfig>, k: nat)
    requires k < |items| && CompileAll(items[..k]).error.None?
    ensures CompileAll(items[..k + 1])
            == Compiled(CompileAll(items[..k]).rules + Compile(items[k]).rules, Compile(items[k]).error)
  {
    var p := items[..k + 1];
    assert p[..|p| - 1] == items[..k] && p[|p| - 1] == items[k];
  }

  /** Once an element has thrown, the rest of the list is not compiled. */
  lemma AllStop(items: seq<ExposeConfig>, k: nat)
    requires k < |items| && CompileAll(items[..k + 1]).error.Some?
    ensures CompileAll(items) == CompileAll(items[..k + 1])
  {
    CompileAllAppend(items[..k + 1], items[k + 1..]);
    assert items[..k + 1] + items[k + 1..] == items;
  }

  /** The `fns` list of one expose context. */
  class ExposeContext {
    var rules: seq<Rule>

    constructor()
      ensures rules == []
    {
      rules := [];
    }

    /** `extend`: pushes the configuration's rules, and on an invalid regex
        throws after the ones pushed before it. */
    method Extend(c: ExposeConfig) returns (err: Option<string>)
      modifies this
      ensures rules == old(rules) + Compile(c).rules
      ensures err == Compile(c).error
      decreases c
    {
      err := None;
      match c
      case Configs(items) =>
        var k := 0;
        while k < |items|
          invariant 0 <= k <= |items|
          invariant rules == old(rules) + CompileAll(items[..k]).rules
          invariant CompileAll(items[..k]).error.None? && err.None?
        {
          err := Extend(items[k]);
          AllStep(items, k);
          Assoc(old(rules), CompileAll(items[..k]).rules, Compile(items[k]).rules);
          if err.Some? {
            AllStop(items, k);
            return;
          }
          k := k + 1;
        }
        assert items[..k] == items;
      case MapFn(id) =>
        rules := rules + [CallMap(id)];
      case Entries(entries) =>
        err := ExtendEntries(entries);
      case Name(name) =>
        rules := rules + [ExposeEnv(name)];
      case Ignored =>
    }

    /** The keys of a map definition, in order (src/exposectx.js:32-57). */
    method ExtendEntries(entries: seq<(string, ExposeValue)>) returns (err: Option<string>)
      modifies this
      ensures rules == old(rules) + CompileEntries(entries).rules
      ensures err == CompileEntries(entries).error
    {
      err := None;
      var k := 0;
      while k < |entries|
        invariant 0 <= k <= |entries|
        invariant rules == old(rules) + CompileEntries(entries[..k]).rules
        invariant CompileEntries(entries[..k]).error.None? && err.None?
      {
        assert entries[..k + 1][..k] == entries[..k];
        err := ExtendKey(entries[k].0, entries[k].1);
        if err.Some? {
          EntriesStop(entries, k);
          return;
        }
        k := k + 1;
      }
      assert entries[..k] == entries;
    }

    /** One key: a scalar, a per-key function, or an object definition
        whose `regex` is compiled (src/exposectx.js:33-56). */
    method ExtendKey(key: string, v: ExposeValue) returns (err: Option<string>)
      modifies this
      ensures rules == old(rules) + CompileValue(key, v).rules
      ensures err == CompileValue(key, v).error
    {
      err := None;
      match v
      case Scalar(text) =>
        rules := rules + [ExposeText(key, text)];
      case ValueFn(id) =>
        rules := rules + [CallValue(key, id)];
      case Definition(regex) =>
        match regex
        case NoRegex =>
        case RegexText(text) =>
          if text != "" {
            rules := rules + [WatchTap(key, Pattern(text))];
          }
        case RegexObject(source) =>
          rules := rules + [WatchTap(key, Pattern(source))];
        case NotRegex(shown) =>
          err := Some(InvalidRegex + shown);
    }

    /** `apply`: runs every rule in order on the environment (an empty
        one when none is given) and returns what they did. */
    method Apply(env: Option<Env>, run: Behaviour) returns (effects: seq<Effect>)
      ensures effects == Trace(rules, if env.Some? then env.value else map[], run)
    {
      var e := if env.Some? then env.value else map[];
      effects := [];
      var k := 0;
      while k < |rules|
        invariant 0 <= k <= |rules|
        invariant effects == Trace(rules[..k], e, run)
      {
        assert rules[..k + 1][..k] == rules[..k];
        effects := effects + RuleEffects(rules[k], e, run);
        k := k + 1;
      }
      assert rules[..k] == rules;
    }
  }

  /** An invalid key at `k` ends the compilation of a map definition with
      the rules of the keys before it. */
  lemma {:induction false} EntriesStop(entries: seq<(string, ExposeValue)>, k: nat)
    requires k < |entries| && IsInvalid(entries[k].1)
    requires CompileEntries(entries[..k]).error.None?
    ensures CompileEntries(entries).rules == CompileEntries(entries[..k]).rules
    ensures CompileEntries(entries).error == Some(InvalidRegex + entries[k].1.regex.shown)
    decreases |entries|
  {
    if |entries| == k + 1 {
      assert entries[..|entries| - 1] == entries[..k];
    } else {
      var front := entries[..|entries| - 1];
      assert front[..k] == entries[..k];
      EntriesStop(front, k);
    }
  }

  /** A map definition watching the child's output for a port: applying it
      only attaches the watch; a later match exposes the port number. */
  lemma WatchPortExample(source: string, env: Env, run: Behaviour, port: string)
    requires source != ""
    ensures var c := Entries([("PORT", Definition(RegexObject(source)))]);
            && Compile(c) == Compiled([WatchTap("PORT", Pattern(source))], None)
            && Interpret(c, env, run) == [Watch("PORT", Pattern(source))]
            && MatchExposure("PORT", [Some(port)])["PORT"] == Some(port)
  {
    var entries := [("PORT", Definition(RegexObject(source)))];
    var rule := WatchTap("PORT", Pattern(source));
    assert entries[..|entries| - 1] == [];
    assert CompileValue("PORT", Definition(RegexObject(source))) == Compiled([rule], None);
    assert CompileEntries(entries) == Compiled([] + [rule], None);
    assert [] + [rule] == [rule];
    assert entries[1..] == [];
    assert InterpretEntries([], env, run) == [];
  }

  /** An invalid regex in the middle of a list throws after the rules of
      the items before it were pushed; the items after it add nothing. */
  lemma InvalidInTheMiddle(a: string, b: string, c: string, shown: string)
    ensures Compile(Configs([Name(a), Entries([(b, Definition(NotRegex(shown)))]), Name(c)]))
            == Compiled([ExposeEnv(a)], Some(InvalidRegex + shown))
  {
    var es := [(b, Definition(NotRegex(shown)))];
    var bad := Entries(es);
    var items := [Name(a), bad, Name(c)];
    var failed := Compiled([], Some(InvalidRegex + shown));
    assert es[..|es| - 1] == [];
    assert CompileValue(b, Definition(NotRegex(shown))) == failed;
    assert CompileEntries(es) == failed;
    assert Compile(bad) == failed;
    assert items[..2][..1] == [Name(a)] && items[..2][1] == bad;
    assert [Name(a)][..0] == [];
    assert CompileAll([Name(a)]) == Compiled([ExposeEnv(a)], None);
    assert [ExposeEnv(a)] + [] == [ExposeEnv(a)];
    assert CompileAll(items[..2]) == Compiled([ExposeEnv(a)], Some(InvalidRegex + shown));
    assert items[..|items| - 1] == items[..2];
  }
}
