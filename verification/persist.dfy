/** The env-file codec (src/persist.js): `parseEnvLine` folded over the
    lines of a file, and the writer `writeEnvStream`/`writeEnvLine`. The
    streams themselves are left to the caller: a file is read as the lines
    `readline` splits it into, and written as the sequence of chunks passed
    to `output.write`. */
module Persist {
  import opened Outcomes
  import opened JsText
  import opened Backtrack

  // ---------------------------------------------------------------------
  // Reading one line

  /** The class `[\w.-]` of key characters. */
  predicate IsKeyChar(c: char) {
    ('a' <= c <= 'z') || ('A' <= c <= 'Z') || ('0' <= c <= '9') || c == '_' || c == '.' || c == '-'
  }

  /** What `.` matches: anything but a line terminator. */
  predicate NotTerminator(c: char) { !IsLineTerminator(c) }

  predicate IsKey(k: string) {
    k != [] && forall i :: 0 <= i < |k| ==> IsKeyChar(k[i])
  }

  predicate OneLine(v: string) {
    forall i :: 0 <= i < |v| ==> NotTerminator(v[i])
  }

  /** The captures of `/^\s*([\w.-]+)\s*=\s*(.*)?\s*$/`: the key, and the
      value text, which is `None` (`undefined`) when the optional group
      is skipped. The captured value keeps its trailing blanks: the
      greedy `(.*)` takes them, and only `Unquote` trims them.

      That the greedy runs below give the engine's match is argued here,
      not proved against `Backtrack`. A shorter leading `\s*` would leave
      `[\w.-]+` at a blank, and a shorter key run would leave `\s*=` at a
      key character, so neither can succeed. After the `=`, the greedy
      choices are the ones the backtracking matcher tries first, so when
      they reach the end they are the match reported; `(.*)?` is skipped
      (`undefined`) when `.*` takes nothing, since an empty iteration is
      rejected. When the greedy `.*` stops at a line terminator that is
      followed by something other than white space, no other choice can
      cover that terminator and the later character, so there is no
      match. */
  function MatchLine(line: string): (m: Option<(string, Option<string>)>)
    ensures m.Some? ==> IsKey(m.value.0)
    ensures m.Some? && m.value.1.Some? ==> m.value.1.value != [] && !IsSpace(m.value.1.value[0]) && OneLine(m.value.1.value)
  {
    var a := RunEnd(IsSpace, line, 0);
    var b := RunEnd(IsKeyChar, line, a);
    var c := RunEnd(IsSpace, line, b);
    if b == a || c == |line| || line[c] != '=' then None
    else
      var d := RunEnd(IsSpace, line, c + 1);
      var e := RunEnd(NotTerminator, line, d);
      if !AllSpace(line[e..]) then None
      else Some((line[a..b], if e == d then None else Some(line[d..e])))
  }

  /** `/^\s*#/` */
  predicate IsComment(line: string) {
    var a := RunEnd(IsSpace, line, 0);
    a < |line| && line[a] == '#'
  }

  /** `val && val.trim()`, then the quote handling: a value between double
      quotes loses them and has every `\n` turned into a newline; one
      between single quotes only loses them. A value of one quote
      character is both opened and closed by it, and `substring(1, 0)`
      gives it back unchanged. */
  function Unquote(raw: Option<string>): (v: Option<string>)
    ensures v.None? <==> raw.None?
  {
    match raw
    case None => None
    case Some(r) =>
      var t := Trim(r);
      if t == [] then Some(t)
      else if t[0] == '"' && t[|t| - 1] == '"' then Some(ReplaceAll(Substring(t, 1, |t| - 1), "\\n", "\n"))
      else if t[0] == '\'' && t[|t| - 1] == '\'' then Some(Substring(t, 1, |t| - 1))
      else Some(t)
  }

  datatype LineResult = Entry(key: string, value: Option<string>) | Skip

  /** `parseEnvLine`: an assignment, a line to skip, or the error. */
  function ParseEnvLine(line: string): (r: Result<LineResult>)
    ensures r.Err? ==> r.msg == "Cannot parse env line: " + line
    ensures r.Ok? && r.value.Entry? ==> IsKey(r.value.key)
  {
    match MatchLine(line)
    case Some((key, raw)) => Ok(Entry(key, Unquote(raw)))
    case None =>
      if IsComment(line) || AllSpace(line) then Ok(Skip)
      else Err("Cannot parse env line: " + line)
  }

  /** Comment lines and blank lines are skipped, and every other line
      either assigns or is rejected. */
  lemma CommentsAndBlanksSkipped(line: string)
    ensures IsComment(line) || AllSpace(line) ==> ParseEnvLine(line) == Ok(Skip)
    ensures ParseEnvLine(line) == Ok(Skip) ==> IsComment(line) || AllSpace(line)
  {
    var a := RunEnd(IsSpace, line, 0);
    if IsComment(line) || AllSpace(line) {
      if AllSpace(line) {
        RunEndIs(IsSpace, line, 0, |line|);
      }
      assert RunEnd(IsKeyChar, line, a) == a;
    }
  }

  // ---------------------------------------------------------------------
  // Reading a file

  /** The object a file is read into: its keys in the order of their
      first assignment. */
  datatype Env = Env(keys: seq<string>, vals: map<string, Option<string>>) {
    ghost predicate Valid() {
      (forall i, j :: 0 <= i < j < |keys| ==> keys[i] != keys[j])
      && (forall k :: k in vals <==> k in keys)
    }
  }

  const NoEnv := Env([], map[])

  /** `env[key] = val`: the last write wins, a new key goes last, and
      every other key keeps its value and place. */
  function Store(env: Env, key: string, val: Option<string>): (r: Env)
    requires env.Valid()
    ensures r.Valid()
    ensures key in r.vals && r.vals[key] == val
    ensures key in env.vals ==> r.keys == env.keys
    ensures key !in env.vals ==> r.keys == env.keys + [key]
    ensures forall n :: n != key ==> (n in r.vals <==> n in env.vals) && (n in env.vals ==> r.vals[n] == env.vals[n])
  {
    if key in env.vals then Env(env.keys, env.vals[key := val])
    else Env(env.keys + [key], env.vals[key := val])
  }

  /** `parseEnvLine` over the lines in order, into one object; the first
      line that cannot be parsed stops the read with its error. */
  function ReadLines(env: Env, lines: seq<string>): (r: Result<Env>)
    requires env.Valid()
    ensures r.Ok? ==> r.value.Valid()
    decreases |lines|
  {
    if lines == [] then Ok(env)
    else match ParseEnvLine(lines[0])
      case Err(m) => Err(m)
      case Ok(Skip) => ReadLines(env, lines[1..])
      case Ok(Entry(k, v)) => ReadLines(Store(env, k, v), lines[1..])
  }

  /** The characters at which `readline` ends a line. */
  predicate NotBreak(c: char) { c != '\n' && c != '\r' }

  /** `readline` with `crlfDelay: Infinity`: lines end at `\n`, `\r\n` or a
      lone `\r`, and a final line without an ending still counts. */
  function SplitLines(s: string): (lines: seq<string>)
    decreases |s|
  {
    if s == [] then []
    else
      var i := RunEnd(NotBreak, s, 0);
      if i == |s| then [s]
      else
        var next := if s[i] == '\r' && i + 1 < |s| && s[i + 1] == '\n' then i + 2 else i + 1;
        [s[..i]] + SplitLines(s[next..])
  }

  // ---------------------------------------------------------------------
  // Writing

  /** `writeEnvLine`: a falsy value is written empty, and a value with a
      newline is put between double quotes. The newline itself is written
      as it is: the source calls `value.replace('\n', ...)` only for its
      side effect of setting the quote, and drops the replaced text. */
  function EnvLine(key: string, value: Option<string>): string {
    var v := if value.Some? then value.value else "";
    var quote := if '\n' in v then "\"" else "";
    key + "=" + quote + v + quote + "\n"
  }

  /** The chunks `writeEnvStream` writes for an object. */
  function EnvChunks(env: Env, n: nat): (chunks: seq<string>)
    requires env.Valid() && n <= |env.keys|
    ensures |chunks| == n
  {
    seq(n, i requires 0 <= i < n => EnvLine(env.keys[i], env.vals[env.keys[i]]))
  }

  /** `writeEnvStream`: one `output.write` per key, in key order; a
      missing object writes nothing. */
  method WriteEnvStream(env: Option<Env>) returns (writes: seq<string>)
    requires env.Some? ==> env.value.Valid()
    ensures env.None? ==> writes == []
    ensures env.Some? ==> |writes| == |env.value.keys|
    ensures env.Some? ==> forall i :: 0 <= i < |writes| ==>
      writes[i] == EnvLine(env.value.keys[i], env.value.vals[env.value.keys[i]])
  {
    writes := [];
    if env.None? {
      return;
    }
    var e := env.value;
    var i := 0;
    while i < |e.keys|
      invariant 0 <= i <= |e.keys|
      invariant writes == EnvChunks(e, i)
    {
      var key := e.keys[i];
      writes := writes + [EnvLine(key, e.vals[key])];
      i := i + 1;
    }
  }

  function Concat(chunks: seq<string>): string {
    if chunks == [] then [] else chunks[0] + Concat(chunks[1..])
  }

  // ---------------------------------------------------------------------
  // What a written file reads back as

  /** A value that is written on one line and read back as it is. */
  predicate SafeValue(v: string) {
    OneLine(v)
    && (v == [] || (!IsSpace(v[0]) && !IsSpace(v[|v| - 1]) && !((v[0] == '"' || v[0] == '\'') && v[|v| - 1] == v[0])))
  }

  /** What reading gives back for a written value: an empty value comes
      back as `undefined`. */
  function ReadBack(value: Option<string>): Option<string> {
    if value.None? || value.value == [] then None else value
  }

  lemma LineMatches(k: string, v: string)
    requires IsKey(k) && OneLine(v) && (v == [] || !IsSpace(v[0]))
    ensures MatchLine(k + "=" + v) == Some((k, if v == [] then None else Some(v)))
  {
    var line := k + "=" + v;
    assert line[|k|] == '=';
    forall i | 0 <= i < |k| ensures IsKeyChar(line[i]) { assert line[i] == k[i]; }
    RunEndIs(IsSpace, line, 0, 0);
    RunEndIs(IsKeyChar, line, 0, |k|);
    RunEndIs(IsSpace, line, |k|, |k|);
    forall i | |k| + 1 <= i < |line| ensures NotTerminator(line[i]) { assert line[i] == v[i - |k| - 1]; }
    if v != [] { assert line[|k| + 1] == v[0]; }
    RunEndIs(IsSpace, line, |k| + 1, |k| + 1);
    RunEndIs(NotTerminator, line, |k| + 1, |line|);
    assert line[0..|k|] == k && line[|k| + 1..|line|] == v;
  }

  /** A line the writer produces for a safe value reads back as the same
      key and value. */
  lemma LineRoundTrip(k: string, value: Option<string>)
    requires IsKey(k) && (value.Some? ==> SafeValue(value.value))
    ensures EnvLine(k, value) == k + "=" + (if value.Some? then value.value else "") + "\n"
    ensures ParseEnvLine(k + "=" + (if value.Some? then value.value else "")) == Ok(Entry(k, ReadBack(value)))
  {
    var v := if value.Some? then value.value else "";
    OneLineWritten(k, v);
    assert EnvLine(k, value) == EnvLine(k, Some(v));
    LineMatches(k, v);
    assert Unquote(Some(v)) == Some(v);
  }

  /** Lines without line breaks, each ended by `\n`, split back into
      themselves. */
  lemma {:induction false} SplitJoined(lines: seq<string>)
    requires forall j :: 0 <= j < |lines| ==> forall i :: 0 <= i < |lines[j]| ==> NotBreak(lines[j][i])
    ensures SplitLines(Concat(Ended(lines))) == lines
  {
    if lines != [] {
      var s := Concat(Ended(lines));
      var l := lines[0];
      assert Ended(lines)[1..] == Ended(lines[1..]);
      assert s == l + "\n" + Concat(Ended(lines[1..]));
      forall i | 0 <= i < |l| ensures NotBreak(s[i]) { assert s[i] == l[i]; }
      assert s[|l|] == '\n';
      RunEndIs(NotBreak, s, 0, |l|);
      assert s[..|l|] == l;
      assert s[|l| + 1..] == Concat(Ended(lines[1..]));
      SplitJoined(lines[1..]);
    }
  }

  function Ended(lines: seq<string>): (r: seq<string>)
    ensures |r| == |lines|
  {
    seq(|lines|, i requires 0 <= i < |lines| => lines[i] + "\n")
  }

  /** The body of each line the writer produces for `env`. */
  function Bodies(env: Env): (r: seq<string>)
    requires env.Valid()
    ensures |r| == |env.keys|
  {
    seq(|env.keys|, i requires 0 <= i < |env.keys| =>
      env.keys[i] + "=" + (var v := env.vals[env.keys[i]]; if v.Some? then v.value else ""))
  }

  /** Every key is a valid key and every value is safe. */
  ghost predicate Writable(env: Env) {
    env.Valid()
    && (forall i :: 0 <= i < |env.keys| ==> IsKey(env.keys[i]))
    && (forall k :: k in env.vals && env.vals[k].Some? ==> SafeValue(env.vals[k].value))
  }

  lemma {:induction false} ReadBodies(acc: Env, env: Env, from: nat)
    requires acc.Valid() && Writable(env) && from <= |env.keys|
    requires acc.keys == env.keys[..from]
    requires forall k :: k in acc.vals ==> k in env.vals && acc.vals[k] == ReadBack(env.vals[k])
    ensures ReadLines(acc, Bodies(env)[from..]) == Ok(Env(env.keys, map k | k in env.vals :: ReadBack(env.vals[k])))
    decreases |env.keys| - from
  {
    var bodies := Bodies(env)[from..];
    if from == |env.keys| {
      assert env.keys[..from] == env.keys;
      assert acc.vals == map k | k in env.vals :: ReadBack(env.vals[k]);
    } else {
      var k := env.keys[from];
      LineRoundTrip(k, env.vals[k]);
      assert bodies[0] == Bodies(env)[from];
      ReadOne(acc, bodies, k, ReadBack(env.vals[k]));
      var acc1 := StoreNext(acc, env, from);
      assert bodies[1..] == Bodies(env)[from + 1..];
      ReadBodies(acc1, env, from + 1);
    }
  }

  /** The object read so far, after the next line. */
  lemma StoreNext(acc: Env, env: Env, from: nat) returns (acc1: Env)
    requires acc.Valid() && Writable(env) && from < |env.keys|
    requires acc.keys == env.keys[..from]
    requires forall k :: k in acc.vals ==> k in env.vals && acc.vals[k] == ReadBack(env.vals[k])
    ensures acc1 == Store(acc, env.keys[from], ReadBack(env.vals[env.keys[from]]))
    ensures acc1.keys == env.keys[..from + 1]
    ensures forall k :: k in acc1.vals ==> k in env.vals && acc1.vals[k] == ReadBack(env.vals[k])
  {
    var k := env.keys[from];
    forall j | 0 <= j < from ensures acc.keys[j] != k { assert acc.keys[j] == env.keys[j]; }
    assert k !in acc.keys;
    acc1 := Store(acc, k, ReadBack(env.vals[k]));
    assert env.keys[..from + 1] == env.keys[..from] + [k];
  }

  /** A file written from an object of safe values reads back as the
      same keys, in the same order, with the same values (an empty one
      as `undefined`). */
  lemma FileRoundTrip(env: Env, writes: seq<string>)
    requires Writable(env)
    requires |writes| == |env.keys|
    requires forall i :: 0 <= i < |writes| ==> writes[i] == EnvLine(env.keys[i], env.vals[env.keys[i]])
    ensures ReadLines(NoEnv, SplitLines(Concat(writes))) == Ok(Env(env.keys, map k | k in env.vals :: ReadBack(env.vals[k])))
  {
    var bodies := Bodies(env);
    forall i | 0 <= i < |writes| ensures writes[i] == Ended(bodies)[i] {
      LineRoundTrip(env.keys[i], env.vals[env.keys[i]]);
    }
    assert writes == Ended(bodies);
    BodiesOneLine(env);
    SplitJoined(bodies);
    assert bodies[0..] == bodies;
    ReadBodies(NoEnv, env, 0);
  }

  /** No written line holds a line break before its end. */
  lemma BodiesOneLine(env: Env)
    requires Writable(env)
    ensures forall j :: 0 <= j < |Bodies(env)| ==> forall i :: 0 <= i < |Bodies(env)[j]| ==> NotBreak(Bodies(env)[j][i])
  {
    var bodies := Bodies(env);
    forall j | 0 <= j < |bodies| ensures forall i :: 0 <= i < |bodies[j]| ==> NotBreak(bodies[j][i]) {
      var k := env.keys[j];
      var v := env.vals[k];
      forall i | 0 <= i < |bodies[j]| ensures NotBreak(bodies[j][i]) {
        if i > |k| {
          assert bodies[j][i] == v.value[i - |k| - 1];
          assert NotTerminator(v.value[i - |k| - 1]);
        } else if i < |k| {
          assert bodies[j][i] == k[i];
        }
      }
    }
  }

  // ---------------------------------------------------------------------
  // Quoted values

  /** A value between quotes is read without them; between double quotes
      every `\n` becomes a newline. */
  lemma QuotedLine(k: string, q: char, s: string)
    requires IsKey(k) && (q == '"' || q == '\'') && OneLine(s)
    ensures ParseEnvLine(k + "=" + [q] + s + [q]) == Ok(Entry(k, Some(if q == '"' then ReplaceAll(s, "\\n", "\n") else s)))
  {
    var v := [q] + s + [q];
    forall i | 0 <= i < |v| ensures NotTerminator(v[i]) {
      if 0 < i < |v| - 1 { assert v[i] == s[i - 1]; }
    }
    assert k + "=" + [q] + s + [q] == k + "=" + v;
    LineMatches(k, v);
    assert Trim(v) == v;
    assert Substring(v, 1, |v| - 1) == s;
  }

  /** Why `LineRoundTrip` needs a safe value: the writer adds no quotes
      to a one-line value, so one already between single quotes is written
      as it is and read back without them. */
  lemma QuotedValueUnwrapped(k: string, s: string)
    requires IsKey(k) && OneLine(s)
    ensures EnvLine(k, Some(['\''] + s + ['\''])) == k + "=" + (['\''] + s + ['\'']) + "\n"
    ensures ParseEnvLine(k + "=" + ['\''] + s + ['\'']) == Ok(Entry(k, Some(s)))
    ensures s != ['\''] + s + ['\'']
  {
    var v := ['\''] + s + ['\''];
    forall i | 0 <= i < |v| ensures NotTerminator(v[i]) {
      if 0 < i < |v| - 1 { assert v[i] == s[i - 1]; }
    }
    OneLineWritten(k, v);
    QuotedLine(k, '\'', s);
    assert |v| == |s| + 2;
  }

  /** A one-line value is written without quotes. */
  lemma OneLineWritten(k: string, v: string)
    requires OneLine(v)
    ensures EnvLine(k, Some(v)) == k + "=" + v + "\n"
  {
    forall i | 0 <= i < |v| ensures v[i] != '\n' { assert NotTerminator(v[i]); }
    assert '\n' !in v;
  }

  /** Likewise, a value with a leading blank loses it: `\s*` after the `=`
      takes it. */
  lemma LeadingBlankLost(k: string, s: string)
    requires IsKey(k) && OneLine(s) && s != [] && !IsSpace(s[0])
    ensures EnvLine(k, Some([' '] + s)) == k + "=" + ([' '] + s) + "\n"
    ensures MatchLine(k + "=" + ([' '] + s)) == Some((k, Some(s)))
  {
    var v := [' '] + s;
    forall i | 0 <= i < |v| ensures NotTerminator(v[i]) {
      if i > 0 { assert v[i] == s[i - 1]; }
    }
    OneLineWritten(k, v);
    BlankMatch(k, s);
  }

  lemma BlankMatch(k: string, s: string)
    requires IsKey(k) && OneLine(s) && s != [] && !IsSpace(s[0])
    ensures MatchLine(k + "=" + ([' '] + s)) == Some((k, Some(s)))
  {
    var line := k + "=" + ([' '] + s);
    assert line[|k|] == '=' && line[|k| + 1] == ' ' && line[|k| + 2] == s[0];
    forall i | 0 <= i < |k| ensures IsKeyChar(line[i]) { assert line[i] == k[i]; }
    RunEndIs(IsSpace, line, 0, 0);
    RunEndIs(IsKeyChar, line, 0, |k|);
    RunEndIs(IsSpace, line, |k|, |k|);
    RunEndIs(IsSpace, line, |k| + 1, |k| + 2);
    forall i | |k| + 2 <= i < |line| ensures NotTerminator(line[i]) { assert line[i] == s[i - |k| - 2]; }
    RunEndIs(NotTerminator, line, |k| + 2, |line|);
    assert line[0..|k|] == k && line[|k| + 2..|line|] == s;
    assert line[|line|..] == [];
  }

  predicate NoBackslash(s: string) {
    forall i :: 0 <= i < |s| ==> s[i] != '\\'
  }

  /** The only `\n` of `a\nb` is replaced. */
  lemma UnescapeOne(a: string, b: string)
    requires NoBackslash(a) && NoBackslash(b)
    ensures ReplaceAll(a + "\\n" + b, "\\n", "\n") == a + "\n" + b
  {
    var s := a + "\\n" + b;
    NoBackslashNoEscape(a);
    NoBackslashNoEscape(b);
    EscapeFirst(a, b);
    ReplaceAllAbsent(b, "\\n", "\n");
    assert s[..|a|] == a && s[|a| + 2..] == b;
  }

  lemma NoBackslashNoEscape(s: string)
    requires NoBackslash(s)
    ensures NoEscape(s)
  {
    forall j | 0 <= j < |s| ensures !OccursAt(s, "\\n", j) {
      if j + 2 <= |s| { assert s[j..j + 2][0] == s[j]; }
    }
  }

  /** One line that assigns. */
  lemma ReadOne(env: Env, lines: seq<string>, k: string, val: Option<string>)
    requires env.Valid() && lines != [] && ParseEnvLine(lines[0]) == Ok(Entry(k, val))
    ensures ReadLines(env, lines) == ReadLines(Store(env, k, val), lines[1..])
  {
  }

  /** Storing three different keys into an empty object. */
  lemma StoreThree(k1: string, k2: string, k3: string, v1: Option<string>, v2: Option<string>, v3: Option<string>)
    requires k1 != k2 && k1 != k3 && k2 != k3
    ensures Store(Store(Store(NoEnv, k1, v1), k2, v2), k3, v3) == Env([k1, k2, k3], map[k1 := v1, k2 := v2, k3 := v3])
  {
    var e1 := Env([k1], map[k1 := v1]);
    var e2 := Env([k1, k2], map[k1 := v1, k2 := v2]);
    assert Store(NoEnv, k1, v1) == e1 by { assert [] + [k1] == [k1]; }
    assert Store(e1, k2, v2) == e2 by { assert [k1] + [k2] == [k1, k2]; }
    assert [k1, k2] + [k3] == [k1, k2, k3];
  }

  /** Three lines that assign three different keys. */
  lemma ReadThree(lines: seq<string>, k1: string, k2: string, k3: string, v1: Option<string>, v2: Option<string>, v3: Option<string>)
    requires |lines| == 3 && k1 != k2 && k1 != k3 && k2 != k3
    requires ParseEnvLine(lines[0]) == Ok(Entry(k1, v1))
    requires ParseEnvLine(lines[1]) == Ok(Entry(k2, v2))
    requires ParseEnvLine(lines[2]) == Ok(Entry(k3, v3))
    ensures ReadLines(NoEnv, lines) == Ok(Env([k1, k2, k3], map[k1 := v1, k2 := v2, k3 := v3]))
  {
    var e1 := Store(NoEnv, k1, v1);
    var e2 := Store(e1, k2, v2);
    assert lines[1..][0] == lines[1] && lines[1..][1..] == lines[2..];
    assert lines[2..][0] == lines[2] && lines[2..][1..] == [];
    ReadOne(NoEnv, lines, k1, v1);
    ReadOne(e1, lines[1..], k2, v2);
    ReadOne(e2, lines[2..], k3, v3);
    StoreThree(k1, k2, k3, v1, v2, v3);
  }

  /** `a\nb`, with the escape written as two characters, is one line. */
  lemma EscapeIsOneLine(a: string, b: string)
    requires OneLine(a) && OneLine(b)
    ensures OneLine(a + "\\n" + b)
  {
    var s := a + "\\n" + b;
    forall i | 0 <= i < |s| ensures NotTerminator(s[i]) {
      if i < |a| { assert s[i] == a[i]; } else if i >= |a| + 2 { assert s[i] == b[i - |a| - 2]; }
    }
  }

  /** `VAR="abc\ndef"`: between double quotes the escape becomes a newline. */
  lemma DoubleQuotedEscape(k: string, a: string, b: string)
    requires IsKey(k) && OneLine(a) && OneLine(b) && NoBackslash(a) && NoBackslash(b)
    ensures ParseEnvLine(k + "=" + ['"'] + (a + "\\n" + b) + ['"']) == Ok(Entry(k, Some(a + "\n" + b)))
  {
    EscapeIsOneLine(a, b);
    QuotedLine(k, '"', a + "\\n" + b);
    UnescapeOne(a, b);
  }

  /** `VAR2='abc\ndef'`: between single quotes the escape stays as it is. */
  lemma SingleQuotedEscape(k: string, a: string, b: string)
    requires IsKey(k) && OneLine(a) && OneLine(b)
    ensures ParseEnvLine(k + "=" + ['\''] + (a + "\\n" + b) + ['\'']) == Ok(Entry(k, Some(a + "\\n" + b)))
  {
    EscapeIsOneLine(a, b);
    QuotedLine(k, '\'', a + "\\n" + b);
  }

  /** The lines `VAR="abc\ndef"`, `VAR2='abc\ndef'` and `VAR3=abc`: the
      escape is turned into a newline between double quotes only. */
  lemma ReadEscapedNewline(k1: string, k2: string, k3: string, a: string, b: string, c: string)
    requires IsKey(k1) && IsKey(k2) && IsKey(k3) && k1 != k2 && k1 != k3 && k2 != k3
    requires OneLine(a) && OneLine(b) && NoBackslash(a) && NoBackslash(b) && SafeValue(c) && c != []
    ensures ReadLines(NoEnv, [k1 + "=" + ['"'] + (a + "\\n" + b) + ['"'], k2 + "=" + ['\''] + (a + "\\n" + b) + ['\''], k3 + "=" + c])
      == Ok(Env([k1, k2, k3], map[k1 := Some(a + "\n" + b), k2 := Some(a + "\\n" + b), k3 := Some(c)]))
  {
    var lines := [k1 + "=" + ['"'] + (a + "\\n" + b) + ['"'], k2 + "=" + ['\''] + (a + "\\n" + b) + ['\''], k3 + "=" + c];
    DoubleQuotedEscape(k1, a, b);
    SingleQuotedEscape(k2, a, b);
    LineRoundTrip(k3, Some(c));
    ReadThree(lines, k1, k2, k3, Some(a + "\n" + b), Some(a + "\\n" + b), Some(c));
  }

  // ---------------------------------------------------------------------
  // Values with newlines

  /** As written, the value `a\nb` goes out as `KEY="a`, a newline, and `b"`. */
  lemma MultiLineSplit(k: string)
    requires IsKey(k)
    ensures SplitLines(EnvLine(k, Some("a\nb"))) == [k + "=\"a", "b\""]
  {
    var text := EnvLine(k, Some("a\nb"));
    assert '\n' in "a\nb" by { assert "a\nb"[1] == '\n'; }
    assert text == k + "=\"a\nb\"\n";
    var first := k + "=\"a";
    forall i | 0 <= i < |first| ensures NotBreak(text[i]) {
      if i < |k| { assert text[i] == k[i]; }
    }
    RunEndIs(NotBreak, text, 0, |first|);
    assert text[..|first|] == first;
    var rest := text[|first| + 1..];
    assert rest == "b\"\n";
    RunEndIs(NotBreak, rest, 0, 2);
    assert rest[..2] == "b\"" && rest[2] == '\n' && rest[3..] == [];
    assert SplitLines(rest) == ["b\""] + SplitLines([]);
    assert text[|first|] == '\n';
    assert SplitLines(text) == [first] + SplitLines(rest);
  }

  /** The second of those lines is not an assignment, a comment or blank. */
  lemma ClosingQuoteRejected()
    ensures ParseEnvLine("b\"") == Err("Cannot parse env line: b\"")
  {
    var second := "b\"";
    RunEndIs(IsSpace, second, 0, 0);
    RunEndIs(IsKeyChar, second, 0, 1);
    RunEndIs(IsSpace, second, 1, 1);
    assert !AllSpace(second) by { assert !IsSpace(second[0]); }
  }

  /** A value with a newline, as written, does not survive: `a\nb` is
      written as the two lines `KEY="a` and `b"`, and the second cannot be
      read. */
  lemma MultiLineBreaks(k: string)
    requires IsKey(k)
    ensures ReadLines(NoEnv, SplitLines(EnvLine(k, Some("a\nb")))) == Err("Cannot parse env line: b\"")
  {
    MultiLineSplit(k);
    var first := k + "=\"a";
    OpenQuoteKept(k);
    ClosingQuoteRejected();
    assert [first, "b\""][1..] == ["b\""];
  }

  /** The first half, `K="a`, has no closing quote and keeps its opening one. */
  lemma OpenQuoteKept(k: string)
    requires IsKey(k)
    ensures ParseEnvLine(k + "=\"a") == Ok(Entry(k, Some("\"a")))
  {
    var raw := "\"a";
    forall i | 0 <= i < |raw| ensures NotTerminator(raw[i]) {}
    LineMatches(k, raw);
    assert k + "=\"a" == k + "=" + raw;
    assert Trim(raw) == raw && raw[|raw| - 1] == 'a';
  }

  /** Every newline written as the two characters `\` and `n`. */
  function Escaped(v: string): string {
    ReplaceAll(v, "\n", "\\n")
  }

  /** `s` has no `\` followed by `n`. */
  predicate NoEscape(s: string) {
    forall i :: 0 <= i < |s| ==> !OccursAt(s, "\\n", i)
  }

  /** No line terminator but the newline. */
  predicate OnlyNewlines(v: string) {
    forall i :: 0 <= i < |v| ==> v[i] == '\n' || NotTerminator(v[i])
  }

  lemma TailKeeps(v: string, k: nat)
    requires NoEscape(v) && OnlyNewlines(v) && k < |v|
    ensures NoEscape(v[k + 1..]) && OnlyNewlines(v[k + 1..])
  {
    var tail := v[k + 1..];
    forall i | 0 <= i < |tail| ensures !OccursAt(tail, "\\n", i) {
      assert !OccursAt(v, "\\n", k + 1 + i);
      if i + 2 <= |tail| { assert v[k + 1 + i..k + 3 + i] == tail[i..i + 2]; }
    }
    forall i | 0 <= i < |tail| ensures tail[i] == '\n' || NotTerminator(tail[i]) { assert tail[i] == v[k + 1 + i]; }
  }

  /** Escaping at the first newline `k` of `v`. */
  lemma EscapedAt(v: string, k: nat)
    requires NoEscape(v) && OnlyNewlines(v) && IndexOf(v, "\n", 0) == Some(k)
    requires OneLine(Escaped(v[k + 1..]))
    ensures OneLine(Escaped(v))
    ensures IndexOf(Escaped(v), "\\n", 0) == Some(k)
    ensures Escaped(v)[..k] == v[..k] && Escaped(v)[k + 2..] == Escaped(v[k + 1..])
  {
    var tail := v[k + 1..];
    var head := v[..k];
    var e := Escaped(v);
    assert e == head + "\\n" + Escaped(tail);
    HeadPlain(v, k);
    EscapeIsOneLine(head, Escaped(tail));
    EscapeFirst(head, Escaped(tail));
  }

  /** The text before the first newline is one line without an escape. */
  lemma HeadPlain(v: string, k: nat)
    requires NoEscape(v) && OnlyNewlines(v) && IndexOf(v, "\n", 0) == Some(k)
    ensures k <= |v| && OneLine(v[..k]) && NoEscape(v[..k])
  {
    NewlineFree(v, k);
    PrefixOneLine(v, k);
    PrefixNoEscape(v, k);
  }

  /** No newline comes before the first one. */
  lemma NewlineFree(v: string, k: nat)
    requires IndexOf(v, "\n", 0) == Some(k)
    ensures k <= |v| && forall i :: 0 <= i < k ==> v[i] != '\n'
  {
    forall i | 0 <= i < k ensures v[i] != '\n' { NotNewlineAt(v, i); }
  }

  lemma NotNewlineAt(v: string, i: nat)
    requires i < |v| && !OccursAt(v, "\n", i)
    ensures v[i] != '\n'
  {
  }

  lemma PrefixOneLine(v: string, k: nat)
    requires OnlyNewlines(v) && k <= |v| && forall i :: 0 <= i < k ==> v[i] != '\n'
    ensures OneLine(v[..k])
  {
    var head := v[..k];
    forall i | 0 <= i < |head| ensures NotTerminator(head[i]) { assert head[i] == v[i]; }
  }

  lemma PrefixNoEscape(v: string, k: nat)
    requires NoEscape(v) && k <= |v|
    ensures NoEscape(v[..k])
  {
    var head := v[..k];
    forall j | 0 <= j < |head| ensures !OccursAt(head, "\\n", j) {
      assert !OccursAt(v, "\\n", j);
      if j + 2 <= |head| { assert head[j..j + 2] == v[j..j + 2]; }
    }
  }

  /** The escape written after text without one is the first. */
  lemma EscapeFirst(a: string, b: string)
    requires NoEscape(a)
    ensures IndexOf(a + "\\n" + b, "\\n", 0) == Some(|a|)
  {
    var e := a + "\\n" + b;
    forall j | 0 <= j < |a| ensures !OccursAt(e, "\\n", j) {
      if j + 1 < |a| {
        assert !OccursAt(a, "\\n", j);
        assert e[j..j + 2] == a[j..j + 2];
      } else {
        assert e[j + 1] == '\\';
      }
    }
    assert e[|a|..|a| + 2] == "\\n";
    IndexOfIs(e, "\\n", 0, |a|);
  }

  /** A value without newlines is left as it is by both directions. */
  lemma EscapedNoNewline(v: string)
    requires NoEscape(v) && OnlyNewlines(v) && IndexOf(v, "\n", 0) == None
    ensures OneLine(Escaped(v))
    ensures ReplaceAll(Escaped(v), "\\n", "\n") == v
  {
    forall i | 0 <= i < |v| ensures NotTerminator(v[i]) { assert !OccursAt(v, "\n", i); }
    ReplaceAllAbsent(v, "\\n", "\n");
  }

  /** One step of the unescaping: the escape at the first newline `k` is
      turned back, and the rest is the unescaped tail. */
  lemma UnescapeAt(v: string, k: nat)
    requires NoEscape(v) && OnlyNewlines(v) && IndexOf(v, "\n", 0) == Some(k)
    requires OneLine(Escaped(v[k + 1..])) && ReplaceAll(Escaped(v[k + 1..]), "\\n", "\n") == v[k + 1..]
    ensures OneLine(Escaped(v))
    ensures ReplaceAll(Escaped(v), "\\n", "\n") == v
  {
    EscapedAt(v, k);
    var e := Escaped(v);
    assert ReplaceAll(e, "\\n", "\n") == e[..k] + "\n" + ReplaceAll(e[k + 2..], "\\n", "\n");
    assert v == v[..k] + "\n" + v[k + 1..];
  }

  /** Escaping leaves one line, which the reader's unescaping turns back
      into the value, as long as the value has no `\n` of its own. */
  lemma {:induction false} EscapedRoundTrip(v: string)
    requires NoEscape(v) && OnlyNewlines(v)
    ensures OneLine(Escaped(v))
    ensures ReplaceAll(Escaped(v), "\\n", "\n") == v
    decreases |v|
  {
    match IndexOf(v, "\n", 0)
    case None => EscapedNoNewline(v);
    case Some(k) =>
      TailKeeps(v, k);
      EscapedRoundTrip(v[k + 1..]);
      UnescapeAt(v, k);
  }

  /** `writeEnvLine` as evidently intended: the newlines of a quoted value
      are written escaped, as the reader expects them. */
  function EnvLineFixed(key: string, value: Option<string>): string {
    var v := if value.Some? then value.value else "";
    var quote := if '\n' in v then "\"" else "";
    key + "=" + quote + Escaped(v) + quote + "\n"
  }

  lemma FixedSplit(k: string, e: string)
    requires IsKey(k) && OneLine(e)
    ensures SplitLines(k + "=" + ['"'] + e + ['"'] + "\n") == [k + "=" + ['"'] + e + ['"']]
  {
    var body := k + "=" + ['"'] + e + ['"'];
    forall i | 0 <= i < |body| ensures NotBreak(body[i]) {
      if i < |k| { assert body[i] == k[i]; }
      else if |k| + 1 < i < |body| - 1 { assert body[i] == e[i - |k| - 2]; }
    }
    SplitJoined([body]);
    assert Ended([body]) == [body + "\n"];
    assert Concat([body + "\n"]) == body + "\n" by { assert [body + "\n"][1..] == []; }
  }

  /** With the escape, a value with newlines is written on one line and
      read back as it was. */
  lemma FixedLineRoundTrip(k: string, v: string)
    requires IsKey(k) && '\n' in v && NoEscape(v) && OnlyNewlines(v)
    ensures ReadLines(NoEnv, SplitLines(EnvLineFixed(k, Some(v)))) == Ok(Env([k], map[k := Some(v)]))
  {
    EscapedRoundTrip(v);
    var e := Escaped(v);
    var body := k + "=" + ['"'] + e + ['"'];
    assert EnvLineFixed(k, Some(v)) == body + "\n";
    FixedSplit(k, e);
    QuotedLine(k, '"', e);
    ReadOne(NoEnv, [body], k, Some(v));
    assert [body][1..] == [];
    assert [] + [k] == [k];
  }

  /** Why `FixedLineRoundTrip` needs a value without a `\n` pair of its
      own: a newline followed by the two characters `\` and `n`, and two
      newlines, are written as the same line, so no reader can give both
      back. */
  lemma FixedLineCollides(k: string)
    ensures "\n\\n" != "\n\n"
    ensures EnvLineFixed(k, Some("\n\\n")) == EnvLineFixed(k, Some("\n\n"))
  {
    var pair := "\\n";
    assert pair[0..1][0] != '\n' && pair[1..2][0] != '\n';
    assert IndexOf(pair, "\n", 2) == None;
    assert IndexOf(pair, "\n", 1) == None;
    assert IndexOf(pair, "\n", 0) == None;
    assert Escaped(pair) == pair;
    assert Escaped("\n") == pair;
    assert ("\n" + pair)[1..] == pair && ("\n\n")[1..] == "\n";
    assert Escaped("\n" + pair) == pair + pair;
    assert Escaped("\n\n") == pair + pair;
    assert "\n" + pair == "\n\\n";
  }
}
