/** Splitting an environment value into literal text, variable references
    (`${NAME}`, `$NAME`) and inline commands (`$(CMD)`, optionally
    `$([profile] CMD)`), as the value parser of the environment context
    does (src/envctx.js, `parseEnvStr`). */
module EnvTemplates {
  import opened Outcomes
  import opened JsText
  import opened Backtrack

  datatype Segment =
    | Text(text: string)
    | Var(name: string)
    | Command(cmd: string, profile: Option<string>)

  // ---------------------------------------------------------------------
  // The reference pattern, as the regular expression of the source

  predicate InBraces(c: char) { c != '$' && c != '{' && c != '}' }

  /** `[a-z0-9_]` under the `i` flag: ASCII letters of either case. */
  predicate IsWordChar(c: char) {
    ('a' <= c <= 'z') || ('A' <= c <= 'Z') || ('0' <= c <= '9') || c == '_'
  }

  predicate NotClose(c: char) { c != ')' }

  /** `\$\{([^${}]*)\}` */
  function BracePattern(): Re {
    Cat(Lit('$'), Cat(Lit('{'), Cat(Star(Chars(InBraces)), Lit('}'))))
  }

  /** `\$([a-z0-9_]+)` */
  function BarePattern(): Re {
    Cat(Lit('$'), Plus(Chars(IsWordChar)))
  }

  /** One unit of a command body: `\\\)` or `[^)]`. */
  function CmdUnit(): Re {
    Alt(Cat(Lit('\\'), Lit(')')), Chars(NotClose))
  }

  /** `\$\(((?:\\\)|[^)])*)\)` */
  function CmdPattern(): Re {
    Cat(Lit('$'), Cat(Lit('('), Cat(Star(CmdUnit()), Lit(')'))))
  }

  /** The three alternatives, in the order the source lists them. */
  function RefPattern(): Re {
    Alt(BracePattern(), Alt(BarePattern(), CmdPattern()))
  }

  // ---------------------------------------------------------------------
  // A direct matcher for each alternative, proved equal to the pattern

  /** End of a `${...}` reference at `i`. */
  function BraceEnd(s: string, i: nat): Option<nat>
    requires i <= |s|
  {
    if i + 1 < |s| && s[i] == '$' && s[i + 1] == '{' then
      var j := RunEnd(InBraces, s, i + 2);
      if j < |s| && s[j] == '}' then Some(j + 1) else None
    else None
  }

  /** End of a `$NAME` reference at `i`: the whole run of name characters. */
  function BareEnd(s: string, i: nat): Option<nat>
    requires i <= |s|
  {
    if i + 1 < |s| && s[i] == '$' && IsWordChar(s[i + 1]) then Some(RunEnd(IsWordChar, s, i + 1))
    else None
  }

  /** The `)` that closes a command body starting at `q`: the matcher
      first reads `\)` as an escaped parenthesis, and gives that reading
      up only when no closing `)` follows. */
  function CloseAt(s: string, q: nat): (c: Option<nat>)
    requires q <= |s|
    ensures c.Some? ==> q <= c.value < |s| && s[c.value] == ')'
    decreases |s| - q
  {
    var escaped := if q + 1 < |s| && s[q] == '\\' && s[q + 1] == ')' then CloseAt(s, q + 2) else None;
    var plain := if q < |s| && s[q] != ')' then CloseAt(s, q + 1) else None;
    if escaped.Some? then escaped
    else if plain.Some? then plain
    else if q < |s| && s[q] == ')' then Some(q)
    else None
  }

  /** End of a `$(...)` command at `i`. */
  function CmdEnd(s: string, i: nat): Option<nat>
    requires i <= |s|
  {
    if i + 1 < |s| && s[i] == '$' && s[i + 1] == '(' then
      match CloseAt(s, i + 2)
      case Some(c) => Some(c + 1)
      case None => None
    else None
  }

  /** End of the reference the source's pattern finds at `i`, trying the
      alternatives in order. */
  function RefEnd(s: string, i: nat): (e: Option<nat>)
    requires i <= |s|
    ensures e.Some? ==> i < e.value <= |s|
    ensures e.Some? ==> s[i] == '$'
  {
    if BraceEnd(s, i).Some? then BraceEnd(s, i)
    else if BareEnd(s, i).Some? then BareEnd(s, i)
    else CmdEnd(s, i)
  }

  lemma BraceEndIsPattern(s: string, i: nat)
    requires i <= |s|
    ensures First(Ends(BracePattern(), s, i)) == BraceEnd(s, i)
  {
    CatCharsEnds(Lit('$').has, Cat(Lit('{'), Cat(Star(Chars(InBraces)), Lit('}'))), s, i);
    if i < |s| && s[i] == '$' {
      CatCharsEnds(Lit('{').has, Cat(Star(Chars(InBraces)), Lit('}')), s, i + 1);
      if i + 1 < |s| && s[i + 1] == '{' {
        BraceBodyEnds(s, i + 2);
      }
    }
  }

  /** The body of `${...}` from `q`: the run of name characters, then `}`. */
  lemma BraceBodyEnds(s: string, q: nat)
    requires q <= |s|
    ensures var j := RunEnd(InBraces, s, q);
            Ends(Cat(Star(Chars(InBraces)), Lit('}')), s, q) == if j < |s| && s[j] == '}' then [j + 1] else []
  {
    var j := RunEnd(InBraces, s, q);
    StarCharsEnds(InBraces, s, q);
    ThenChars(Lit('}').has, s, Desc(j, q), q);
    HitsDesc(InBraces, Lit('}').has, s, j, q);
  }

  lemma BareEndIsPattern(s: string, i: nat)
    requires i <= |s|
    ensures First(Ends(BarePattern(), s, i)) == BareEnd(s, i)
  {
    CatCharsEnds(Lit('$').has, Plus(Chars(IsWordChar)), s, i);
    if i < |s| && s[i] == '$' {
      CatCharsEnds(IsWordChar, Star(Chars(IsWordChar)), s, i + 1);
      if i + 1 < |s| && IsWordChar(s[i + 1]) {
        StarCharsEnds(IsWordChar, s, i + 2);
      }
    }
  }

  lemma {:induction false} AdvancingAbove(es: seq<nat>, i: nat)
    requires forall k :: 0 <= k < |es| ==> es[k] > i
    ensures Advancing(es, i) == es
  {
    if es != [] {
      assert es == [es[0]] + es[1..];
      AdvancingCons(es[0], es[1..], i);
      AdvancingAbove(es[1..], i);
    }
  }

  /** The ends of one command unit at `q`: after an escaped parenthesis,
      then after a single character other than `)`. */
  lemma UnitEnds(s: string, q: nat)
    requires q <= |s|
    ensures Ends(CmdUnit(), s, q) ==
      (if q + 1 < |s| && s[q] == '\\' && s[q + 1] == ')' then [q + 2] else [])
      + (if q < |s| && s[q] != ')' then [q + 1] else [])
  {
    CatCharsEnds(Lit('\\').has, Lit(')'), s, q);
  }

  /** One step of the greedy star over command units: the escaped reading
      first, then the plain one, then stopping. */
  lemma StarUnitStep(s: string, q: nat)
    requires q <= |s|
    ensures Ends(Star(CmdUnit()), s, q) ==
      (if q + 1 < |s| && s[q] == '\\' && s[q + 1] == ')' then Ends(Star(CmdUnit()), s, q + 2) else [])
      + (if q < |s| && s[q] != ')' then Ends(Star(CmdUnit()), s, q + 1) else [])
      + [q]
  {
    var u := CmdUnit();
    var esc := q + 1 < |s| && s[q] == '\\' && s[q + 1] == ')';
    var nc := q < |s| && s[q] != ')';
    var e1: seq<nat> := if esc then [q + 2] else [];
    var e2: seq<nat> := if nc then [q + 1] else [];
    UnitEnds(s, q);
    var es := e1 + e2;
    AdvancingAbove(es, q);
    assert Ends(Star(u), s, q) == StarFrom(u, s, q, es) + [q];
    StarFromAppend(u, s, q, e1, e2);
    if esc { StarFromSingle(u, s, q, q + 2); }
    if nc { StarFromSingle(u, s, q, q + 1); }
  }

  /** The end of the first match of `(?:\\\)|[^)])*\)` at `q`. */
  function FirstClose(s: string, q: nat): Option<nat>
    requires q <= |s|
  {
    First(Hits(Lit(')').has, s, Ends(Star(CmdUnit()), s, q)))
  }

  lemma FirstHitsOfThree(has: char -> bool, s: string, r1: seq<nat>, r2: seq<nat>, q: nat)
    requires q <= |s|
    requires forall k :: 0 <= k < |r1| ==> r1[k] <= |s|
    requires forall k :: 0 <= k < |r2| ==> r2[k] <= |s|
    ensures First(Hits(has, s, r1 + r2 + [q])) ==
      if First(Hits(has, s, r1)).Some? then First(Hits(has, s, r1))
      else if First(Hits(has, s, r2)).Some? then First(Hits(has, s, r2))
      else if q < |s| && has(s[q]) then Some(q + 1)
      else None
  {
    HitsAppend(has, s, r1 + r2, [q]);
    HitsAppend(has, s, r1, r2);
    var h1 := Hits(has, s, r1);
    var h2 := Hits(has, s, r2);
    var h3 := Hits(has, s, [q]);
    assert h3 == if q < |s| && has(s[q]) then [q + 1] else [];
    FirstAppend(h1 + h2, h3);
    FirstAppend(h1, h2);
  }

  lemma FirstCloseStep(s: string, q: nat)
    requires q <= |s|
    ensures FirstClose(s, q) ==
      var escaped := if q + 1 < |s| && s[q] == '\\' && s[q + 1] == ')' then FirstClose(s, q + 2) else None;
      var plain := if q < |s| && s[q] != ')' then FirstClose(s, q + 1) else None;
      if escaped.Some? then escaped
      else if plain.Some? then plain
      else if q < |s| && s[q] == ')' then Some(q + 1)
      else None
  {
    var esc := q + 1 < |s| && s[q] == '\\' && s[q + 1] == ')';
    var nc := q < |s| && s[q] != ')';
    var rest1: seq<nat> := if esc then Ends(Star(CmdUnit()), s, q + 2) else [];
    var rest2: seq<nat> := if nc then Ends(Star(CmdUnit()), s, q + 1) else [];
    StarUnitStep(s, q);
    FirstHitsOfThree(Lit(')').has, s, rest1, rest2, q);
  }

  /** The first `)` reached after a greedy run of command units is `CloseAt`. */
  lemma {:induction false} CloseAtIsPattern(s: string, q: nat)
    requires q <= |s|
    ensures FirstClose(s, q) == match CloseAt(s, q) case Some(c) => Some(c + 1) case None => None
    decreases |s| - q
  {
    FirstCloseStep(s, q);
    if q + 1 < |s| && s[q] == '\\' && s[q + 1] == ')' { CloseAtIsPattern(s, q + 2); }
    if q < |s| && s[q] != ')' { CloseAtIsPattern(s, q + 1); }
  }

  lemma CmdEndIsPattern(s: string, i: nat)
    requires i <= |s|
    ensures First(Ends(CmdPattern(), s, i)) == CmdEnd(s, i)
  {
    CatCharsEnds(Lit('$').has, Cat(Lit('('), Cat(Star(CmdUnit()), Lit(')'))), s, i);
    if i < |s| && s[i] == '$' {
      CatCharsEnds(Lit('(').has, Cat(Star(CmdUnit()), Lit(')')), s, i + 1);
      if i + 1 < |s| && s[i + 1] == '(' {
        CmdBodyEnds(s, i + 2);
        CloseAtIsPattern(s, i + 2);
      }
    }
  }

  /** The body of `$(...)` from `q`: command units, then `)`. */
  lemma CmdBodyEnds(s: string, q: nat)
    requires q <= |s|
    ensures First(Ends(Cat(Star(CmdUnit()), Lit(')')), s, q)) == FirstClose(s, q)
  {
    ThenChars(Lit(')').has, s, Ends(Star(CmdUnit()), s, q), q);
  }

  /** The direct matcher finds exactly the match the source's regular
      expression reports at every position. */
  lemma RefEndIsPattern(s: string, i: nat)
    requires i <= |s|
    ensures MatchAt(RefPattern(), s, i) == RefEnd(s, i)
  {
    BraceEndIsPattern(s, i);
    BareEndIsPattern(s, i);
    CmdEndIsPattern(s, i);
    FirstAppend(Ends(BarePattern(), s, i), Ends(CmdPattern(), s, i));
    FirstAppend(Ends(BracePattern(), s, i), Ends(Alt(BarePattern(), CmdPattern()), s, i));
  }

  // ---------------------------------------------------------------------
  // The `[profile]` prefix of a command

  predicate NotRightBracket(c: char) { c != ']' }

  /** `(?:\[([^\]]*)\]\s*)?`, tried at the start of the command. */
  function ProfilePattern(): Re {
    Opt(Cat(Lit('['), Cat(Star(Chars(NotRightBracket)), Cat(Lit(']'), Star(Chars(IsSpace))))))
  }

  /** The profile named by a leading `[profile]`, and the command after it
      and the white space that follows it. */
  function SplitProfile(cmd: string): (r: (Option<string>, string))
    ensures |r.1| <= |cmd| && r.1 == cmd[|cmd| - |r.1|..]
    ensures r.0.None? ==> r.1 == cmd
    ensures r.0.Some? ==> |r.0.value| + 2 <= |cmd| - |r.1| && cmd[..|r.0.value| + 2] == "[" + r.0.value + "]"
    ensures r.0.Some? ==> ']' !in r.0.value && AllSpace(cmd[|r.0.value| + 2..|cmd| - |r.1|])
  {
    if cmd != [] && cmd[0] == '[' then
      var j := RunEnd(NotRightBracket, cmd, 1);
      if j < |cmd| then
        var e := RunEnd(IsSpace, cmd, j + 1);
        assert forall k :: 0 <= k < j - 1 ==> cmd[1..j][k] == cmd[k + 1];
        assert cmd[..j + 1] == "[" + cmd[1..j] + "]";
        (Some(cmd[1..j]), cmd[e..])
      else (None, cmd)
    else (None, cmd)
  }

  /** After the `[`: the run of non-`]` characters, the `]`, and the
      white space after it. */
  lemma ProfileBodyEnds(cmd: string)
    requires cmd != []
    ensures var j := RunEnd(NotRightBracket, cmd, 1);
      First(Ends(Cat(Star(Chars(NotRightBracket)), Cat(Lit(']'), Star(Chars(IsSpace)))), cmd, 1)) ==
        if j < |cmd| then Some(RunEnd(IsSpace, cmd, j + 1)) else None
  {
    var j := RunEnd(NotRightBracket, cmd, 1);
    var spaces := Star(Chars(IsSpace));
    var run := Ends(Star(Chars(NotRightBracket)), cmd, 1);
    assert Ends(Cat(Star(Chars(NotRightBracket)), Cat(Lit(']'), spaces)), cmd, 1)
        == Then(Cat(Lit(']'), spaces), cmd, run, 1);
    StarCharsEnds(NotRightBracket, cmd, 1);
    ThenCatChars(Lit(']').has, spaces, cmd, Desc(j, 1), 1);
    HitsDesc(NotRightBracket, Lit(']').has, cmd, j, 1);
    SpacesAfter(cmd, j);
  }

  /** The white space after the `]`, if there is one, at `j`. */
  lemma SpacesAfter(cmd: string, j: nat)
    requires 1 <= j <= |cmd|
    ensures var hit: seq<nat> := if j < |cmd| then [j + 1] else [];
      First(Then(Star(Chars(IsSpace)), cmd, hit, 1)) == if j < |cmd| then Some(RunEnd(IsSpace, cmd, j + 1)) else None
  {
    var spaces := Star(Chars(IsSpace));
    if j < |cmd| {
      assert Then(spaces, cmd, [j + 1], 1) == Ends(spaces, cmd, j + 1) + Then(spaces, cmd, [], 1);
      StarCharsEnds(IsSpace, cmd, j + 1);
    } else {
      assert Then(spaces, cmd, [], 1) == [];
    }
  }

  /** The group of the prefix pattern ends, first, after the `]` that
      closes the profile and all the white space that follows it. */
  lemma ProfileGroupEnds(cmd: string)
    ensures var group := Cat(Lit('['), Cat(Star(Chars(NotRightBracket)), Cat(Lit(']'), Star(Chars(IsSpace)))));
      First(Ends(group, cmd, 0)) ==
        if SplitProfile(cmd).0.Some? then Some(|cmd| - |SplitProfile(cmd).1|) else None
  {
    CatCharsEnds(Lit('[').has, Cat(Star(Chars(NotRightBracket)), Cat(Lit(']'), Star(Chars(IsSpace)))), cmd, 0);
    if cmd != [] && cmd[0] == '[' {
      ProfileBodyEnds(cmd);
    }
  }

  /** `SplitProfile` removes exactly what the source's prefix pattern
      matches, and finds a profile exactly when the optional group takes part. */
  lemma SplitProfileIsPattern(cmd: string)
    ensures MatchAt(ProfilePattern(), cmd, 0) == Some(|cmd| - |SplitProfile(cmd).1|)
    ensures SplitProfile(cmd).0.Some? <==>
      Ends(Cat(Lit('['), Cat(Star(Chars(NotRightBracket)), Cat(Lit(']'), Star(Chars(IsSpace))))), cmd, 0) != []
  {
    var group := Cat(Lit('['), Cat(Star(Chars(NotRightBracket)), Cat(Lit(']'), Star(Chars(IsSpace)))));
    CatCharsAdvances(Lit('[').has, Cat(Star(Chars(NotRightBracket)), Cat(Lit(']'), Star(Chars(IsSpace)))), cmd, 0);
    AdvancingAbove(Ends(group, cmd, 0), 0);
    ProfileGroupEnds(cmd);
    FirstAppend(Ends(group, cmd, 0), [0]);
  }

  // ---------------------------------------------------------------------
  // From a match to a segment

  /** The command of a `$(...)` body: the first `\)` becomes `)` (only the
      first, as a string pattern replaces once), then a leading
      `[profile]` is split off. */
  function CommandOf(body: string): (seg: Segment)
    ensures seg.Command?
  {
    var cmd := ReplaceFirst(body, "\\)", ")");
    var (profile, rest) := SplitProfile(cmd);
    Command(rest, profile)
  }

  /** The segment produced by the match of `s[i..e]`, if any: an empty
      `${}` or `$()` is consumed but produces nothing. */
  function TokenAt(s: string, i: nat, e: nat): (seg: Option<Segment>)
    requires i <= |s| && RefEnd(s, i) == Some(e)
    ensures seg.Some? && seg.value.Var? ==> seg.value.name != []
    ensures seg.None? <==> (e == i + 3 && (s[i + 1] == '{' || s[i + 1] == '('))
  {
    if BraceEnd(s, i).Some? then
      if i + 2 < e - 1 then Some(Var(s[i + 2..e - 1])) else None
    else if BareEnd(s, i).Some? then Some(Var(s[i + 1..e]))
    else if i + 2 < e - 1 then Some(CommandOf(s[i + 2..e - 1]))
    else None
  }

  // ---------------------------------------------------------------------
  // Scanning the whole value, as the global `exec` loop does

  /** The first position at or after `i` where a reference matches. */
  function NextRef(s: string, i: nat): (p: Option<nat>)
    requires i <= |s|
    ensures p.Some? ==> i <= p.value < |s| && RefEnd(s, p.value).Some?
    ensures forall q :: i <= q < (if p.Some? then p.value else |s|) ==> RefEnd(s, q).None?
    decreases |s| - i
  {
    if i == |s| then None
    else if RefEnd(s, i).Some? then Some(i)
    else NextRef(s, i + 1)
  }

  /** A stretch of the value: literal text, or the text of one match. */
  datatype Piece = Gap(from: nat, to: nat) | Ref(from: nat, to: nat)

  /** `ps` covers `s[i..]` from left to right, each piece non-empty. */
  predicate Tiles(s: string, ps: seq<Piece>, i: nat)
    decreases |ps|
  {
    if ps == [] then i == |s|
    else ps[0].from == i && i < ps[0].to <= |s| && Tiles(s, ps[1..], ps[0].to)
  }

  /** A literal piece is free of references; a reference piece is the
      match found at its start. */
  predicate ExactPiece(s: string, piece: Piece) {
    piece.to <= |s| &&
    match piece
    case Gap(a, b) => forall q :: a <= q < b ==> RefEnd(s, q).None?
    case Ref(a, b) => a < |s| && RefEnd(s, a) == Some(b)
  }

  predicate Exact(s: string, ps: seq<Piece>) {
    forall k :: 0 <= k < |ps| ==> ExactPiece(s, ps[k])
  }

  /** The pieces of `s[i..]`: literal text up to the next match, the
      match, and so on from the end of the match. */
  function Scan(s: string, i: nat): (ps: seq<Piece>)
    requires i <= |s|
    decreases |s| - i
  {
    match NextRef(s, i)
    case None => if i < |s| then [Gap(i, |s|)] else []
    case Some(p) =>
      var e := RefEnd(s, p).value;
      var rest := Scan(s, e);
      if i < p then [Gap(i, p), Ref(p, e)] + rest else [Ref(p, e)] + rest
  }

  /** The pieces of the value are exactly its literal stretches and its
      matches, covering it from left to right. */
  lemma {:induction false} ScanIsExact(s: string, i: nat)
    requires i <= |s|
    ensures Tiles(s, Scan(s, i), i) && Exact(s, Scan(s, i))
    decreases |s| - i
  {
    match NextRef(s, i)
    case None =>
    case Some(p) =>
      var e := RefEnd(s, p).value;
      ScanIsExact(s, e);
      var rest := Scan(s, e);
      if i < p {
        assert Scan(s, i) == [Gap(i, p), Ref(p, e)] + rest;
        assert Scan(s, i)[2..] == rest;
      } else {
        assert Scan(s, i) == [Ref(p, e)] + rest;
        assert Scan(s, i)[1..] == rest;
      }
  }

  /** The segments the piece stands for. */
  function PieceSegments(s: string, piece: Piece): seq<Segment> {
    match piece
    case Gap(a, b) => if a <= b <= |s| then [Text(s[a..b])] else []
    case Ref(a, b) => if a <= |s| && RefEnd(s, a) == Some(b) then TokenList(s, a, b) else []
  }

  /** The segments the pieces stand for. */
  function SegmentsOf(s: string, ps: seq<Piece>): seq<Segment> {
    if ps == [] then [] else PieceSegments(s, ps[0]) + SegmentsOf(s, ps[1..])
  }

  /** `parseEnvStr`, as a function of the value. */
  function Segments(s: string): seq<Segment> {
    SegmentsOf(s, Scan(s, 0))
  }

  /** The text the pieces cover, joined back together. */
  function Source(s: string, ps: seq<Piece>): string
    requires forall k :: 0 <= k < |ps| ==> ps[k].from <= ps[k].to <= |s|
  {
    if ps == [] then [] else s[ps[0].from..ps[0].to] + Source(s, ps[1..])
  }

  /** Literal text and matches together give back the whole value. */
  lemma {:induction false} TilesJoin(s: string, ps: seq<Piece>, i: nat)
    requires i <= |s| && Tiles(s, ps, i)
    ensures forall k :: 0 <= k < |ps| ==> ps[k].from <= ps[k].to <= |s|
    ensures Source(s, ps) == s[i..]
    decreases |ps|
  {
    if ps != [] {
      TilesJoin(s, ps[1..], ps[0].to);
      assert s[i..] == s[i..ps[0].to] + s[ps[0].to..];
    }
  }

  /** A value in which no reference matches is one literal segment (or
      nothing, when it is empty). */
  lemma NoRefIsText(s: string)
    requires forall q :: 0 <= q < |s| ==> RefEnd(s, q).None?
    ensures Segments(s) == if s == [] then [] else [Text(s)]
  {
    assert NextRef(s, 0).None?;
    ScanEnd(s, 0);
    assert s[0..|s|] == s;
  }

  /** A `$` can only start a reference: a value without one is literal text. */
  lemma NoDollarIsText(s: string)
    requires '$' !in s
    ensures Segments(s) == if s == [] then [] else [Text(s)]
  {
    NoRefIsText(s);
  }

  /** The segment list of one match. */
  function TokenList(s: string, p: nat, e: nat): seq<Segment>
    requires p <= |s| && RefEnd(s, p) == Some(e)
  {
    match TokenAt(s, p, e) case Some(seg) => [seg] case None => []
  }

  lemma {:induction false} SegmentsOfAppend(s: string, a: seq<Piece>, b: seq<Piece>)
    ensures SegmentsOf(s, a + b) == SegmentsOf(s, a) + SegmentsOf(s, b)
  {
    if a != [] {
      assert (a + b)[0] == a[0] && (a + b)[1..] == a[1..] + b;
      SegmentsOfAppend(s, a[1..], b);
    } else {
      assert a + b == b;
    }
  }

  /** When no reference is left, the rest of the value is one literal. */
  lemma ScanEnd(s: string, i: nat)
    requires i <= |s| && NextRef(s, i).None?
    ensures SegmentsOf(s, Scan(s, i)) == if i < |s| then [Text(s[i..|s|])] else []
  {
    if i < |s| {
      assert Scan(s, i) == [Gap(i, |s|)];
      assert SegmentsOf(s, [Gap(i, |s|)]) == [Text(s[i..|s|])] + SegmentsOf(s, []);
    }
  }

  /** One round of the `exec` loop: the literal before the next match,
      the match's segment, and the scan from the end of the match. */
  lemma ScanStep(s: string, i: nat, p: nat)
    requires i <= |s| && NextRef(s, i) == Some(p)
    ensures RefEnd(s, p).Some?
    ensures SegmentsOf(s, Scan(s, i)) ==
      (if i < p then [Text(s[i..p])] else []) + TokenList(s, p, RefEnd(s, p).value)
      + SegmentsOf(s, Scan(s, RefEnd(s, p).value))
  {
    var e := RefEnd(s, p).value;
    var gap: seq<Piece> := if i < p then [Gap(i, p)] else [];
    assert Scan(s, i) == gap + ([Ref(p, e)] + Scan(s, e));
    PiecesStep(s, i, p, e, Scan(s, e));
  }

  /** The segments of a literal stretch, a match and what follows. */
  lemma PiecesStep(s: string, i: nat, p: nat, e: nat, rest: seq<Piece>)
    requires i <= p <= |s| && RefEnd(s, p) == Some(e)
    ensures var gap: seq<Piece> := if i < p then [Gap(i, p)] else [];
      SegmentsOf(s, gap + ([Ref(p, e)] + rest)) ==
      (if i < p then [Text(s[i..p])] else []) + TokenList(s, p, e) + SegmentsOf(s, rest)
  {
    var gap: seq<Piece> := if i < p then [Gap(i, p)] else [];
    SegmentsOfAppend(s, gap, [Ref(p, e)] + rest);
    SegmentsOfAppend(s, [Ref(p, e)], rest);
    assert SegmentsOf(s, [Ref(p, e)]) == TokenList(s, p, e) + SegmentsOf(s, []);
    if i < p {
      assert SegmentsOf(s, gap) == [Text(s[i..p])] + SegmentsOf(s, []);
    }
  }

  lemma Regroup<T>(a: seq<T>, b: seq<T>, c: seq<T>, d: seq<T>)
    ensures (a + b + c) + d == a + (b + c + d)
  {
  }

  /** The search of one `exec` call from the last index: the first
      position at which the pattern matches, `|s|` when there is none. */
  method FindRef(s: string, i: nat) returns (p: nat)
    requires i <= |s|
    ensures p <= |s|
    ensures p == |s| ==> NextRef(s, i).None?
    ensures p < |s| ==> NextRef(s, i) == Some(p)
  {
    p := i;
    while p < |s| && RefEnd(s, p).None?
      invariant i <= p <= |s|
      invariant forall q :: i <= q < p ==> RefEnd(s, q).None?
      decreases |s| - p
    {
      p := p + 1;
    }
    NextRefSkips(s, i, p);
  }

  lemma {:induction false} NextRefSkips(s: string, i: nat, p: nat)
    requires i <= p <= |s|
    requires forall q :: i <= q < p ==> RefEnd(s, q).None?
    ensures NextRef(s, i) == NextRef(s, p)
    decreases p - i
  {
    if i < p { NextRefSkips(s, i + 1, p); }
  }

  /** The parser of the source: a global `exec` loop that records the
      literal text before each match and the segment of the match. */
  method ParseEnvStr(s: string) returns (res: seq<Segment>)
    ensures res == Segments(s)
  {
    res := [];
    var i := 0;
    while true
      invariant i <= |s|
      invariant res + SegmentsOf(s, Scan(s, i)) == Segments(s)
      decreases |s| - i
    {
      var p := FindRef(s, i);
      if p == |s| {
        ScanEnd(s, i);
        break;
      }
      ScanStep(s, i, p);
      var e := RefEnd(s, p).value;
      var found := if i < p then [Text(s[i..p])] else [];
      var token := TokenList(s, p, e);
      Regroup(res, found, token, SegmentsOf(s, Scan(s, e)));
      res := res + found + token;
      i := e;
    }
    if i < |s| {
      res := res + [Text(s[i..|s|])];
    } else {
      assert res + [] == res;
    }
  }
}
