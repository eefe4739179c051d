/** The ANSI-stripping tap of src/strip-ansi-stream.js: a transform stream
    that removes terminal escape sequences from a child's output. A
    sequence may be split across chunks, so the tail of each chunk that
    starts at the last escape introducer is held back and put in front of
    the next chunk. */
module StripAnsi {
  import opened Outcomes
  import opened JsText
  import opened Backtrack

  const Esc: char := '\U{1B}'
  const Csi: char := '\U{9B}'
  const Bel: char := '\U{7}'

  /** `[\u001B\u009B]`: the two characters that introduce a sequence. */
  predicate IsAnchor(c: char) {
    c == Esc || c == Csi
  }

  /** `[[\]()#;?]` */
  predicate IsIntro(c: char) {
    c == '[' || c == ']' || c == '(' || c == ')' || c == '#' || c == ';' || c == '?'
  }

  /** `\d` */
  predicate IsDigit(c: char) {
    '0' <= c <= '9'
  }

  /** `[a-zA-Z\d]` */
  predicate IsAlnum(c: char) {
    'a' <= c <= 'z' || 'A' <= c <= 'Z' || IsDigit(c)
  }

  /** `[-a-zA-Z\d\/#&.:=?%@~_]` */
  predicate IsParam(c: char) {
    c == '-' || IsAlnum(c) || c == '/' || c == '#' || c == '&' || c == '.' || c == ':'
    || c == '=' || c == '?' || c == '%' || c == '@' || c == '~' || c == '_'
  }

  /** `[\dA-PR-TZcf-ntqry=><~]` */
  predicate IsFinal(c: char) {
    IsDigit(c) || 'A' <= c <= 'P' || 'R' <= c <= 'T' || c == 'Z' || c == 'c'
    || 'f' <= c <= 'n' || c == 't' || c == 'q' || c == 'r' || c == 'y'
    || c == '=' || c == '>' || c == '<' || c == '~'
  }

  predicate IsSemi(c: char) {
    c == ';'
  }

  predicate IsBel(c: char) {
    c == Bel
  }

  predicate NoAnchor(s: string) {
    forall k :: 0 <= k < |s| ==> !IsAnchor(s[k])
  }

  /** `(?:[a-zA-Z\d]*(?:;[-a-zA-Z\d\/#&.:=?%@~_]*)*)?` */
  function TextBody(): Re {
    Opt(Cat(Star(Chars(IsAlnum)), Star(Cat(Chars(IsSemi), Star(Chars(IsParam))))))
  }

  /** `(?:\d{1,4}(?:;\d{0,4})*)?` */
  function Params(): Re {
    Opt(Cat(OneTo(Chars(IsDigit), 4), Star(Cat(Chars(IsSemi), UpTo(Chars(IsDigit), 4)))))
  }

  /** What follows the introducer in a complete sequence: either a text
      body closed by BEL, or numeric parameters closed by a final character. */
  function Complete(): Re {
    Cat(Star(Chars(IsIntro)), Alt(Cat(TextBody(), Chars(IsBel)), Cat(Params(), Chars(IsFinal))))
  }

  /** The same without the closing character: a sequence still open. */
  function Partial(): Re {
    Cat(Star(Chars(IsIntro)), Alt(TextBody(), Params()))
  }

  /** `ansiRegex` (src/strip-ansi-stream.js:6-12). */
  function AnsiPattern(): Re {
    Cat(Chars(IsAnchor), Complete())
  }

  /** `potentialAnsiRegex` (src/strip-ansi-stream.js:14-20). */
  function PotentialPattern(): Re {
    Cat(Chars(IsAnchor), Partial())
  }

  /** Some match of `r` starts at `i` or later: `s.match(r)` with the
      global flag is not null. */
  predicate Occurs(r: Re, s: string, i: nat)
    requires i <= |s|
    decreases |s| - i
  {
    MatchAt(r, s, i).Some? || (i < |s| && Occurs(r, s, i + 1))
  }

  /** A complete sequence starts with an introducer and is never empty. */
  lemma AnsiMatchAt(s: string, i: nat)
    requires i <= |s|
    ensures MatchAt(AnsiPattern(), s, i).Some? ==>
            i < |s| && IsAnchor(s[i]) && MatchAt(AnsiPattern(), s, i).value > i
  {
    CatCharsEnds(IsAnchor, Complete(), s, i);
    CatCharsAdvances(IsAnchor, Complete(), s, i);
  }

  /** `s.replace(ansiRegex, '')` from position `i`: the engine tries a match
      at each position in turn, drops the matched text and resumes after it. */
  function StripFrom(s: string, i: nat): (r: string)
    requires i <= |s|
    ensures |r| <= |s| - i
    decreases |s| - i
  {
    if i == |s| then []
    else
      match MatchAt(AnsiPattern(), s, i)
      case Some(e) => AnsiMatchAt(s, i); StripFrom(s, e)
      case None => [s[i]] + StripFrom(s, i + 1)
  }

  function Strip(s: string): (r: string)
    ensures |r| <= |s|
  {
    StripFrom(s, 0)
  }

  lemma {:induction false} UpToBlind(a: Re, n: nat, c: char)
    requires Blind(a, c)
    ensures Blind(UpTo(a, n), c)
  {
    if n > 0 { UpToBlind(a, n - 1, c); }
  }

  /** No character after the introducer of a sequence is itself an introducer. */
  lemma CompleteBlind(c: char)
    requires IsAnchor(c)
    ensures Blind(Complete(), c)
  {
    UpToBlind(Chars(IsDigit), 3, c);
    UpToBlind(Chars(IsDigit), 4, c);
  }

  /** Text without an introducer is left as it is. */
  lemma {:induction false} StripPlain(s: string, i: nat)
    requires i <= |s|
    requires forall k :: i <= k < |s| ==> !IsAnchor(s[k])
    ensures StripFrom(s, i) == s[i..]
    decreases |s| - i
  {
    if i < |s| {
      AnsiMatchAt(s, i);
      StripPlain(s, i + 1);
      assert s[i..] == [s[i]] + s[i + 1..];
    }
  }

  /** A sequence matched at `i` is dropped whole. */
  lemma StripSkips(s: string, i: nat, e: nat)
    requires i < |s| && MatchAt(AnsiPattern(), s, i) == Some(e)
    ensures e <= |s| && StripFrom(s, i) == StripFrom(s, e)
  {
  }

  /** A character where no sequence matches is kept. */
  lemma StripKeeps(s: string, i: nat)
    requires i < |s| && MatchAt(AnsiPattern(), s, i).None?
    ensures StripFrom(s, i) == [s[i]] + StripFrom(s, i + 1)
  {
  }

  /** Stripping does not depend on what lies before the scanned text. */
  lemma {:induction false} StripShift(p: string, s: string, i: nat)
    requires i <= |s|
    ensures StripFrom(p + s, |p| + i) == StripFrom(s, i)
    decreases |s| - i
  {
    if i < |s| {
      MatchAtShift(AnsiPattern(), p, s, i);
      AnsiMatchAt(s, i);
      match MatchAt(AnsiPattern(), s, i)
      case Some(e) =>
        StripShift(p, s, e);
        SkipShifted(p, s, i, e);
      case None =>
        StripShift(p, s, i + 1);
        KeepShifted(p, s, i);
    }
  }

  lemma SkipShifted(p: string, s: string, i: nat, e: nat)
    requires i < |s| && e <= |s|
    requires MatchAt(AnsiPattern(), p + s, |p| + i) == Some(|p| + e) && MatchAt(AnsiPattern(), s, i) == Some(e)
    requires StripFrom(p + s, |p| + e) == StripFrom(s, e)
    ensures StripFrom(p + s, |p| + i) == StripFrom(s, i)
  {
    StripSkips(p + s, |p| + i, |p| + e);
    StripSkips(s, i, e);
  }

  lemma KeepShifted(p: string, s: string, i: nat)
    requires i < |s|
    requires MatchAt(AnsiPattern(), p + s, |p| + i).None? && MatchAt(AnsiPattern(), s, i).None?
    requires StripFrom(p + s, |p| + i + 1) == StripFrom(s, i + 1)
    ensures StripFrom(p + s, |p| + i) == StripFrom(s, i)
  {
    assert (p + s)[|p| + i] == s[i];
    StripKeeps(p + s, |p| + i);
    StripKeeps(s, i);
  }

  /** A match that starts before an introducer ends before it. */
  lemma MatchBefore(s: string, t: string, i: nat)
    requires t != [] && IsAnchor(t[0]) && i < |s|
    ensures MatchAt(AnsiPattern(), s + t, i) == MatchAt(AnsiPattern(), s, i)
  {
    CatCharsEnds(IsAnchor, Complete(), s + t, i);
    CatCharsEnds(IsAnchor, Complete(), s, i);
    assert (s + t)[i] == s[i];
    if IsAnchor(s[i]) {
      CompleteBlind(t[0]);
      EndsLocal(Complete(), s, t, i + 1);
    }
  }

  lemma {:induction false} StripBefore(s: string, t: string, i: nat)
    requires t != [] && IsAnchor(t[0]) && i <= |s|
    ensures StripFrom(s + t, i) == StripFrom(s, i) + StripFrom(s + t, |s|)
    decreases |s| - i
  {
    if i < |s| {
      MatchBefore(s, t, i);
      AnsiMatchAt(s, i);
      match MatchAt(AnsiPattern(), s, i)
      case Some(e) =>
        StripBefore(s, t, e);
        SkipBoth(s, t, i, e);
      case None =>
        StripBefore(s, t, i + 1);
        KeepBoth(s, t, i);
    }
  }

  lemma SkipBoth(s: string, t: string, i: nat, e: nat)
    requires i < |s| && e <= |s|
    requires MatchAt(AnsiPattern(), s + t, i) == Some(e) && MatchAt(AnsiPattern(), s, i) == Some(e)
    requires StripFrom(s + t, e) == StripFrom(s, e) + StripFrom(s + t, |s|)
    ensures StripFrom(s + t, i) == StripFrom(s, i) + StripFrom(s + t, |s|)
  {
    StripSkips(s + t, i, e);
    StripSkips(s, i, e);
  }

  lemma KeepBoth(s: string, t: string, i: nat)
    requires i < |s|
    requires MatchAt(AnsiPattern(), s + t, i).None? && MatchAt(AnsiPattern(), s, i).None?
    requires StripFrom(s + t, i + 1) == StripFrom(s, i + 1) + StripFrom(s + t, |s|)
    ensures StripFrom(s + t, i) == StripFrom(s, i) + StripFrom(s + t, |s|)
  {
    assert (s + t)[i] == s[i];
    StripKeeps(s + t, i);
    StripKeeps(s, i);
    Assoc([s[i]], StripFrom(s, i + 1), StripFrom(s + t, |s|));
  }

  /** Text can be cut in front of an introducer and stripped piece by piece. */
  lemma StripSplit(s: string, t: string)
    requires t == [] || IsAnchor(t[0])
    ensures Strip(s + t) == Strip(s) + Strip(t)
  {
    if t == [] {
      assert s + t == s;
    } else {
      StripBefore(s, t, 0);
      StripShift(s, t, 0);
    }
  }

  lemma {:induction false} StripPlainFront(s: string, t: string, i: nat)
    requires NoAnchor(s) && i <= |s|
    ensures StripFrom(s + t, i) == s[i..] + StripFrom(s + t, |s|)
    decreases |s| - i
  {
    if i < |s| {
      AnsiMatchAt(s + t, i);
      assert (s + t)[i] == s[i];
      StripPlainFront(s, t, i + 1);
      assert s[i..] == [s[i]] + s[i + 1..];
    }
  }

  /** Text without an introducer passes through in front of anything. */
  lemma StripPlainPrefix(s: string, t: string)
    requires NoAnchor(s)
    ensures Strip(s + t) == s + Strip(t)
  {
    StripPlainFront(s, t, 0);
    StripShift(s, t, 0);
  }

  /** The text from an introducer always matches the potential pattern:
      even the bare introducer does. */
  lemma PotentialAtAnchor(s: string)
    requires s != [] && IsAnchor(s[0])
    ensures Occurs(PotentialPattern(), s, 0)
  {
    NullableMatchesEmpty(Partial(), s, 1);
    CatCharsEnds(IsAnchor, Partial(), s, 0);
  }

  /** `lastAnchorIdx`: the last ESC, or the last CSI when there is no ESC. */
  function AnchorIndex(str: string): (r: int)
    ensures -1 <= r < |str|
    ensures r >= 0 ==> IsAnchor(str[r]) && forall k :: r < k < |str| ==> str[k] != Esc
    ensures r >= 0 && str[r] == Csi ==> Esc !in str
    ensures r < 0 <==> NoAnchor(str)
  {
    var e := LastIndexOf(str, Esc);
    if e >= 0 then e
    else
      var c := LastIndexOf(str, Csi);
      assert c < 0 ==> NoAnchor(str);
      c
  }

  /** Where the combined text is cut (src/strip-ansi-stream.js:29-38): the
      part to strip and emit now, and the part held for the next chunk. */
  function Cut(str: string): (r: (string, string))
    ensures r.0 + r.1 == str
    ensures r.1 == [] <==> NoAnchor(str)
    ensures r.1 != [] ==> IsAnchor(r.1[0]) && r.1 == str[AnchorIndex(str)..]
  {
    var idx := AnchorIndex(str);
    if idx >= 0 then
      var potential := str[idx..];
      PotentialAtAnchor(potential);
      if Occurs(PotentialPattern(), potential, 0) then (str[..idx], potential)
      else (str, [])
    else (str, [])
  }

  /** What one chunk emits continues what the earlier chunks emitted. */
  lemma EmitStep(done: string, held: string, chunk: string)
    requires held == [] || IsAnchor(held[0])
    requires held == [] ==> NoAnchor(done)
    ensures Strip(done + Cut(held + chunk).0) == Strip(done) + Strip(Cut(held + chunk).0)
  {
    var c := Cut(held + chunk);
    var pre := c.0;
    if held != [] && pre != [] {
      assert pre[0] == (pre + c.1)[0] == held[0];
    }
    EmitJoin(done, pre);
  }

  /** Text can be cut in front of an introducer, or after text without one. */
  lemma EmitJoin(done: string, pre: string)
    requires pre == [] || IsAnchor(pre[0]) || NoAnchor(done)
    ensures Strip(done + pre) == Strip(done) + Strip(pre)
  {
    if pre == [] || IsAnchor(pre[0]) {
      StripSplit(done, pre);
    } else {
      StripPlainPrefix(done, pre);
      StripPlain(done, 0);
    }
  }

  lemma PlainJoin(s: string, t: string)
    requires NoAnchor(s) && NoAnchor(t)
    ensures NoAnchor(s + t)
  {
    forall k | 0 <= k < |s + t| ensures !IsAnchor((s + t)[k]) {
      if k >= |s| { assert (s + t)[k] == t[k - |s|]; }
    }
  }

  /** The stream's invariant survives one chunk. */
  lemma ValidStep(input: string, done: string, held: string, chunk: string)
    requires input == done + held && (held == [] || IsAnchor(held[0]))
    requires held == [] ==> NoAnchor(input)
    ensures input + chunk == (done + Cut(held + chunk).0) + Cut(held + chunk).1
    ensures Cut(held + chunk).1 == [] ==> NoAnchor(input + chunk)
    ensures Strip(done + Cut(held + chunk).0) == Strip(done) + Strip(Cut(held + chunk).0)
  {
    var c := Cut(held + chunk);
    Assoc(done, held, chunk);
    Assoc(done, c.0, c.1);
    if held == [] { AppendEmpty(done); }
    EmitStep(done, held, chunk);
    if c.1 == [] {
      HeldShows(held, chunk);
      assert held == [] && NoAnchor(input);
      assert held + chunk == chunk;
      PlainJoin(input, chunk);
    }
  }

  /** Combined text without an introducer goes out unchanged. */
  lemma PlainStep(held: string, chunk: string)
    requires held == [] || IsAnchor(held[0])
    ensures NoAnchor(held + chunk) ==> Cut(held + chunk) == (chunk, []) && Strip(chunk) == chunk
  {
    HeldShows(held, chunk);
    if NoAnchor(held + chunk) {
      assert held + chunk == chunk;
      StripPlain(chunk, 0);
    }
  }

  /** Held text brings its introducer into the next combined text. */
  lemma HeldShows(held: string, chunk: string)
    requires held == [] || IsAnchor(held[0])
    ensures NoAnchor(held + chunk) ==> held == []
  {
    if held != [] {
      assert (held + chunk)[0] == held[0];
    }
  }

  /** `\d{1,4}` on a lone digit. */
  lemma OneDigit(s: string, i: nat)
    requires i + 1 < |s| && IsDigit(s[i]) && !IsDigit(s[i + 1])
    ensures Ends(OneTo(Chars(IsDigit), 4), s, i) == [i + 1]
  {
    var digit := Chars(IsDigit);
    CatCharsEnds(IsDigit, UpTo(digit, 2), s, i + 1);
    assert Ends(UpTo(digit, 3), s, i + 1) == [i + 1];
    CatCharsEnds(IsDigit, UpTo(digit, 3), s, i);
  }

  /** `(?:;\d{0,4})*` where no `;` follows. */
  lemma NoSemis(s: string, j: nat)
    requires j < |s| && s[j] != ';'
    ensures Ends(Star(Cat(Chars(IsSemi), UpTo(Chars(IsDigit), 4))), s, j) == [j]
  {
    CatCharsEnds(IsSemi, UpTo(Chars(IsDigit), 4), s, j);
    assert StarRest(Cat(Chars(IsSemi), UpTo(Chars(IsDigit), 4)), s, j) == [];
  }

  /** A single parameter digit at `i`, not followed by another digit or a
      `;`: the parameters end after it, or (giving it back) before it. */
  lemma ParamsOneDigit(s: string, i: nat)
    requires i + 1 < |s| && IsDigit(s[i]) && !IsDigit(s[i + 1]) && s[i + 1] != ';'
    ensures Ends(Params(), s, i) == [i + 1, i]
  {
    var semis := Star(Cat(Chars(IsSemi), UpTo(Chars(IsDigit), 4)));
    OneDigit(s, i);
    NoSemis(s, i + 1);
    OptCatSingle(OneTo(Chars(IsDigit), 4), semis, s, i, i + 1);
  }

  lemma OptCatSingle(a: Re, b: Re, s: string, i: nat, j: nat)
    requires i < j <= |s| && Ends(a, s, i) == [j] && Ends(b, s, j) == [j]
    ensures Ends(Opt(Cat(a, b)), s, i) == [j, i]
  {
    CatSingle(a, b, s, i, j);
    OptSingle(Cat(a, b), s, i, j);
  }

  lemma CatSingle(a: Re, b: Re, s: string, i: nat, j: nat)
    requires i <= j <= |s| && Ends(a, s, i) == [j] && Ends(b, s, j) == [j]
    ensures Ends(Cat(a, b), s, i) == [j]
  {
    assert Ends(Cat(a, b), s, i) == Then(b, s, [j], i);
    assert Then(b, s, [j], i) == Ends(b, s, j) + Then(b, s, [], i);
  }

  lemma OptSingle(r: Re, s: string, i: nat, j: nat)
    requires i < j <= |s| && Ends(r, s, i) == [j]
    ensures Ends(Opt(r), s, i) == [j, i]
  {
    assert Ends(Opt(r), s, i) == Advancing([j], i) + [i];
    assert Advancing([j], i) == [j] + Advancing([], i);
  }

  /** Without a BEL the text-body alternative never matches. */
  lemma NoBelNoText(s: string, i: nat)
    requires i <= |s|
    requires forall k :: 0 <= k < |s| ==> s[k] != Bel
    ensures Ends(Cat(TextBody(), Chars(IsBel)), s, i) == []
  {
    ThenChars(IsBel, s, Ends(TextBody(), s, i), i);
    HitsNone(IsBel, s, Ends(TextBody(), s, i));
  }

  /** One parameter digit followed by a final character. */
  lemma CsiOneDigit(s: string, i: nat)
    requires i + 1 < |s| && IsDigit(s[i]) && IsFinal(s[i + 1]) && !IsDigit(s[i + 1]) && s[i + 1] != ';'
    ensures Ends(Cat(Params(), Chars(IsFinal)), s, i) == [i + 2, i + 1]
  {
    ParamsOneDigit(s, i);
    ThenChars(IsFinal, s, [i + 1, i], i);
    assert [i + 1, i][1..] == [i];
    assert Hits(IsFinal, s, [i]) == [i + 1] + Hits(IsFinal, s, []);
  }

  /** `ESC [ d m` (or CSI `[ d m`), with no BEL anywhere, is a complete
      sequence of four characters. */
  lemma SgrMatch(s: string)
    requires |s| >= 4 && IsAnchor(s[0]) && s[1] == '[' && IsDigit(s[2]) && s[3] == 'm'
    requires forall k :: 0 <= k < |s| ==> s[k] != Bel
    ensures MatchAt(AnsiPattern(), s, 0) == Some(4)
  {
    var body := Alt(Cat(TextBody(), Chars(IsBel)), Cat(Params(), Chars(IsFinal)));
    NoBelNoText(s, 2);
    CsiOneDigit(s, 2);
    assert Ends(body, s, 2) == [4, 3];
    forall k | 1 <= k < 2
      ensures IsIntro(s[k])
    {
      assert k == 1;
    }
    assert !IsIntro(s[2]);
    RunEndIs(IsIntro, s, 1, 2);
    StarCharsEnds(IsIntro, s, 1);
    assert Desc(2, 1) == [2, 1];
    assert Then(body, s, [2, 1], 1) == Ends(body, s, 2) + Then(body, s, [1], 1);
    assert Complete() == Cat(Star(Chars(IsIntro)), body);
    var es := Ends(Complete(), s, 1);
    assert es == [4, 3] + Then(body, s, [1], 1);
    CatCharsEnds(IsAnchor, Complete(), s, 0);
    assert Ends(AnsiPattern(), s, 0) == es;
  }

  /** With the last ESC at `i`, the text is cut right before it. */
  lemma CutAtLastEsc(str: string, i: nat)
    requires i < |str| && str[i] == Esc
    requires forall k :: i < k < |str| ==> str[k] != Esc
    ensures Cut(str) == (str[..i], str[i..])
  {
    assert !NoAnchor(str);
    var r := Cut(str);
    assert r.1 == str[i..];
    assert r.0 == (r.0 + r.1)[..i];
  }

  /** One `stripAnsiStream()`: `held` is `potentialstr` (the empty string
      standing for `null`), `output` is everything pushed to the readable
      side. `input` and `done` record everything written and the part of
      it already passed to `replace`. */
  class AnsiStripper {
    var held: string
    var output: string
    ghost var input: string
    ghost var done: string

    /** The held text starts at an introducer, nothing is held until the
        first introducer arrives, and what has been emitted is exactly the
        stripped text that is no longer held. */
    ghost predicate Valid()
      reads this
    {
      && input == done + held
      && (held == [] || IsAnchor(held[0]))
      && (held == [] ==> NoAnchor(input))
      && output == Strip(done)
    }

    constructor()
      ensures Valid() && held == [] && output == [] && input == []
    {
      held := [];
      output := [];
      input := [];
      done := [];
    }

    /** `transform` (src/strip-ansi-stream.js:25-42). */
    method Transform(chunk: string) returns (out: string)
      requires Valid()
      modifies this
      ensures Valid() && input == old(input) + chunk
      ensures held == Cut(old(held) + chunk).1
      ensures out == Strip(Cut(old(held) + chunk).0)
      ensures output == old(output) + out
      ensures NoAnchor(old(held) + chunk) ==> out == chunk && held == []
    {
      var str := held + chunk;
      ghost var before := held;
      held := [];
      var idx := LastIndexOf(str, Esc);
      if idx < 0 { idx := LastIndexOf(str, Csi); }
      if idx >= 0 {
        held := str[idx..];
        if Occurs(PotentialPattern(), held, 0) {
          str := str[..idx];
        } else {
          held := [];
        }
      }
      out := Strip(str);
      assert str == Cut(before + chunk).0 && held == Cut(before + chunk).1;
      ValidStep(input, done, before, chunk);
      PlainStep(before, chunk);
      output := output + out;
      done := done + str;
      input := input + chunk;
    }

    /** `flush` as written (src/strip-ansi-stream.js:43-45): the held text
        goes out as it is. When nothing is held, `potentialstr && cb(...)`
        never calls the callback, so the stream never finishes; the model
        returns the empty text as if it had. */
    method Flush() returns (out: string)
      requires Valid()
      modifies this
      ensures out == old(held) && held == old(held)
      ensures output == old(output) + out
      ensures output == Strip(done) + held
    {
      out := held;
      output := output + out;
    }

    /** `flush` stripping the held text: whatever the chunking, what the
        stream emits is the stripped input. */
    method FlushFixed() returns (out: string)
      requires Valid()
      modifies this
      ensures out == Strip(old(held)) && held == []
      ensures output == old(output) + out
      ensures output == Strip(input)
    {
      out := Strip(held);
      StripSplit(done, held);
      output := output + out;
      done := done + held;
      held := [];
    }
  }

  /** Text that opens with `ESC [ d m` and has no other introducer and no
      BEL loses just those four characters. */
  lemma StripAfterSgr(s: string)
    requires |s| >= 4 && IsAnchor(s[0]) && s[1] == '[' && IsDigit(s[2]) && s[3] == 'm'
    requires forall k :: 0 <= k < |s| ==> s[k] != Bel
    requires forall k :: 4 <= k < |s| ==> !IsAnchor(s[k])
    ensures Strip(s) == s[4..]
  {
    SgrMatch(s);
    StripPlain(s, 4);
  }

  /** The stripped form of the underlined word. */
  lemma StripUnderlined(s: string)
    requires s == "\U{1B}[4mUnicorn"
    ensures Strip(s) == "Unicorn"
  {
    StripAfterSgr(s);
    assert s[4..] == "Unicorn";
  }

  /** A lone reset sequence strips to nothing. */
  lemma StripReset(s: string)
    requires s == "\U{1B}[0m"
    ensures Strip(s) == []
  {
    StripAfterSgr(s);
  }

  lemma CutSimple()
    ensures Cut([] + "\U{1B}[4mUnicorn\U{1B}[0m") == ("\U{1B}[4mUnicorn", "\U{1B}[0m")
  {
    var str := "\U{1B}[4mUnicorn\U{1B}[0m";
    assert [] + str == str;
    CutAtLastEsc(str, 11);
    assert str[..11] == "\U{1B}[4mUnicorn" && str[11..] == "\U{1B}[0m";
  }

  /** Writing `'\u001B[4mUnicorn\u001B[0m'` in one chunk emits `Unicorn`
      and holds the reset sequence back. */
  method SimpleCode() returns (out: string, held: string)
    ensures out == "Unicorn" && held == "\U{1B}[0m"
  {
    var st := new AnsiStripper();
    CutSimple();
    StripUnderlined("\U{1B}[4mUnicorn");
    out := st.Transform("\U{1B}[4mUnicorn\U{1B}[0m");
    held := st.held;
  }

  lemma CutGolden1()
    ensures Cut([] + "Golden \U{1B}[") == ("Golden ", "\U{1B}[")
  {
    var str := "Golden \U{1B}[";
    assert [] + str == str;
    CutAtLastEsc(str, 7);
    assert str[..7] == "Golden " && str[7..] == "\U{1B}[";
  }

  lemma StripGolden(s: string)
    requires s == "Golden "
    ensures Strip(s) == s
  {
    StripPlain(s, 0);
  }

  lemma CutGolden2()
    ensures Cut("\U{1B}[" + "4") == ([], "\U{1B}[4")
  {
    var str := "\U{1B}[" + "4";
    assert str == "\U{1B}[4";
    CutAtLastEsc(str, 0);
  }

  lemma CutGolden3()
    ensures Cut("\U{1B}[4" + "mUni") == ([], "\U{1B}[4mUni")
  {
    var str := "\U{1B}[4" + "mUni";
    assert str == "\U{1B}[4mUni";
    CutAtLastEsc(str, 0);
  }

  lemma CutGolden4()
    ensures Cut("\U{1B}[4mUni" + "corn\U{1B}[0") == ("\U{1B}[4mUnicorn", "\U{1B}[0")
  {
    var str := "\U{1B}[4mUni" + "corn\U{1B}[0";
    assert str == "\U{1B}[4mUnicorn\U{1B}[0";
    CutAtLastEsc(str, 11);
    assert str[..11] == "\U{1B}[4mUnicorn" && str[11..] == "\U{1B}[0";
  }

  lemma CutGolden5()
    ensures Cut("\U{1B}[0" + "m") == ([], "\U{1B}[0m")
  {
    var str := "\U{1B}[0" + "m";
    assert str == "\U{1B}[0m";
    CutAtLastEsc(str, 0);
  }

  /** A sequence written across five chunks: the text before it goes out
      at once, the sequence itself never does. `seen` is the output after
      each write. */
  method ProgressiveDetection() returns (seen: seq<string>)
    ensures seen == ["Golden ", "Golden ", "Golden ", "Golden " + "Unicorn", "Golden " + "Unicorn"]
  {
    var st := new AnsiStripper();
    CutGolden1();
    StripGolden("Golden ");
    var o1 := st.Transform("Golden \U{1B}[");
    assert st.output == "Golden " && st.held == "\U{1B}[";
    var s1 := st.output;
    CutGolden2();
    var o2 := st.Transform("4");
    assert o2 == [] && st.output == "Golden " && st.held == "\U{1B}[4";
    var s2 := st.output;
    CutGolden3();
    var o3 := st.Transform("mUni");
    assert o3 == [] && st.output == "Golden " && st.held == "\U{1B}[4mUni";
    var s3 := st.output;
    CutGolden4();
    StripUnderlined("\U{1B}[4mUnicorn");
    var o4 := st.Transform("corn\U{1B}[0");
    assert o4 == "Unicorn" && st.held == "\U{1B}[0";
    assert st.output == "Golden " + "Unicorn";
    var s4 := st.output;
    CutGolden5();
    var o5 := st.Transform("m");
    assert o5 == [] && st.output == "Golden " + "Unicorn";
    var s5 := st.output;
    seen := [s1, s2, s3, s4, s5];
  }

  /** The whole underlined word, reset included, strips to the word. */
  lemma StripSimpleInput()
    ensures Strip("\U{1B}[4mUnicorn\U{1B}[0m") == "Unicorn"
  {
    var a := "\U{1B}[4mUnicorn";
    var b := "\U{1B}[0m";
    assert a + b == "\U{1B}[4mUnicorn\U{1B}[0m";
    StripSplit(a, b);
    StripUnderlined("\U{1B}[4mUnicorn");
    StripReset("\U{1B}[0m");
  }

  /** `flush` as written: a sequence that ends the stream is emitted
      unstripped, although the same text in one piece strips to `Unicorn`. */
  method FlushLeaks() returns (emitted: string, stripped: string)
    ensures emitted == "Unicorn" + "\U{1B}[0m"
    ensures stripped == "Unicorn" && emitted != stripped
  {
    var st := new AnsiStripper();
    CutSimple();
    StripUnderlined("\U{1B}[4mUnicorn");
    var o := st.Transform("\U{1B}[4mUnicorn\U{1B}[0m");
    assert st.output == "Unicorn" && st.held == "\U{1B}[0m";
    var f := st.Flush();
    emitted := st.output;
    assert emitted == "Unicorn" + "\U{1B}[0m";
    StripSimpleInput();
    stripped := Strip("\U{1B}[4mUnicorn\U{1B}[0m");
    assert |emitted| != |stripped|;
  }

  /** The corrected `flush` on the same input. */
  method FlushStrips() returns (emitted: string)
    ensures emitted == "Unicorn"
  {
    var st := new AnsiStripper();
    CutSimple();
    StripUnderlined("\U{1B}[4mUnicorn");
    var o := st.Transform("\U{1B}[4mUnicorn\U{1B}[0m");
    assert o == "Unicorn";
    assert st.output == "Unicorn";
    assert st.held == "\U{1B}[0m";
    StripReset("\U{1B}[0m");
    var f := st.FlushFixed();
    assert f == [];
    emitted := st.output;
  }
}
