/** The fragment of ECMAScript regular expressions that the source's
    patterns use (bracket classes, concatenation, alternation, greedy `*`,
    greedy `?` and bounded repetition), with the backtracking semantics of
    the ECMAScript matcher: `Ends(r, s, i)` lists every position at which a
    match of `r` that starts at `i` can end, in the order in which the
    backtracking matcher tries them, so that the match a JavaScript engine
    reports is the first element of the list. */
module Backtrack {
  import opened Outcomes

  datatype Re =
    | Empty
    | Chars(has: char -> bool)
    | Cat(a: Re, b: Re)
    | Alt(a: Re, b: Re)
    | Star(a: Re)
    | Opt(a: Re)

  /** The single character `c`. */
  function Lit(c: char): Re {
    Chars(x => x == c)
  }

  /** `a+`, which the ECMAScript matcher runs as `a` followed by `a*`. */
  function Plus(a: Re): Re {
    Cat(a, Star(a))
  }

  /** `a{0,n}`, greedy: `(?:a(?:a(?:...)?)?)?`. */
  function UpTo(a: Re, n: nat): Re {
    if n == 0 then Empty else Opt(Cat(a, UpTo(a, n - 1)))
  }

  /** `a{1,n}`, greedy. */
  function OneTo(a: Re, n: nat): Re
    requires n >= 1
  {
    Cat(a, UpTo(a, n - 1))
  }

  /** The positions of `es` beyond `i`: an iteration of `*` or `?` that
      matched the empty string is rejected by the ECMAScript matcher. */
  function Advancing(es: seq<nat>, i: nat): (r: seq<nat>)
    ensures forall k :: 0 <= k < |r| ==> r[k] in es && r[k] > i
  {
    if es == [] then []
    else if es[0] > i then [es[0]] + Advancing(es[1..], i)
    else Advancing(es[1..], i)
  }

  lemma {:induction false} AdvancingWithin(es: seq<nat>, i: nat, n: nat)
    requires forall k :: 0 <= k < |es| ==> es[k] <= n
    ensures forall k :: 0 <= k < |Advancing(es, i)| ==> i < Advancing(es, i)[k] <= n
  {
    if es != [] {
      AdvancingWithin(es[1..], i, n);
    }
  }

  /** End positions of the matches of `r` at `i`, in backtracking order. */
  function Ends(r: Re, s: string, i: nat): (es: seq<nat>)
    requires i <= |s|
    ensures forall k :: 0 <= k < |es| ==> i <= es[k] <= |s|
    decreases r, |s| - i, 3, 0
  {
    match r
    case Empty => [i]
    case Chars(has) => if i < |s| && has(s[i]) then [i + 1] else []
    case Cat(a, b) => Then(b, s, Ends(a, s, i), i)
    case Alt(a, b) => Ends(a, s, i) + Ends(b, s, i)
    case Opt(a) => Advancing(Ends(a, s, i), i) + [i]
    case Star(a) => StarRest(a, s, i) + [i]
  }

  /** The ends of the iterations of `a*` after a first, non-empty one at `i`. */
  function StarRest(a: Re, s: string, i: nat): (es: seq<nat>)
    requires i <= |s|
    ensures forall k :: 0 <= k < |es| ==> i < es[k] <= |s|
    decreases Star(a), |s| - i, 2, 0
  {
    StarFrom(a, s, i, Advancing(Ends(a, s, i), i))
  }

  /** The ends of `b` tried from each of `starts` in turn. */
  function Then(b: Re, s: string, starts: seq<nat>, lo: nat): (es: seq<nat>)
    requires forall k :: 0 <= k < |starts| ==> lo <= starts[k] <= |s|
    ensures forall k :: 0 <= k < |es| ==> lo <= es[k] <= |s|
    decreases b, |s| + 1, 0, |starts|
  {
    if starts == [] then []
    else Ends(b, s, starts[0]) + Then(b, s, starts[1..], lo)
  }

  /** Further iterations of `a*` after a first iteration ended at each of `starts`. */
  function StarFrom(a: Re, s: string, i: nat, starts: seq<nat>): (es: seq<nat>)
    requires forall k :: 0 <= k < |starts| ==> i < starts[k] <= |s|
    ensures forall k :: 0 <= k < |es| ==> i < es[k] <= |s|
    decreases Star(a), |s| - i, 1, |starts|
  {
    if starts == [] then []
    else Ends(Star(a), s, starts[0]) + StarFrom(a, s, i, starts[1..])
  }

  /** The end of the match the engine reports at `i`, if any. */
  function MatchAt(r: Re, s: string, i: nat): (m: Option<nat>)
    requires i <= |s|
    ensures m.Some? ==> i <= m.value <= |s|
  {
    var es := Ends(r, s, i);
    if es == [] then None else Some(es[0])
  }

  /** `[j, j - 1, ..., i]`: the order in which a greedy `*` gives back characters. */
  function Desc(j: nat, i: nat): (d: seq<nat>)
    requires i <= j
    ensures |d| == j - i + 1 && d[0] == j
    ensures forall k :: 0 <= k < |d| ==> d[k] == j - k
    decreases j - i
  {
    if j == i then [i] else [j] + Desc(j - 1, i)
  }

  lemma DescLast(j: nat, i: nat)
    requires i < j
    ensures Desc(j, i + 1) + [i] == Desc(j, i)
  {
  }

  /** The end of the longest run of characters satisfying `has` from `i`. */
  function RunEnd(has: char -> bool, s: string, i: nat): (j: nat)
    requires i <= |s|
    ensures i <= j <= |s|
    ensures forall k :: i <= k < j ==> has(s[k])
    ensures j < |s| ==> !has(s[j])
    decreases |s| - i
  {
    if i < |s| && has(s[i]) then RunEnd(has, s, i + 1) else i
  }

  /** A run is known by where it stops. */
  lemma RunEndIs(has: char -> bool, s: string, i: nat, j: nat)
    requires i <= j <= |s|
    requires forall k :: i <= k < j ==> has(s[k])
    requires j < |s| ==> !has(s[j])
    ensures RunEnd(has, s, i) == j
  {
  }

  /** The ends reached by the character class `has` from each of `starts`. */
  function Hits(has: char -> bool, s: string, starts: seq<nat>): (r: seq<nat>)
    requires forall k :: 0 <= k < |starts| ==> starts[k] <= |s|
    ensures forall k :: 0 <= k < |r| ==> 0 < r[k] <= |s|
  {
    if starts == [] then []
    else (if starts[0] < |s| && has(s[starts[0]]) then [starts[0] + 1] else [])
         + Hits(has, s, starts[1..])
  }

  function First(es: seq<nat>): Option<nat> {
    if es == [] then None else Some(es[0])
  }

  lemma FirstAppend(a: seq<nat>, b: seq<nat>)
    ensures First(a + b) == if a == [] then First(b) else First(a)
  {
    if a != [] { assert (a + b)[0] == a[0]; } else { assert a + b == b; }
  }

  lemma {:induction false} HitsAppend(has: char -> bool, s: string, a: seq<nat>, b: seq<nat>)
    requires forall k :: 0 <= k < |a| ==> a[k] <= |s|
    requires forall k :: 0 <= k < |b| ==> b[k] <= |s|
    ensures Hits(has, s, a + b) == Hits(has, s, a) + Hits(has, s, b)
  {
    if a == [] {
      assert a + b == b;
    } else {
      var ab := a + b;
      assert ab[0] == a[0] && ab[1..] == a[1..] + b;
      HitsAppend(has, s, a[1..], b);
      var h := if a[0] < |s| && has(s[a[0]]) then [a[0] + 1] else [];
      calc {
        Hits(has, s, ab);
        h + Hits(has, s, a[1..] + b);
        h + (Hits(has, s, a[1..]) + Hits(has, s, b));
        (h + Hits(has, s, a[1..])) + Hits(has, s, b);
      }
    }
  }

  /** A character class after a list of starts is exactly `Hits`. */
  lemma {:induction false} ThenChars(has: char -> bool, s: string, starts: seq<nat>, lo: nat)
    requires forall k :: 0 <= k < |starts| ==> lo <= starts[k] <= |s|
    ensures Then(Chars(has), s, starts, lo) == Hits(has, s, starts)
  {
    if starts != [] { ThenChars(has, s, starts[1..], lo); }
  }

  /** A greedy star over a character class ends at the end of the longest
      run first, then gives back one character at a time. */
  lemma {:induction false} StarCharsEnds(has: char -> bool, s: string, i: nat)
    requires i <= |s|
    ensures Ends(Star(Chars(has)), s, i) == Desc(RunEnd(has, s, i), i)
    decreases |s| - i
  {
    if i < |s| && has(s[i]) {
      var c := Chars(has);
      assert Ends(c, s, i) == [i + 1];
      assert Advancing([i + 1], i) == [i + 1];
      assert StarFrom(c, s, i, [i + 1]) == Ends(Star(c), s, i + 1) + StarFrom(c, s, i, []);
      assert StarRest(c, s, i) == Ends(Star(c), s, i + 1);
      StarCharsEnds(has, s, i + 1);
      assert RunEnd(has, s, i) == RunEnd(has, s, i + 1);
      DescLast(RunEnd(has, s, i + 1), i);
    } else {
      assert Ends(Chars(has), s, i) == [];
      assert StarRest(Chars(has), s, i) == [];
    }
  }

  /** A class that rejects every character of a run, tried after the run's
      greedy star, can only succeed at the run's end. */
  lemma {:induction false} HitsDesc(run: char -> bool, has: char -> bool, s: string, j: nat, i: nat)
    requires i <= j <= |s|
    requires forall k :: i <= k < j ==> run(s[k]) && !has(s[k])
    ensures Hits(has, s, Desc(j, i)) == if j < |s| && has(s[j]) then [j + 1] else []
  {
    var d := Desc(j, i);
    var h := if j < |s| && has(s[j]) then [j + 1] else [];
    assert Hits(has, s, d) == h + Hits(has, s, d[1..]);
    if j > i {
      assert d[1..] == Desc(j - 1, i);
      HitsDescNone(has, s, j - 1, i);
    } else {
      assert d[1..] == [];
    }
  }

  /** A class that rejects every character from `i` to `j` hits none of them. */
  lemma {:induction false} HitsDescNone(has: char -> bool, s: string, j: nat, i: nat)
    requires i <= j < |s|
    requires forall k :: i <= k <= j ==> !has(s[k])
    ensures Hits(has, s, Desc(j, i)) == []
    decreases j - i
  {
    var d := Desc(j, i);
    assert Hits(has, s, d) == Hits(has, s, d[1..]);
    if j > i {
      assert d[1..] == Desc(j - 1, i);
      HitsDescNone(has, s, j - 1, i);
    } else {
      assert d[1..] == [];
    }
  }

  /** A pattern that starts with a character class matches only where that
      class accepts the character, and continues right after it. */
  lemma CatCharsEnds(has: char -> bool, b: Re, s: string, i: nat)
    requires i <= |s|
    ensures Ends(Cat(Chars(has), b), s, i) ==
            if i < |s| && has(s[i]) then Ends(b, s, i + 1) else []
  {
    if i < |s| && has(s[i]) {
      assert Then(b, s, [i + 1], i) == Ends(b, s, i + 1) + Then(b, s, [], i);
    }
  }

  /** Every match of a pattern that starts with a character class is non-empty. */
  lemma CatCharsAdvances(has: char -> bool, b: Re, s: string, i: nat)
    requires i <= |s|
    ensures forall k :: 0 <= k < |Ends(Cat(Chars(has), b), s, i)| ==> Ends(Cat(Chars(has), b), s, i)[k] > i
  {
    CatCharsEnds(has, b, s, i);
  }

  /** `r` can match the empty string. */
  predicate Nullable(r: Re) {
    match r
    case Empty => true
    case Chars(_) => false
    case Cat(a, b) => Nullable(a) && Nullable(b)
    case Alt(a, b) => Nullable(a) || Nullable(b)
    case Star(_) => true
    case Opt(_) => true
  }

  lemma {:induction false} ThenContains(b: Re, s: string, starts: seq<nat>, lo: nat, k: nat, e: nat)
    requires forall m :: 0 <= m < |starts| ==> lo <= starts[m] <= |s|
    requires k < |starts| && e in Ends(b, s, starts[k])
    ensures e in Then(b, s, starts, lo)
  {
    if k > 0 { ThenContains(b, s, starts[1..], lo, k - 1, e); }
  }

  /** A nullable pattern always has the empty match among its matches. */
  lemma {:induction false} NullableMatchesEmpty(r: Re, s: string, i: nat)
    requires i <= |s| && Nullable(r)
    ensures i in Ends(r, s, i)
  {
    match r
    case Empty =>
    case Cat(a, b) =>
      NullableMatchesEmpty(a, s, i);
      NullableMatchesEmpty(b, s, i);
      var es := Ends(a, s, i);
      var k :| 0 <= k < |es| && es[k] == i;
      ThenContains(b, s, es, i, k, i);
    case Alt(a, b) =>
      if Nullable(a) { NullableMatchesEmpty(a, s, i); } else { NullableMatchesEmpty(b, s, i); }
    case Star(a) =>
      var tail := [i];
      assert i in tail;
    case Opt(a) =>
      var tail := [i];
      assert i in tail;
  }

  lemma StarFromSingle(a: Re, s: string, i: nat, x: nat)
    requires i < x <= |s|
    ensures StarFrom(a, s, i, [x]) == Ends(Star(a), s, x)
  {
    assert StarFrom(a, s, i, [x]) == Ends(Star(a), s, x) + StarFrom(a, s, i, []);
  }

  lemma {:induction false} StarFromAppend(a: Re, s: string, i: nat, xs: seq<nat>, ys: seq<nat>)
    requires forall k :: 0 <= k < |xs| ==> i < xs[k] <= |s|
    requires forall k :: 0 <= k < |ys| ==> i < ys[k] <= |s|
    ensures StarFrom(a, s, i, xs + ys) == StarFrom(a, s, i, xs) + StarFrom(a, s, i, ys)
  {
    if xs == [] {
      assert xs + ys == ys;
    } else {
      var xy := xs + ys;
      assert xy[0] == xs[0] && xy[1..] == xs[1..] + ys;
      StarFromAppend(a, s, i, xs[1..], ys);
    }
  }

  lemma {:induction false} HitsAbove(has: char -> bool, s: string, starts: seq<nat>, lo: nat)
    requires forall k :: 0 <= k < |starts| ==> lo <= starts[k] <= |s|
    ensures forall k :: 0 <= k < |Hits(has, s, starts)| ==> lo < Hits(has, s, starts)[k]
  {
    if starts != [] { HitsAbove(has, s, starts[1..], lo); }
  }

  /** A character class followed by `b`, tried from each of `starts`. */
  lemma {:induction false} ThenCatChars(has: char -> bool, b: Re, s: string, starts: seq<nat>, lo: nat)
    requires forall k :: 0 <= k < |starts| ==> lo <= starts[k] <= |s|
    ensures forall k :: 0 <= k < |Hits(has, s, starts)| ==> lo < Hits(has, s, starts)[k]
    ensures Then(Cat(Chars(has), b), s, starts, lo) == Then(b, s, Hits(has, s, starts), lo)
  {
    HitsAbove(has, s, starts, lo);
    if starts != [] {
      var rest := starts[1..];
      HitsAbove(has, s, rest, lo);
      ThenCatChars(has, b, s, rest, lo);
      var h := CatCharsStep(has, b, s, starts, lo);
      ThenAppend(b, s, h, Hits(has, s, rest), lo);
    }
  }

  /** The first start of `ThenCatChars`: its hit `h`, if any, comes first. */
  lemma CatCharsStep(has: char -> bool, b: Re, s: string, starts: seq<nat>, lo: nat) returns (h: seq<nat>)
    requires starts != [] && forall k :: 0 <= k < |starts| ==> lo <= starts[k] <= |s|
    ensures h == if starts[0] < |s| && has(s[starts[0]]) then [starts[0] + 1] else []
    ensures forall k :: 0 <= k < |h| ==> lo <= h[k] <= |s|
    ensures Hits(has, s, starts) == h + Hits(has, s, starts[1..])
    ensures Then(Cat(Chars(has), b), s, starts, lo) == Then(b, s, h, lo) + Then(Cat(Chars(has), b), s, starts[1..], lo)
  {
    var x := starts[0];
    h := if x < |s| && has(s[x]) then [x + 1] else [];
    var c := Cat(Chars(has), b);
    assert Then(c, s, starts, lo) == Ends(c, s, x) + Then(c, s, starts[1..], lo);
    CatCharsEnds(has, b, s, x);
    if h != [] {
      assert Then(b, s, h, lo) == Ends(b, s, x + 1) + Then(b, s, [], lo);
    } else {
      assert Then(b, s, h, lo) == [];
    }
  }

  lemma {:induction false} ThenAppend(b: Re, s: string, xs: seq<nat>, ys: seq<nat>, lo: nat)
    requires forall k :: 0 <= k < |xs| ==> lo <= xs[k] <= |s|
    requires forall k :: 0 <= k < |ys| ==> lo <= ys[k] <= |s|
    ensures Then(b, s, xs + ys, lo) == Then(b, s, xs, lo) + Then(b, s, ys, lo)
  {
    if xs == [] {
      assert xs + ys == ys;
    } else {
      var xy := xs + ys;
      assert xy[0] == xs[0] && xy[1..] == xs[1..] + ys;
      ThenAppend(b, s, xs[1..], ys, lo);
    }
  }

  /** `es` with every position moved `n` places to the right. */
  function Shift(es: seq<nat>, n: nat): (r: seq<nat>)
    ensures |r| == |es|
    ensures forall k :: 0 <= k < |es| ==> r[k] == es[k] + n
  {
    seq(|es|, k requires 0 <= k < |es| => es[k] + n)
  }

  lemma ShiftAppend(xs: seq<nat>, ys: seq<nat>, n: nat)
    ensures Shift(xs + ys, n) == Shift(xs, n) + Shift(ys, n)
  {
  }

  lemma ShiftCons(es: seq<nat>, n: nat)
    requires es != []
    ensures Shift(es, n) == [es[0] + n] + Shift(es[1..], n)
  {
  }

  lemma AdvancingCons(x: nat, rest: seq<nat>, i: nat)
    ensures Advancing([x] + rest, i) == (if x > i then [x] else []) + Advancing(rest, i)
  {
    assert ([x] + rest)[1..] == rest;
  }

  lemma {:induction false} AdvancingShift(es: seq<nat>, i: nat, n: nat)
    ensures Advancing(Shift(es, n), n + i) == Shift(Advancing(es, i), n)
  {
    if es != [] {
      var e, t := es[0], es[1..];
      assert es == [e] + t;
      ShiftCons(es, n);
      AdvancingCons(e + n, Shift(t, n), n + i);
      AdvancingCons(e, t, i);
      AdvancingShift(t, i, n);
      var head: seq<nat> := if e > i then [e] else [];
      ShiftAppend(head, Advancing(t, i), n);
      assert Shift(head, n) == if e > i then [e + n] else [];
    }
  }

  /** The patterns have no anchors and no look-behind: what matches at
      position `i` of `s` matches at position `|p| + i` of `p + s`, with
      every end moved by `|p|`. */
  lemma {:induction false} EndsShift(r: Re, p: string, s: string, i: nat)
    requires i <= |s|
    ensures Ends(r, p + s, |p| + i) == Shift(Ends(r, s, i), |p|)
    decreases r, |s| - i, 3, 0
  {
    var ps := p + s;
    match r
    case Empty =>
    case Chars(has) =>
      if i < |s| { assert ps[|p| + i] == s[i]; }
    case Cat(a, b) =>
      EndsShift(a, p, s, i);
      ThenShift(b, p, s, Ends(a, s, i), i);
    case Alt(a, b) =>
      EndsShift(a, p, s, i);
      EndsShift(b, p, s, i);
      ShiftAppend(Ends(a, s, i), Ends(b, s, i), |p|);
    case Opt(a) =>
      EndsShift(a, p, s, i);
      OptShift(a, p, s, i);
    case Star(a) =>
      StarRestShift(a, p, s, i);
      StarShift(a, p, s, i);
  }

  lemma {:induction false} StarRestShift(a: Re, p: string, s: string, i: nat)
    requires i <= |s|
    ensures StarRest(a, p + s, |p| + i) == Shift(StarRest(a, s, i), |p|)
    decreases Star(a), |s| - i, 2, 0
  {
    var ea := Ends(a, s, i);
    AdvancingWithin(ea, i, |s|);
    EndsShift(a, p, s, i);
    AdvancingShifted(Ends(a, p + s, |p| + i), ea, i, |p|);
    StarFromShift(a, p, s, i, Advancing(ea, i), Advancing(Ends(a, p + s, |p| + i), |p| + i));
  }

  lemma ShiftOne(i: nat, n: nat)
    ensures Shift([i], n) == [n + i]
  {
  }

  /** The sequence algebra behind `?` and `*`: dropping the empty
      iterations and appending the start commute with the shift. */
  lemma AdvancingThenStart(es: seq<nat>, i: nat, n: nat)
    ensures Advancing(Shift(es, n), n + i) + [n + i] == Shift(Advancing(es, i) + [i], n)
  {
    AdvancingShift(es, i, n);
    ShiftAppend(Advancing(es, i), [i], n);
    ShiftOne(i, n);
  }

  lemma AppendStart(xs: seq<nat>, i: nat, n: nat)
    ensures Shift(xs, n) + [n + i] == Shift(xs + [i], n)
  {
    ShiftAppend(xs, [i], n);
    ShiftOne(i, n);
  }

  lemma OptShift(a: Re, p: string, s: string, i: nat)
    requires i <= |s|
    requires Ends(a, p + s, |p| + i) == Shift(Ends(a, s, i), |p|)
    ensures Ends(Opt(a), p + s, |p| + i) == Shift(Ends(Opt(a), s, i), |p|)
  {
    var ea := Ends(a, s, i);
    assert Ends(Opt(a), s, i) == Advancing(ea, i) + [i];
    AdvancingThenStart(ea, i, |p|);
  }

  lemma AdvancingShifted(xs: seq<nat>, es: seq<nat>, i: nat, n: nat)
    requires xs == Shift(es, n)
    ensures Advancing(xs, n + i) == Shift(Advancing(es, i), n)
  {
    AdvancingShift(es, i, n);
  }

  lemma StarShift(a: Re, p: string, s: string, i: nat)
    requires i <= |s|
    requires StarRest(a, p + s, |p| + i) == Shift(StarRest(a, s, i), |p|)
    ensures Ends(Star(a), p + s, |p| + i) == Shift(Ends(Star(a), s, i), |p|)
  {
    AppendStart(StarRest(a, s, i), i, |p|);
  }

  lemma {:induction false} ThenShift(b: Re, p: string, s: string, starts: seq<nat>, lo: nat)
    requires forall k :: 0 <= k < |starts| ==> lo <= starts[k] <= |s|
    ensures Then(b, p + s, Shift(starts, |p|), |p| + lo) == Shift(Then(b, s, starts, lo), |p|)
    decreases b, |s| + 1, 0, |starts|
  {
    if starts != [] {
      EndsShift(b, p, s, starts[0]);
      ThenShift(b, p, s, starts[1..], lo);
      ShiftCons(starts, |p|);
      ShiftAppend(Ends(b, s, starts[0]), Then(b, s, starts[1..], lo), |p|);
    }
  }

  lemma {:induction false} StarFromShift(a: Re, p: string, s: string, i: nat, starts: seq<nat>, xs: seq<nat>)
    requires forall k :: 0 <= k < |starts| ==> i < starts[k] <= |s|
    requires xs == Shift(starts, |p|)
    ensures StarFrom(a, p + s, |p| + i, xs) == Shift(StarFrom(a, s, i, starts), |p|)
    decreases Star(a), |s| - i, 1, |starts|
  {
    if starts != [] {
      EndsShift(Star(a), p, s, starts[0]);
      StarFromShift(a, p, s, i, starts[1..], xs[1..]);
      ShiftAppend(Ends(Star(a), s, starts[0]), StarFrom(a, s, i, starts[1..]), |p|);
    }
  }

  lemma MatchAtShift(r: Re, p: string, s: string, i: nat)
    requires i <= |s|
    ensures MatchAt(r, p + s, |p| + i) == match MatchAt(r, s, i) case Some(e) => Some(|p| + e) case None => None
  {
    EndsShift(r, p, s, i);
  }

  /** No character class of `r` accepts `c`. */
  predicate Blind(r: Re, c: char) {
    match r
    case Empty => true
    case Chars(has) => !has(c)
    case Cat(a, b) => Blind(a, c) && Blind(b, c)
    case Alt(a, b) => Blind(a, c) && Blind(b, c)
    case Star(a) => Blind(a, c)
    case Opt(a) => Blind(a, c)
  }

  /** A pattern blind to the first character of `t` cannot see past the
      end of `s` in `s + t`. */
  lemma {:induction false} EndsLocal(r: Re, s: string, t: string, i: nat)
    requires t != [] && Blind(r, t[0]) && i <= |s|
    ensures Ends(r, s + t, i) == Ends(r, s, i)
    decreases r, |s| - i, 3, 0
  {
    var st := s + t;
    match r
    case Empty =>
    case Chars(has) =>
      if i < |s| { assert st[i] == s[i]; } else { assert st[i] == t[0]; }
    case Cat(a, b) =>
      EndsLocal(a, s, t, i);
      ThenLocal(b, s, t, Ends(a, s, i), i);
    case Alt(a, b) =>
      EndsLocal(a, s, t, i);
      EndsLocal(b, s, t, i);
    case Opt(a) =>
      EndsLocal(a, s, t, i);
    case Star(a) =>
      EndsLocal(a, s, t, i);
      StarFromLocal(a, s, t, i, Advancing(Ends(a, s, i), i));
  }

  lemma {:induction false} ThenLocal(b: Re, s: string, t: string, starts: seq<nat>, lo: nat)
    requires t != [] && Blind(b, t[0])
    requires forall k :: 0 <= k < |starts| ==> lo <= starts[k] <= |s|
    ensures Then(b, s + t, starts, lo) == Then(b, s, starts, lo)
    decreases b, |s| + 1, 0, |starts|
  {
    if starts != [] {
      EndsLocal(b, s, t, starts[0]);
      ThenLocal(b, s, t, starts[1..], lo);
    }
  }

  lemma {:induction false} StarFromLocal(a: Re, s: string, t: string, i: nat, starts: seq<nat>)
    requires t != [] && Blind(a, t[0])
    requires forall k :: 0 <= k < |starts| ==> i < starts[k] <= |s|
    ensures StarFrom(a, s + t, i, starts) == StarFrom(a, s, i, starts)
    decreases Star(a), |s| - i, 1, |starts|
  {
    if starts != [] {
      EndsLocal(Star(a), s, t, starts[0]);
      StarFromLocal(a, s, t, i, starts[1..]);
    }
  }

  /** A class that accepts no character of `s` hits nowhere. */
  lemma {:induction false} HitsNone(has: char -> bool, s: string, starts: seq<nat>)
    requires forall k :: 0 <= k < |starts| ==> starts[k] <= |s|
    requires forall k :: 0 <= k < |s| ==> !has(s[k])
    ensures Hits(has, s, starts) == []
  {
    if starts != [] { HitsNone(has, s, starts[1..]); }
  }
}
