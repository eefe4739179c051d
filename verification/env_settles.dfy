/** When `resolve` (src/envctx.js) is sure to settle: in a table of plain
    values every dependency is recorded before the cycle walk runs, so a
    walk that rejects every waiter able to reach a cycle leaves no promise
    waiting for ever. A producer's returned text is parsed only after the
    walk, and can close a cycle the walk never saw. */
module EnvSettles {
  import opened Outcomes
  import opened EnvTemplates
  import opened EnvDefs
  import opened EnvResolve
  import opened EnvCycles

  /** Every value of the table is a string, number or boolean. */
  predicate PlainValues(t: Table) {
    forall n :: n in t.defs && t.defs[n].value.Some? ==> t.defs[n].value.value.Literal?
  }

  /** Some walk of at least one step leads from `a` to `b`. */
  ghost predicate Reaches(g: Graph, a: string, b: string) {
    exists w :: IsWalk(g, w) && |w| >= 2 && w[0] == a && w[|w| - 1] == b
  }

  /** The rejection set names every variable that can wait for ever. */
  ghost predicate CoversCycles(c: Context, rej: set<string>) {
    forall n :: n in c.t.defs && ReachesCycle(DepGraph(c), n) ==> n in rej
  }

  lemma {:induction false} PieceOutcomesAt(c: Context, rej: set<string>, self: string, segs: seq<Segment>, path: set<string>, k: nat)
    requires c.Valid() && k < |segs|
    ensures PieceOutcomes(c, rej, self, segs, path)[k] == PieceOutcome(c, rej, self, segs[k], path)
    decreases k
  {
    if k > 0 {
      assert segs[1..][k - 1] == segs[k];
      PieceOutcomesAt(c, rej, self, segs[1..], path, k - 1);
    }
  }

  /** A pass that throws nothing records every local variable it meets. */
  lemma {:induction false} ScanRefsRecords(c: Context, self: string, segs: seq<Segment>, acc: seq<string>, k: nat)
    requires forall j :: 0 <= j < |acc| ==> acc[j] in c.t.defs && acc[j] != self
    requires forall i, j :: 0 <= i < j < |acc| ==> acc[i] != acc[j]
    requires ScanRefs(c, self, segs, acc).1.None?
    requires k < |segs| && segs[k].Var? && segs[k].name in c.t.defs && segs[k].name != self
    ensures segs[k].name in ScanRefs(c, self, segs, acc).0
    decreases |segs|
  {
    var r := ScanRefs(c, self, segs, acc).0;
    if k == 0 {
      var n := segs[0].name;
      var acc1 := if n in acc then acc else acc + [n];
      assert n in acc1;
      var j :| 0 <= j < |acc1| && acc1[j] == n;
      assert r[..|acc1|] == acc1;
      assert r[j] == n;
    } else {
      assert segs[1..][k - 1] == segs[k];
      match segs[0]
      case Text(_) => ScanRefsRecords(c, self, segs[1..], acc, k - 1);
      case Var(n) =>
        if n in c.t.defs && n != self {
          ScanRefsRecords(c, self, segs[1..], if n in acc then acc else acc + [n], k - 1);
        } else {
          ScanRefsRecords(c, self, segs[1..], acc, k - 1);
        }
      case Command(_, _) => ScanRefsRecords(c, self, segs[1..], acc, k - 1);
    }
  }

  lemma ReachesOneMore(g: Graph, p: string, x: string, m: string)
    requires Closed(g) && Reaches(g, p, x) && Step(g, x, m)
    ensures Reaches(g, p, m)
  {
    var w :| IsWalk(g, w) && |w| >= 2 && w[0] == p && w[|w| - 1] == x;
    var v := w + [m];
    assert IsWalk(g, v) by {
      forall i | 0 <= i < |v| - 1 ensures Step(g, v[i], v[i + 1]) {
        if i < |w| - 1 { assert v[i] == w[i] && v[i + 1] == w[i + 1]; }
      }
      assert m in g by { var j :| 0 <= j < |g[x]| && g[x][j] == m; }
    }
  }

  /** A promise of a plain value that never settles, evaluated while its
      ancestors wait on it, can reach a cycle of recorded dependencies. */
  lemma {:induction false} StuckReachesCycle(c: Context, rej: set<string>, x: string, path: set<string>)
    requires c.Valid() && PlainValues(c.t)
    requires x in c.t.defs && c.t.defs[x].value.Some?
    requires forall p :: p in path ==> Reaches(DepGraph(c), p, x)
    requires Eval(c, rej, x, path).Stuck?
    ensures ReachesCycle(DepGraph(c), x)
    decreases Measure(c, path)
  {
    var g := DepGraph(c);
    if x in path {
      LoopIsCycle(g, x);
    } else {
      var inner := path + {x};
      MeasureDrops(c, path, x);
      var m := StuckOn(c, rej, x, path);
      AncestorsExtend(g, path, x, m);
      StuckReachesCycle(c, rej, m, inner);
      CycleBack(g, x, m);
    }
  }

  lemma LoopIsCycle(g: Graph, x: string)
    requires Reaches(g, x, x)
    ensures ReachesCycle(g, x)
  {
    var w :| IsWalk(g, w) && |w| >= 2 && w[0] == x && w[|w| - 1] == x;
    assert w[..|w| - 1][0] == x;
    assert Revisit(w);
  }

  /** Every name waiting on `x`, and `x` itself, reaches a dependency `m`
      of `x`. */
  lemma AncestorsExtend(g: Graph, path: set<string>, x: string, m: string)
    requires Closed(g) && Step(g, x, m)
    requires forall p :: p in path ==> Reaches(g, p, x)
    ensures forall p :: p in path + {x} ==> Reaches(g, p, m)
  {
    forall p | p in path + {x} ensures Reaches(g, p, m) {
      if p == x {
        var w := [x, m];
        assert m in g by { var j :| 0 <= j < |g[x]| && g[x][j] == m; }
        assert IsWalk(g, w);
      } else {
        ReachesOneMore(g, p, x, m);
      }
    }
  }

  /** A plain value that never settles waits on a recorded dependency
      that never settles. */
  lemma StuckOn(c: Context, rej: set<string>, x: string, path: set<string>) returns (m: string)
    requires c.Valid() && PlainValues(c.t)
    requires x in c.t.defs && c.t.defs[x].value.Some? && x !in path
    requires Eval(c, rej, x, path).Stuck?
    ensures Step(DepGraph(c), x, m) && m in c.t.defs && c.t.defs[m].value.Some?
    ensures Eval(c, rej, m, path + {x}).Stuck?
  {
    var text := c.t.defs[x].value.value.text;
    var inner := path + {x};
    var segs := Segments(text);
    assert Eval(c, rej, x, path) == Pass(c, rej, x, text, inner);
    assert ScanRefs(c, x, segs, []).1.None?;
    var outs := PieceOutcomes(c, rej, x, segs, inner);
    assert Combine(outs).Stuck?;
    var k :| 0 <= k < |outs| && outs[k].Stuck?;
    PieceOutcomesAt(c, rej, x, segs, inner, k);
    StuckPiece(c, rej, x, segs[k], inner);
    m := segs[k].name;
    ScanRefsRecords(c, x, segs, [], k);
    assert DepGraph(c)[x] == RecordedDeps(c, x);
    assert Waited(c, m);
  }

  /** A piece that never settles is a reference to another variable of
      the table; when that variable's waiter was made before the walk, it
      has a value whose promise never settles. */
  lemma StuckPiece(c: Context, rej: set<string>, self: string, seg: Segment, path: set<string>)
    requires c.Valid() && PieceOutcome(c, rej, self, seg, path).Stuck?
    ensures seg.Var? && seg.name in c.t.defs && seg.name != self
    ensures Waited(c, seg.name) ==> c.t.defs[seg.name].value.Some? && Eval(c, rej, seg.name, path).Stuck?
  {
  }

  /** With plain values and a rejection set that covers every cycle, no
      promise waits for ever. */
  lemma NeverStuck(c: Context, rej: set<string>, n: string)
    requires c.Valid() && PlainValues(c.t) && CoversCycles(c, rej)
    requires n in c.t.defs && c.t.defs[n].value.Some?
    ensures !Eval(c, rej, n, {}).Stuck?
  {
    if Eval(c, rej, n, {}).Stuck? {
      StuckReachesCycle(c, rej, n, {});
    }
  }

  /** The source's walk covers every cycle. */
  lemma WalkCovers(c: Context)
    requires c.Valid()
    ensures CoversCycles(c, Rejections(c))
  {
    forall n | n in c.t.defs && ReachesCycle(DepGraph(c), n) ensures n in Rejections(c) {
      WalkRejectsCycles(DepGraph(c), n);
    }
  }

  /** So does the corrected check. */
  lemma FixedCovers(c: Context)
    requires c.Valid()
    ensures CoversCycles(c, RejectionsFixed(c))
  {
    forall n | n in c.t.defs && ReachesCycle(DepGraph(c), n) ensures n in RejectionsFixed(c) {
      CircularIsCycle(DepGraph(c), n);
    }
  }

  /** The corrected check rejects nothing that can settle: a waiter it
      rejects can reach a cycle. */
  lemma FixedOnlyCycles(c: Context, n: string)
    requires c.Valid() && n in RejectionsFixed(c)
    ensures ReachesCycle(DepGraph(c), n)
  {
    CircularIsCycle(DepGraph(c), n);
  }

  lemma {:induction false} CollectHangs(names: seq<string>, outs: seq<Outcome>, doneNames: seq<string>, env: map<string, string>)
    requires |names| == |outs| && Collect(names, outs, doneNames, env).Hangs?
    ensures exists k :: 0 <= k < |outs| && outs[k].Stuck?
  {
    if outs[0].Done? {
      CollectHangs(names[1..], outs[1..], doneNames + [names[0]], env[names[0] := outs[0].text]);
      var k :| 0 <= k < |outs[1..]| && outs[1..][k].Stuck?;
      assert outs[k + 1].Stuck?;
    }
  }

  /** With plain values, `resolve()` settles whenever its rejection set
      covers every cycle. */
  lemma SettlesWith(c: Context, rej: set<string>)
    requires c.Valid() && PlainValues(c.t) && CoversCycles(c, rej)
    ensures !ResolveWith(c, rej).Hangs?
  {
    if FirstMissing(c.t, c.t.names).None? {
      var w := Waitlist(c.t, c.t.names);
      var outs := Settle(c, rej, w);
      if Collect(w, outs, [], map[]).Hangs? {
        CollectHangs(w, outs, [], map[]);
        var k :| 0 <= k < |outs| && outs[k].Stuck?;
        NeverStuck(c, rej, w[k]);
      }
    }
  }

  /** `resolve()` on a table of plain values always settles. */
  lemma PlainValuesSettle(c: Context)
    requires c.Valid() && PlainValues(c.t)
    ensures !ResolveTable(c).Hangs?
  {
    WalkCovers(c);
    SettlesWith(c, Rejections(c));
  }

  /** `resolve()` with the corrected check: it settles on plain values
      too, and rejects only variables that can reach a cycle. */
  function ResolveFixed(c: Context): (r: Resolution)
    requires c.Valid()
    ensures PlainValues(c.t) ==> !r.Hangs?
  {
    FixedCovers(c);
    if PlainValues(c.t) then SettlesWith(c, RejectionsFixed(c)); ResolveWith(c, RejectionsFixed(c))
    else ResolveWith(c, RejectionsFixed(c))
  }
}
