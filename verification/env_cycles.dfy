/** What the cycle walk of `resolve` (src/envctx.js) detects, stated
    over walks in the dependency graph: every waiter that can reach a
    cycle is rejected, but so is a waiter that reaches one variable along
    two routes. */
module EnvCycles {
  import opened EnvResolve

  /** `b` is a recorded dependency of `a`. */
  predicate Step(g: Graph, a: string, b: string) {
    a in g && b in g[a]
  }

  /** A walk through the graph, one dependency per step. */
  ghost predicate IsWalk(g: Graph, w: seq<string>) {
    |w| >= 1
    && (forall i :: 0 <= i < |w| ==> w[i] in g)
    && (forall i :: 0 <= i < |w| - 1 ==> Step(g, w[i], w[i + 1]))
  }

  /** The last name of the walk was already visited by it. */
  predicate Revisit(w: seq<string>) {
    |w| >= 2 && w[|w| - 1] in w[..|w| - 1]
  }

  /** Waiting on `x` can go on for ever: some walk from `x` comes back to
      a name it has visited. */
  ghost predicate ReachesCycle(g: Graph, x: string) {
    exists w :: IsWalk(g, w) && w[0] == x && Revisit(w)
  }

  /** A name that reaches a cycle has a dependency that reaches one. */
  lemma CycleStep(g: Graph, x: string) returns (y: string)
    requires ReachesCycle(g, x)
    ensures Step(g, x, y) && ReachesCycle(g, y)
  {
    var w :| IsWalk(g, w) && w[0] == x && Revisit(w);
    var last := |w| - 1;
    var j :| 0 <= j < last && w[j] == w[last];
    y := w[1];
    assert Step(g, w[0], w[1]);
    if j >= 1 {
      var v := w[1..];
      assert IsWalk(g, v) by {
        forall i | 0 <= i < |v| - 1 ensures Step(g, v[i], v[i + 1]) { assert Step(g, w[i + 1], w[i + 2]); }
      }
      assert v[|v| - 1] == v[j - 1];
      assert v[..|v| - 1][j - 1] == v[j - 1];
      assert Revisit(v);
    } else {
      var v := w[1..] + [w[1]];
      assert IsWalk(g, v) by {
        forall i | 0 <= i < |v| - 1 ensures Step(g, v[i], v[i + 1]) {
          if i < |v| - 2 { assert Step(g, w[i + 1], w[i + 2]); }
          else { assert v[i] == w[last] == w[0] && v[i + 1] == w[1]; }
        }
      }
      assert v[..|v| - 1][0] == y;
      assert Revisit(v);
    }
  }

  /** Prepending a name to a walk from one of its dependencies. */
  lemma CycleBack(g: Graph, x: string, y: string)
    requires Step(g, x, y) && ReachesCycle(g, y)
    ensures ReachesCycle(g, x)
  {
    var w :| IsWalk(g, w) && w[0] == y && Revisit(w);
    var v := [x] + w;
    assert IsWalk(g, v) by {
      forall i | 0 <= i < |v| - 1 ensures Step(g, v[i], v[i + 1]) {
        if i > 0 { assert v[i] == w[i - 1] && v[i + 1] == w[i]; }
      }
    }
    var j :| 0 <= j < |w| - 1 && w[j] == w[|w| - 1];
    assert v[..|v| - 1][j + 1] == w[j];
    assert Revisit(v);
  }

  lemma FlattenHas(g: Graph, level: seq<string>, k: nat, y: string)
    requires Closed(g) && Within(g, level) && k < |level| && y in g[level[k]]
    ensures y in Flatten(g, level)
  {
    if k > 0 {
      assert level[1..][k - 1] == level[k];
      FlattenHas(g, level[1..], k - 1, y);
    }
  }

  /** A level holding a name that reaches a cycle makes the walk report
      one: the walk never runs dry, and its seen set cannot grow for ever. */
  lemma {:induction false} DetectsCycle(g: Graph, level: seq<string>, seen: set<string>, k: nat)
    requires Closed(g) && Within(g, level) && seen <= g.Keys
    requires k < |level| && ReachesCycle(g, level[k])
    ensures Detects(g, level, seen)
    decreases g.Keys - seen
  {
    if !Revisits(level, seen) {
      var y := CycleStep(g, level[k]);
      FlattenHas(g, level, k, y);
      var next := Flatten(g, level);
      var j :| 0 <= j < |next| && next[j] == y;
      assert level[0] in Elems(level) - seen;
      DetectsCycle(g, next, seen + Elems(level), j);
    }
  }

  /** Soundness of the walk: a waiter that can wait for ever on a cycle of
      recorded dependencies is rejected. */
  lemma WalkRejectsCycles(g: Graph, n: string)
    requires Closed(g) && n in g && ReachesCycle(g, n)
    ensures Detects(g, g[n], {})
  {
    var y := CycleStep(g, n);
    var j :| 0 <= j < |g[n]| && g[n][j] == y;
    DetectsCycle(g, g[n], {}, j);
  }

  // ---------------------------------------------------------------------
  // Diamonds

  /** A graph where each dependency has a lower rank has no cycle. */
  lemma {:induction false} RankedWalk(g: Graph, rank: string -> int, w: seq<string>, i: nat, j: nat)
    requires IsWalk(g, w) && i < j < |w|
    requires forall a, b :: Step(g, a, b) ==> rank(b) < rank(a)
    ensures rank(w[j]) < rank(w[i])
    decreases j - i
  {
    assert Step(g, w[j - 1], w[j]);
    if i < j - 1 {
      RankedWalk(g, rank, w, i, j - 1);
    }
  }

  lemma Ranked(g: Graph, rank: string -> int, x: string)
    requires forall a, b :: Step(g, a, b) ==> rank(b) < rank(a)
    ensures !ReachesCycle(g, x)
  {
    if ReachesCycle(g, x) {
      var w :| IsWalk(g, w) && w[0] == x && Revisit(w);
      var j :| 0 <= j < |w| - 1 && w[..|w| - 1][j] == w[|w| - 1];
      RankedWalk(g, rank, w, j, |w| - 1);
      assert false;
    }
  }

  function DiamondGraph(): Graph {
    map["A" := ["B", "C"], "B" := ["D"], "C" := ["D"], "D" := []]
  }

  function DiamondRank(n: string): int {
    if n == "A" then 3 else if n == "B" || n == "C" then 2 else 1
  }

  /** `A` needs `B` and `C`, both of which need `D`: nothing waits on
      itself, yet the walk from `A` meets `D` twice on its second level
      and rejects `A` as circular. */
  lemma DiamondRejected()
    ensures Closed(DiamondGraph())
    ensures Detects(DiamondGraph(), DiamondGraph()["A"], {})
    ensures !ReachesCycle(DiamondGraph(), "A")
  {
    var g := DiamondGraph();
    assert forall a, b :: Step(g, a, b) ==> DiamondRank(b) < DiamondRank(a) by {
      forall a, b | Step(g, a, b) ensures DiamondRank(b) < DiamondRank(a) {
        assert a == "A" || a == "B" || a == "C" || a == "D";
      }
    }
    Ranked(g, DiamondRank, "A");
    var l1 := ["B", "C"];
    assert !Revisits(l1, {}) by {
      assert l1[..1] == ["B"];
      assert "C" != "B";
    }
    assert Flatten(g, l1) == ["D", "D"] by {
      assert l1[1..] == ["C"] && l1[1..][1..] == [];
    }
    assert ["D", "D"][..1] == ["D"];
    assert Revisits(["D", "D"], {"B", "C"} + Elems(l1));
  }

  // ---------------------------------------------------------------------
  // The check the walk evidently intends: reject exactly the waiters
  // that can reach a cycle.

  /** The names one step from some name of `level`. */
  function Succ(g: Graph, level: set<string>): set<string> {
    set a, b | a in level && a in g && b in g[a] :: b
  }

  /** The names at the end of some walk of exactly `k` steps from `level`. */
  function Frontier(g: Graph, level: set<string>, k: nat): set<string>
    decreases k
  {
    if k == 0 then level else Frontier(g, Succ(g, level), k - 1)
  }

  /** Corrected check: after as many steps as there are names, some walk
      is still going. */
  predicate Circular(g: Graph, n: string) {
    Frontier(g, {n}, |g.Keys|) != {}
  }

  lemma {:induction false} FrontierMono(g: Graph, a: set<string>, b: set<string>, k: nat)
    requires a <= b
    ensures Frontier(g, a, k) <= Frontier(g, b, k)
    decreases k
  {
    if k > 0 {
      FrontierMono(g, Succ(g, a), Succ(g, b), k - 1);
    }
  }

  lemma {:induction false} CycleKeepsGoing(g: Graph, x: string, k: nat)
    requires ReachesCycle(g, x)
    ensures Frontier(g, {x}, k) != {}
    decreases k
  {
    if k > 0 {
      var y := CycleStep(g, x);
      assert y in Succ(g, {x});
      CycleKeepsGoing(g, y, k - 1);
      FrontierMono(g, {y}, Succ(g, {x}), k - 1);
    }
  }

  /** Every name of the frontier ends a walk of `k` steps from the level. */
  lemma {:induction false} FrontierWalk(g: Graph, level: set<string>, k: nat, y: string) returns (w: seq<string>)
    requires Closed(g) && y in Frontier(g, level, k) && level <= g.Keys
    ensures IsWalk(g, w) && |w| == k + 1 && w[0] in level && w[k] == y
    decreases k
  {
    if k == 0 {
      w := [y];
    } else {
      var next := Succ(g, level);
      assert next <= g.Keys by {
        forall b | b in next ensures b in g {
          var a :| a in level && a in g && b in g[a];
          var j :| 0 <= j < |g[a]| && g[a][j] == b;
        }
      }
      var v := FrontierWalk(g, next, k - 1, y);
      var a :| a in level && a in g && v[0] in g[a];
      w := [a] + v;
      assert IsWalk(g, w) by {
        forall i | 0 <= i < |w| - 1 ensures Step(g, w[i], w[i + 1]) {
          if i > 0 { assert w[i] == v[i - 1] && w[i + 1] == v[i]; }
        }
      }
    }
  }

  /** A sequence longer than the set that holds its elements repeats one. */
  lemma {:induction false} Pigeonhole(w: seq<string>, keys: set<string>) returns (i: nat, j: nat)
    requires forall k :: 0 <= k < |w| ==> w[k] in keys
    requires |w| > |keys|
    ensures i < j < |w| && w[i] == w[j]
    decreases |w|
  {
    if w[0] in w[1..] {
      var k :| 0 <= k < |w[1..]| && w[1..][k] == w[0];
      return 0, k + 1;
    }
    forall k | 0 <= k < |w[1..]| ensures w[1..][k] in keys - {w[0]} { assert w[1..][k] == w[k + 1]; }
    var a, b := Pigeonhole(w[1..], keys - {w[0]});
    return a + 1, b + 1;
  }

  lemma RepeatIsCycle(g: Graph, w: seq<string>, i: nat, j: nat)
    requires IsWalk(g, w) && i < j < |w| && w[i] == w[j]
    ensures ReachesCycle(g, w[0])
  {
    var v := w[..j + 1];
    assert IsWalk(g, v) by {
      forall i' | 0 <= i' < |v| - 1 ensures Step(g, v[i'], v[i' + 1]) { assert Step(g, w[i'], w[i' + 1]); }
    }
    assert v[..|v| - 1][i] == w[i];
    assert Revisit(v);
  }

  /** The corrected check rejects a waiter exactly when waiting on it can
      go on for ever. */
  lemma CircularIsCycle(g: Graph, n: string)
    requires Closed(g) && n in g
    ensures Circular(g, n) <==> ReachesCycle(g, n)
  {
    if ReachesCycle(g, n) {
      CycleKeepsGoing(g, n, |g.Keys|);
    }
    if Circular(g, n) {
      var y :| y in Frontier(g, {n}, |g.Keys|);
      var w := FrontierWalk(g, {n}, |g.Keys|, y);
      var i, j := Pigeonhole(w, g.Keys);
      RepeatIsCycle(g, w, i, j);
    }
  }

  /** The diamond is accepted by the corrected check. */
  lemma DiamondAccepted()
    ensures !Circular(DiamondGraph(), "A")
  {
    DiamondRejected();
    CircularIsCycle(DiamondGraph(), "A");
  }

  /** The names the corrected check rejects. */
  function RejectionsFixed(c: Context): (rej: set<string>)
    ensures rej <= c.t.defs.Keys
  {
    var g := DepGraph(c);
    set n | n in c.t.defs && Circular(g, n)
  }
}
