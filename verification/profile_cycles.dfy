/** Cycles of profile extension (src/config.js, `_profile`): a chain of
    extensions that comes back to a profile already on it fails with the
    circular-reference error, however long it is. */
module ProfileCycles {
  import opened Outcomes
  import Persist
  import opened ProfileConfig

  /** A chain of extensions: every profile on it is defined and extends
      the next one. */
  ghost predicate ExtendPath(profiles: map<string, RawProfile>, path: seq<string>) {
    (forall i :: 0 <= i < |path| ==> path[i] in profiles)
    && forall i :: 0 <= i < |path| - 1 ==> path[i + 1] in NameSeq(profiles[path[i]].extend)
  }

  /** The chain closes a cycle: its last profile appeared before. */
  ghost predicate Closes(path: seq<string>) {
    |path| > 0 && path[|path| - 1] in path[..|path| - 1]
  }

  lemma {:induction false} ResolveAllFails(profiles: map<string, RawProfile>, read: string -> Result<Persist.Env>, names: seq<string>, resolving: set<string>, x: string)
    requires x in names && Resolution(profiles, read, x, resolving).Err?
    ensures ResolveAll(profiles, read, names, resolving).Err?
    decreases |names|
  {
    if names[0] != x {
      assert x in names[1..];
      ResolveAllFails(profiles, read, names[1..], resolving, x);
    }
  }

  /** A profile fails when one of its parents fails with it in progress. */
  lemma ExtentFails(profiles: map<string, RawProfile>, read: string -> Result<Persist.Env>, name: string, resolving: set<string>, x: string)
    ensures name in profiles && name !in resolving && x in NameSeq(profiles[name].extend)
            && Resolution(profiles, read, x, resolving + {name}).Err?
            ==> Resolution(profiles, read, name, resolving).Err?
  {
    if name in profiles && name !in resolving && x in NameSeq(profiles[name].extend)
       && Resolution(profiles, read, x, resolving + {name}).Err? {
      Shrinks(profiles.Keys, resolving, name);
      ResolveAllFails(profiles, read, NameSeq(profiles[name].extend), resolving + {name}, x);
    }
  }

  /** Before the end of a closing chain, only a name already marked
      stops the walk: the last one always is. */
  lemma LastMarked(path: seq<string>, i: nat, resolving: set<string>)
    requires Closes(path) && i < |path| && path[i] !in resolving
    requires forall j :: 0 <= j < i ==> path[j] in resolving
    ensures i < |path| - 1
  {
    var j :| 0 <= j < |path| - 1 && path[..|path| - 1][j] == path[|path| - 1];
    assert path[j] in resolving || j >= i;
  }

  lemma {:induction false} PathFails(profiles: map<string, RawProfile>, read: string -> Result<Persist.Env>, path: seq<string>, i: nat, resolving: set<string>)
    requires ExtendPath(profiles, path) && Closes(path) && i < |path|
    requires forall j :: 0 <= j < i ==> path[j] in resolving
    ensures Resolution(profiles, read, path[i], resolving).Err?
    decreases |path| - i
  {
    if path[i] !in resolving {
      LastMarked(path, i, resolving);
      PathFails(profiles, read, path, i + 1, resolving + {path[i]});
      ExtentFails(profiles, read, path[i], resolving, path[i + 1]);
    }
  }

  /** A profile that reaches a cycle by extending, however long, fails. */
  lemma CircularExtension(profiles: map<string, RawProfile>, read: string -> Result<Persist.Env>, path: seq<string>)
    requires ExtendPath(profiles, path) && Closes(path)
    ensures Resolution(profiles, read, path[0], {}).Err?
  {
    PathFails(profiles, read, path, 0, {});
  }

  /** The profiles on the chain before position `i`. */
  function Marked(path: seq<string>, i: nat): set<string>
    requires i <= |path|
  {
    set x | x in path[..i]
  }

  lemma MarkedStep(path: seq<string>, i: nat)
    requires i < |path|
    ensures Marked(path, i + 1) == Marked(path, i) + {path[i]}
  {
    assert path[..i + 1] == path[..i] + [path[i]];
  }

  /** On the way along the chain, `next` is reached after the earlier
      siblings resolved. */
  ghost predicate ReachedAfter(profiles: map<string, RawProfile>, read: string -> Result<Persist.Env>, names: seq<string>, next: string, resolving: set<string>) {
    exists m :: 0 <= m < |names| && names[m] == next && ResolveAll(profiles, read, names[..m], resolving).Ok?
  }

  lemma {:induction false} ResolveAllAt(profiles: map<string, RawProfile>, read: string -> Result<Persist.Env>, names: seq<string>, m: nat, resolving: set<string>)
    requires m < |names| && ResolveAll(profiles, read, names[..m], resolving).Ok?
    requires Resolution(profiles, read, names[m], resolving).Err?
    ensures ResolveAll(profiles, read, names, resolving) == Err(Resolution(profiles, read, names[m], resolving).msg)
    decreases m
  {
    if m > 0 {
      assert names[..m][0] == names[0] && names[..m][1..] == names[1..][..m - 1];
      ResolveAllAt(profiles, read, names[1..], m - 1, resolving);
    }
  }

  /** A profile fails with the message of a parent that fails after the
      earlier parents resolved. */
  lemma ExtentReported(profiles: map<string, RawProfile>, read: string -> Result<Persist.Env>, name: string, resolving: set<string>, x: string)
    requires name in profiles && name !in resolving
    requires ReachedAfter(profiles, read, NameSeq(profiles[name].extend), x, resolving + {name})
    ensures Resolution(profiles, read, x, resolving + {name}).Err? ==>
            Resolution(profiles, read, name, resolving) == Err(Resolution(profiles, read, x, resolving + {name}).msg)
  {
    if Resolution(profiles, read, x, resolving + {name}).Err? {
      Shrinks(profiles.Keys, resolving, name);
      var names := NameSeq(profiles[name].extend);
      var m :| 0 <= m < |names| && names[m] == x && ResolveAll(profiles, read, names[..m], resolving + {name}).Ok?;
      ResolveAllAt(profiles, read, names, m, resolving + {name});
    }
  }

  lemma NotMarked(path: seq<string>, i: nat)
    requires i < |path| - 1
    requires forall a, b :: 0 <= a < b < |path| - 1 ==> path[a] != path[b]
    ensures path[i] !in Marked(path, i)
  {
    forall a | 0 <= a < i ensures path[..i][a] != path[i] {
      assert path[..i][a] == path[a];
    }
  }

  lemma {:induction false} PathReported(profiles: map<string, RawProfile>, read: string -> Result<Persist.Env>, path: seq<string>, i: nat)
    requires ExtendPath(profiles, path) && Closes(path) && i < |path|
    requires forall a, b :: 0 <= a < b < |path| - 1 ==> path[a] != path[b]
    requires forall j :: 0 <= j < |path| - 1 ==>
               ReachedAfter(profiles, read, NameSeq(profiles[path[j]].extend), path[j + 1], Marked(path, j + 1))
    ensures Resolution(profiles, read, path[i], Marked(path, i)) == Circular(path[|path| - 1])
    decreases |path| - i
  {
    if i < |path| - 1 {
      NotMarked(path, i);
      MarkedStep(path, i);
      ExtentReported(profiles, read, path[i], Marked(path, i), path[i + 1]);
      PathReported(profiles, read, path, i + 1);
    } else {
      assert path[..i] == path[..|path| - 1];
    }
  }

  /** The error names the profile met a second time, provided every
      profile on the way resolved its earlier parents. */
  lemma CircularReported(profiles: map<string, RawProfile>, read: string -> Result<Persist.Env>, path: seq<string>)
    requires ExtendPath(profiles, path) && Closes(path)
    requires forall a, b :: 0 <= a < b < |path| - 1 ==> path[a] != path[b]
    requires forall j :: 0 <= j < |path| - 1 ==>
               ReachedAfter(profiles, read, NameSeq(profiles[path[j]].extend), path[j + 1], Marked(path, j + 1))
    ensures Resolution(profiles, read, path[0], {}) == Circular(path[|path| - 1])
  {
    assert Marked(path, 0) == {};
    PathReported(profiles, read, path, 0);
  }
}
