/** Profile resolution (src/config.js): a profile extends other profiles
    and imports env files, and the resolver remembers every profile it has
    resolved. */
module ProfileConfig {
  import opened Outcomes
  import Persist

  /** A field of a profile, as far as the merge can tell values apart: a
      missing field, a falsy one (`null`, `false`, `0`, `''`), an env file
      read by an import, a list, or any other truthy value, named by a
      tag. */
  datatype Value = Undefined | Falsy | Other(tag: string) | Loaded(env: Persist.Env) | List(items: seq<Value>)

  predicate Truthy(v: Value) { !v.Undefined? && !v.Falsy? }

  /** The fields a resolved profile can hold. */
  datatype Profile = Profile(env: Value, expose: Value, cwd: Value)

  const Blank := Profile(Undefined, Undefined, Undefined)

  /** The `profile` (extends) and `imports` fields of a raw profile. */
  datatype Names = One(name: string) | Many(names: seq<string>) | NotAList

  /** A raw profile: what it extends, what it imports, and its own fields;
      any other field is dropped by the merge. */
  datatype RawProfile = RawProfile(extend: Names, imports: Names, own: Profile)

  /** A string is a one-element list; anything but a list is empty. */
  function NameSeq(n: Names): seq<string> {
    match n
    case One(s) => [s]
    case Many(names) => names
    case NotAList => []
  }

  // ---------------------------------------------------------------------
  // extendProfileConfig

  /** What an accumulated field lists: a list, one truthy value, or
      nothing. */
  function Listed(v: Value): seq<Value> {
    if v.List? then v.items else if Truthy(v) then [v] else []
  }

  /** `copy.env.push(x)` on a copy whose `env` is made a list first. */
  function Push(base: Value, x: Value): (r: Value)
    ensures r.List? && Listed(r) == Listed(base) + [x]
  {
    if base.List? then List(base.items + [x])
    else if Truthy(base) then List([base, x])
    else List([x])
  }

  /** `extendProfileConfig`: the extent's `env` and `expose` are appended
      to the base's lists, its `cwd` replaces the base's, each only when
      truthy; an extent with none of them gives back the base itself. */
  function ExtendProfileConfig(base: Profile, extent: Profile): (r: Profile)
    ensures Listed(r.env) == Listed(base.env) + (if Truthy(extent.env) then [extent.env] else [])
    ensures Listed(r.expose) == Listed(base.expose) + (if Truthy(extent.expose) then [extent.expose] else [])
    ensures r.cwd == if Truthy(extent.cwd) then extent.cwd else base.cwd
    ensures !Truthy(extent.env) && !Truthy(extent.expose) && !Truthy(extent.cwd) ==> r == base
  {
    Profile(
      if Truthy(extent.env) then Push(base.env, extent.env) else base.env,
      if Truthy(extent.expose) then Push(base.expose, extent.expose) else base.expose,
      if Truthy(extent.cwd) then extent.cwd else base.cwd)
  }

  /** The extents merged into `base` one after another. */
  function ExtendAll(base: Profile, extents: seq<Profile>): Profile
    decreases |extents|
  {
    if extents == [] then base else ExtendAll(ExtendProfileConfig(base, extents[0]), extents[1..])
  }

  /** An imported env file merges as `{ env }`. */
  function AsExtent(e: Persist.Env): Profile {
    Profile(Loaded(e), Undefined, Undefined)
  }

  function AsExtents(envs: seq<Persist.Env>): (r: seq<Profile>)
    ensures |r| == |envs| && forall i :: 0 <= i < |envs| ==> r[i] == AsExtent(envs[i])
  {
    seq(|envs|, i requires 0 <= i < |envs| => AsExtent(envs[i]))
  }

  /** `resolveProfileConfigAsync` once its extents and imports are in:
      the extended profiles in order, then the imported files, then the
      profile's own fields. */
  function Assemble(extents: seq<Profile>, envs: seq<Persist.Env>, own: Profile): Profile {
    ExtendProfileConfig(ExtendAll(ExtendAll(Blank, extents), AsExtents(envs)), own)
  }

  /** The truthy `env` fields of a sequence of extents, in order. */
  function Envs(extents: seq<Profile>): seq<Value>
    decreases |extents|
  {
    if extents == [] then []
    else (if Truthy(extents[0].env) then [extents[0].env] else []) + Envs(extents[1..])
  }

  /** The truthy `expose` fields, in order. */
  function Exposes(extents: seq<Profile>): seq<Value>
    decreases |extents|
  {
    if extents == [] then []
    else (if Truthy(extents[0].expose) then [extents[0].expose] else []) + Exposes(extents[1..])
  }

  /** The last truthy `cwd`, or `fallback` when there is none. */
  function LastCwd(fallback: Value, extents: seq<Profile>): Value
    decreases |extents|
  {
    if extents == [] then fallback
    else LastCwd(if Truthy(extents[0].cwd) then extents[0].cwd else fallback, extents[1..])
  }

  /** Merging a sequence of extents appends their `env` fields in order. */
  lemma {:induction false} ExtendAllEnvs(base: Profile, extents: seq<Profile>)
    ensures Listed(ExtendAll(base, extents).env) == Listed(base.env) + Envs(extents)
    decreases |extents|
  {
    if extents != [] {
      var x := extents[0];
      var next := ExtendProfileConfig(base, x);
      ExtendAllEnvs(next, extents[1..]);
      var head := if Truthy(x.env) then [x.env] else [];
      assert ExtendAll(base, extents) == ExtendAll(next, extents[1..]);
      assert Listed(next.env) == Listed(base.env) + head;
      assert Envs(extents) == head + Envs(extents[1..]);
      assert Listed(base.env) + head + Envs(extents[1..]) == Listed(base.env) + (head + Envs(extents[1..]));
    }
  }

  /** ... their `expose` fields in order. */
  lemma {:induction false} ExtendAllExposes(base: Profile, extents: seq<Profile>)
    ensures Listed(ExtendAll(base, extents).expose) == Listed(base.expose) + Exposes(extents)
    decreases |extents|
  {
    if extents != [] {
      var x := extents[0];
      var next := ExtendProfileConfig(base, x);
      ExtendAllExposes(next, extents[1..]);
      var head := if Truthy(x.expose) then [x.expose] else [];
      assert ExtendAll(base, extents) == ExtendAll(next, extents[1..]);
      assert Listed(next.expose) == Listed(base.expose) + head;
      assert Exposes(extents) == head + Exposes(extents[1..]);
      assert Listed(base.expose) + head + Exposes(extents[1..]) == Listed(base.expose) + (head + Exposes(extents[1..]));
    }
  }

  /** ... and keep the last `cwd` given. */
  lemma {:induction false} ExtendAllCwd(base: Profile, extents: seq<Profile>)
    ensures ExtendAll(base, extents).cwd == LastCwd(base.cwd, extents)
    decreases |extents|
  {
    if extents != [] {
      ExtendAllCwd(ExtendProfileConfig(base, extents[0]), extents[1..]);
    }
  }

  /** The imported files, as they appear in an `env` list. */
  function Loads(envs: seq<Persist.Env>): (r: seq<Value>)
    ensures |r| == |envs| && forall i :: 0 <= i < |envs| ==> r[i] == Loaded(envs[i])
  {
    seq(|envs|, i requires 0 <= i < |envs| => Loaded(envs[i]))
  }

  lemma {:induction false} ImportsListed(envs: seq<Persist.Env>)
    ensures Envs(AsExtents(envs)) == Loads(envs)
    ensures Exposes(AsExtents(envs)) == []
    ensures forall fallback :: LastCwd(fallback, AsExtents(envs)) == fallback
    decreases |envs|
  {
    var xs := AsExtents(envs);
    if envs != [] {
      ImportsListed(envs[1..]);
      assert xs[1..] == AsExtents(envs[1..]);
      assert Loads(envs) == [Loaded(envs[0])] + Loads(envs[1..]);
    }
  }

  /** The merge order of a resolved profile's `env` list: the extended
      profiles' envs, then the imported files, then its own env. */
  lemma MergeOrderEnv(extents: seq<Profile>, envs: seq<Persist.Env>, own: Profile)
    ensures Listed(Assemble(extents, envs, own).env) == Envs(extents) + Loads(envs) + (if Truthy(own.env) then [own.env] else [])
  {
    var b := ExtendAll(Blank, extents);
    ImportsListed(envs);
    ExtendAllEnvs(Blank, extents);
    ExtendAllEnvs(b, AsExtents(envs));
  }

  /** Its `expose` list: the extended profiles', then its own. */
  lemma MergeOrderExpose(extents: seq<Profile>, envs: seq<Persist.Env>, own: Profile)
    ensures Listed(Assemble(extents, envs, own).expose) == Exposes(extents) + (if Truthy(own.expose) then [own.expose] else [])
  {
    var b := ExtendAll(Blank, extents);
    ImportsListed(envs);
    ExtendAllExposes(Blank, extents);
    ExtendAllExposes(b, AsExtents(envs));
    assert Listed(Blank.expose) + Exposes(extents) + [] == Exposes(extents);
  }

  /** Its `cwd`: its own if it has one, else the last extended profile's. */
  lemma MergeOrderCwd(extents: seq<Profile>, envs: seq<Persist.Env>, own: Profile)
    ensures Assemble(extents, envs, own).cwd == if Truthy(own.cwd) then own.cwd else LastCwd(Undefined, extents)
  {
    var b := ExtendAll(Blank, extents);
    ImportsListed(envs);
    ExtendAllCwd(Blank, extents);
    ExtendAllCwd(b, AsExtents(envs));
  }

  // ---------------------------------------------------------------------
  // The resolution, without memoisation

  function Unknown(name: string): Result<Profile> { Err("Unknown profile: " + name) }

  function Circular(name: string): Result<Profile> { Err("Circular reference for profile: " + name) }

  lemma Shrinks(keys: set<string>, s: set<string>, name: string)
    requires name in keys && name !in s
    ensures |keys - (s + {name})| < |keys - s|
  {
    assert keys - (s + {name}) == (keys - s) - {name};
  }

  /** What requesting `name` gives while the profiles in `resolving` are
      being resolved: an unknown profile and one already in progress are
      errors; otherwise the raw profile is resolved with `name` in
      progress. */
  function Resolution(profiles: map<string, RawProfile>, read: string -> Result<Persist.Env>, name: string, resolving: set<string>): Result<Profile>
    decreases |profiles.Keys - resolving|, 0, 0
  {
    if name !in profiles then Unknown(name)
    else if name in resolving then Circular(name)
    else
      Shrinks(profiles.Keys, resolving, name);
      Compose(profiles, read, profiles[name], resolving + {name})
  }

  /** `resolveProfileConfigAsync`: the extended profiles, then the imports
      are resolved in order, the first error is the result, and otherwise
      everything is merged in that order with the profile's own fields
      last. */
  function Compose(profiles: map<string, RawProfile>, read: string -> Result<Persist.Env>, raw: RawProfile, resolving: set<string>): Result<Profile>
    decreases |profiles.Keys - resolving|, 2, 0
  {
    var extents :- ResolveAll(profiles, read, NameSeq(raw.extend), resolving);
    var envs :- ReadAll(read, NameSeq(raw.imports));
    Ok(Assemble(extents, envs, raw.own))
  }

  /** The profiles `names`, each resolved in turn. */
  function ResolveAll(profiles: map<string, RawProfile>, read: string -> Result<Persist.Env>, names: seq<string>, resolving: set<string>): Result<seq<Profile>>
    decreases |profiles.Keys - resolving|, 1, |names|
  {
    if names == [] then Ok([])
    else
      var first :- Resolution(profiles, read, names[0], resolving);
      var rest :- ResolveAll(profiles, read, names[1..], resolving);
      Ok([first] + rest)
  }

  /** The env files `names`, each read in turn. */
  function ReadAll(read: string -> Result<Persist.Env>, names: seq<string>): Result<seq<Persist.Env>>
    decreases |names|
  {
    if names == [] then Ok([])
    else
      var first :- read(names[0]);
      var rest :- ReadAll(read, names[1..]);
      Ok([first] + rest)
  }

  /** A set of profiles that holds everything each of them extends. */
  ghost predicate Closed(profiles: map<string, RawProfile>, m: set<string>) {
    m <= profiles.Keys && forall n, e :: n in m && e in NameSeq(profiles[n].extend) ==> e in m
  }

  /** The resolution of a profile depends on the profiles in progress
      only through those it can reach by extending. */
  lemma {:induction false} ResolutionLocal(profiles: map<string, RawProfile>, read: string -> Result<Persist.Env>, m: set<string>, name: string, s: set<string>, t: set<string>)
    requires Closed(profiles, m) && name in m && s * m == t * m
    ensures Resolution(profiles, read, name, s) == Resolution(profiles, read, name, t)
    decreases |profiles.Keys - s| + |profiles.Keys - t|, 0
  {
    assert (name in s) == (name in s * m) && (name in t) == (name in t * m);
    if name !in s {
      Shrinks(profiles.Keys, s, name);
      Shrinks(profiles.Keys, t, name);
      var names := NameSeq(profiles[name].extend);
      forall x ensures x in (s + {name}) * m <==> x in (t + {name}) * m {
        assert x in s * m <==> x in t * m;
      }
      ResolveAllLocal(profiles, read, m, names, s + {name}, t + {name});
    }
  }

  lemma {:induction false} ResolveAllLocal(profiles: map<string, RawProfile>, read: string -> Result<Persist.Env>, m: set<string>, names: seq<string>, s: set<string>, t: set<string>)
    requires Closed(profiles, m) && (forall e :: e in names ==> e in m) && s * m == t * m
    ensures ResolveAll(profiles, read, names, s) == ResolveAll(profiles, read, names, t)
    decreases |profiles.Keys - s| + |profiles.Keys - t|, |names| + 1
  {
    if names != [] {
      ResolutionLocal(profiles, read, m, names[0], s, t);
      ResolveAllLocal(profiles, read, m, names[1..], s, t);
    }
  }

  /** A profile that extends itself is circular. */
  lemma SelfExtension(profiles: map<string, RawProfile>, read: string -> Result<Persist.Env>, a: string)
    requires a in profiles && profiles[a].extend == One(a)
    ensures Resolution(profiles, read, a, {}) == Circular(a)
  {
    Shrinks(profiles.Keys, {}, a);
    assert {} + {a} == {a};
    assert Resolution(profiles, read, a, {a}) == Circular(a);
    assert ResolveAll(profiles, read, [a], {a}) == Err(Circular(a).msg);
  }

  /** Two profiles that extend each other: the one requested is reported. */
  lemma MutualExtension(profiles: map<string, RawProfile>, read: string -> Result<Persist.Env>, a: string, b: string)
    requires a in profiles && b in profiles && a != b
    requires profiles[a].extend == One(b) && profiles[b].extend == One(a)
    ensures Resolution(profiles, read, a, {}) == Circular(a)
  {
    Shrinks(profiles.Keys, {}, a);
    Shrinks(profiles.Keys, {a}, b);
    assert Resolution(profiles, read, a, {a, b}) == Circular(a);
    assert ResolveAll(profiles, read, [a], {a, b}) == Err(Circular(a).msg);
    assert {a} + {b} == {a, b};
    assert Resolution(profiles, read, b, {a}) == Circular(a);
    assert ResolveAll(profiles, read, [b], {a}) == Err(Circular(a).msg);
  }

  /** Extending a profile that does not exist fails with its name. */
  lemma UnknownExtension(profiles: map<string, RawProfile>, read: string -> Result<Persist.Env>, a: string, b: string)
    requires a in profiles && b !in profiles && profiles[a].extend == One(b)
    ensures Resolution(profiles, read, a, {}) == Unknown(b)
  {
    Shrinks(profiles.Keys, {}, a);
    assert ResolveAll(profiles, read, [b], {a}) == Err(Unknown(b).msg);
  }

  /** A profile that extends nothing and imports nothing is its own fields,
      with `env` and `expose` made lists. */
  lemma StandAlone(profiles: map<string, RawProfile>, read: string -> Result<Persist.Env>, a: string)
    requires a in profiles && NameSeq(profiles[a].extend) == [] && NameSeq(profiles[a].imports) == []
    ensures Resolution(profiles, read, a, {}) == Ok(ExtendProfileConfig(Blank, profiles[a].own))
  {
    Shrinks(profiles.Keys, {}, a);
    assert AsExtents([]) == [];
    assert Assemble([], [], profiles[a].own) == ExtendProfileConfig(Blank, profiles[a].own);
    assert ResolveAll(profiles, read, NameSeq(profiles[a].extend), {a}) == Ok([]);
    assert ReadAll(read, NameSeq(profiles[a].imports)) == Ok([]);
    assert {} + {a} == {a};
  }

  // ---------------------------------------------------------------------
  // createConfigResolver

  /** A table of stored profiles is sound while `resolving` is in
      progress: every stored profile is the resolution of its name, none
      is in progress, and everything a stored profile extends is stored
      too. */
  ghost predicate SoundMemo(profiles: map<string, RawProfile>, read: string -> Result<Persist.Env>, resolved: map<string, Profile>, resolving: set<string>) {
    Closed(profiles, resolved.Keys)
    && resolved.Keys * resolving == {}
    && forall n :: n in resolved ==> Resolution(profiles, read, n, {}) == Ok(resolved[n])
  }

  /** A stored profile is what resolving its name would give. */
  lemma MemoHit(profiles: map<string, RawProfile>, read: string -> Result<Persist.Env>, resolved: map<string, Profile>, resolving: set<string>, name: string)
    requires SoundMemo(profiles, read, resolved, resolving) && name in resolved
    ensures Resolution(profiles, read, name, resolving) == Ok(resolved[name])
  {
    ResolutionLocal(profiles, read, resolved.Keys, name, resolving, {});
  }

  /** Storing a profile just resolved keeps the table sound once its mark
      is cleared. */
  lemma MemoStore(profiles: map<string, RawProfile>, read: string -> Result<Persist.Env>, resolved: map<string, Profile>, outer: set<string>, name: string, result: Profile)
    requires SoundMemo(profiles, read, resolved, outer + {name})
    requires name in profiles && name !in outer
    requires Stored(NameSeq(profiles[name].extend), resolved)
    requires Compose(profiles, read, profiles[name], outer + {name}) == Ok(result)
    ensures SoundMemo(profiles, read, resolved[name := result], outer)
    ensures Resolution(profiles, read, name, outer) == Ok(result)
  {
    var m := resolved.Keys + {name};
    assert Closed(profiles, m);
    assert outer * m == {} * m;
    ResolutionLocal(profiles, read, m, name, outer, {});
  }

  /** Clearing a mark keeps the table sound. */
  lemma MemoClear(profiles: map<string, RawProfile>, read: string -> Result<Persist.Env>, resolved: map<string, Profile>, outer: set<string>, name: string)
    requires SoundMemo(profiles, read, resolved, outer + {name})
    ensures SoundMemo(profiles, read, resolved, outer)
  {
    assert resolved.Keys * outer <= resolved.Keys * (outer + {name});
  }

  /** The resolver: the raw profiles, the reader of imported env files,
      the profiles resolved so far (`resolvedProfiles`), and the names in
      progress in the current request (`resolvingProfiles`). */
  class ConfigResolver {
    const profiles: map<string, RawProfile>
    const read: string -> Result<Persist.Env>
    var resolved: map<string, Profile>
    var resolving: set<string>

    ghost predicate Valid()
      reads this
    {
      SoundMemo(profiles, read, resolved, resolving)
    }

    constructor (profiles: map<string, RawProfile>, read: string -> Result<Persist.Env>)
      ensures Valid()
      ensures this.profiles == profiles && this.read == read
      ensures resolved == map[] && resolving == {}
    {
      this.profiles := profiles;
      this.read := read;
      resolved := map[];
      resolving := {};
    }

    /** `config.profile(name)`: a request starts with nothing in progress. */
    method Request(name: string) returns (r: Result<Profile>)
      requires Valid()
      modifies this
      ensures Valid() && resolving == {}
      ensures r == Resolution(profiles, read, name, {})
      ensures name in old(resolved) ==> resolved == old(resolved) && r == Ok(old(resolved)[name])
      ensures r.Ok? ==> name in resolved && resolved[name] == r.value
      ensures forall n :: n in old(resolved) ==> n in resolved && resolved[n] == old(resolved)[n]
    {
      resolving := {};
      r := Profile(name);
    }

    /** `_profile(name, resolvingProfiles)`: a stored profile is given back
        as stored; otherwise the name must be known and not in progress, it
        is marked in progress while it is resolved, the result is stored,
        and the mark is cleared on every way out. */
    method Profile(name: string) returns (r: Result<Profile>)
      requires Valid()
      modifies this
      ensures Valid() && resolving == old(resolving)
      ensures r == Resolution(profiles, read, name, resolving)
      ensures name in old(resolved) ==> resolved == old(resolved) && r == Ok(old(resolved)[name])
      ensures r.Ok? ==> name in resolved && resolved[name] == r.value
      ensures forall n :: n in old(resolved) ==> n in resolved && resolved[n] == old(resolved)[n]
      decreases |profiles.Keys - resolving|, 0, 0
    {
      if name in resolved {
        MemoHit(profiles, read, resolved, resolving, name);
        return Ok(resolved[name]);
      }
      if name !in profiles {
        return Unknown(name);
      }
      if name in resolving {
        return Circular(name);
      }
      ghost var outer := resolving;
      Shrinks(profiles.Keys, outer, name);
      resolving := resolving + {name};
      r := ResolveRaw(profiles[name]);
      if r.Ok? {
        MemoStore(profiles, read, resolved, outer, name, r.value);
        resolved := resolved[name := r.value];
      } else {
        MemoClear(profiles, read, resolved, outer, name);
      }
      resolving := resolving - {name};
      assert resolving == outer;
    }

    /** `resolveProfileConfigAsync`: the extended profiles are requested
        and merged in order, then the imported env files are read and
        merged in order, then the profile's own fields; the first error
        ends it. */
    method ResolveRaw(raw: RawProfile) returns (r: Result<Profile>)
      requires Valid()
      modifies this
      ensures Valid() && resolving == old(resolving)
      ensures forall n :: n in old(resolved) ==> n in resolved && resolved[n] == old(resolved)[n]
      ensures r == Compose(profiles, read, raw, resolving)
      ensures r.Ok? ==> Stored(NameSeq(raw.extend), resolved)
      decreases |profiles.Keys - resolving|, 2, 0
    {
      var extents, base, ok := ResolveExtents(NameSeq(raw.extend));
      if ok.Err? {
        return Err(ok.msg);
      }
      var files := NameSeq(raw.imports);
      var envs: seq<Persist.Env> := [];
      var j := 0;
      ChainNil(ReadAll(read, files));
      assert files[0..] == files;
      ghost var memo := resolved;
      while j < |files|
        invariant 0 <= j <= |files|
        invariant resolved == memo && resolving == old(resolving)
        invariant ReadAll(read, files) == Chain(envs, ReadAll(read, files[j..]))
        invariant base == ExtendAll(ExtendAll(Blank, extents), AsExtents(envs))
      {
        assert files[j..][0] == files[j] && files[j..][1..] == files[j + 1..];
        var env := read(files[j]);
        if env.Err? {
          return Err(env.msg);
        }
        ChainStep(envs, env.value, ReadAll(read, files[j + 1..]));
        ExtendAllSnoc(ExtendAll(Blank, extents), AsExtents(envs), AsExtent(env.value));
        assert AsExtents(envs + [env.value]) == AsExtents(envs) + [AsExtent(env.value)];
        base := ExtendProfileConfig(base, AsExtent(env.value));
        envs := envs + [env.value];
        j := j + 1;
      }
      assert files[j..] == [] && envs + [] == envs;
      r := Ok(ExtendProfileConfig(base, raw.own));
    }

    /** The loop over the extended profiles, merging each into the base
        as it comes in; the first error ends the loop. */
    method ResolveExtents(names: seq<string>) returns (extents: seq<Profile>, base: Profile, ok: Result<()>)
      requires Valid()
      modifies this
      ensures Valid() && resolving == old(resolving)
      ensures forall n :: n in old(resolved) ==> n in resolved && resolved[n] == old(resolved)[n]
      ensures ok.Ok? ==> ResolveAll(profiles, read, names, resolving) == Ok(extents) && base == ExtendAll(Blank, extents)
      ensures ok.Ok? ==> Stored(names, resolved)
      ensures ok.Err? ==> ResolveAll(profiles, read, names, resolving) == Err(ok.msg)
      decreases |profiles.Keys - resolving|, 1, 0
    {
      extents, base := [], Blank;
      var i := 0;
      ChainNil(ResolveAll(profiles, read, names, resolving));
      assert names[0..] == names;
      while i < |names|
        invariant 0 <= i <= |names|
        invariant Valid() && resolving == old(resolving)
        invariant forall n :: n in old(resolved) ==> n in resolved && resolved[n] == old(resolved)[n]
        invariant Stored(names[..i], resolved)
        invariant ResolveAll(profiles, read, names, resolving) == Chain(extents, ResolveAll(profiles, read, names[i..], resolving))
        invariant base == ExtendAll(Blank, extents)
      {
        ghost var before := resolved;
        var one := Profile(names[i]);
        if one.Ok? {
          StoredStep(names, i, before, resolved);
        }
        ExtentStep(profiles, read, names, i, resolving, extents, one);
        if one.Err? {
          return extents, base, Err(one.msg);
        }
        ExtendAllSnoc(Blank, extents, one.value);
        extents, base := extents + [one.value], ExtendProfileConfig(base, one.value);
        i := i + 1;
      }
      assert names[i..] == [] && extents + [] == extents;
      assert names[..i] == names;
      ok := Ok(());
    }
  }

  /** Every name of `names` has a stored profile. */
  predicate Stored(names: seq<string>, m: map<string, Profile>) {
    forall e :: e in names ==> e in m
  }

  lemma StoredStep(names: seq<string>, i: nat, before: map<string, Profile>, after: map<string, Profile>)
    requires i < |names| && Stored(names[..i], before) && before.Keys <= after.Keys && names[i] in after
    ensures Stored(names[..i + 1], after)
  {
    assert names[..i + 1] == names[..i] + [names[i]];
  }

  /** One more extended profile requested by the loop. */
  lemma ExtentStep(profiles: map<string, RawProfile>, read: string -> Result<Persist.Env>, names: seq<string>, i: nat, resolving: set<string>, extents: seq<Profile>, one: Result<Profile>)
    requires i < |names| && Resolution(profiles, read, names[i], resolving) == one
    requires ResolveAll(profiles, read, names, resolving) == Chain(extents, ResolveAll(profiles, read, names[i..], resolving))
    ensures one.Err? ==> ResolveAll(profiles, read, names, resolving) == Err(one.msg)
    ensures one.Ok? ==> ResolveAll(profiles, read, names, resolving) == Chain(extents + [one.value], ResolveAll(profiles, read, names[i + 1..], resolving))
  {
    assert names[i..][0] == names[i] && names[i..][1..] == names[i + 1..];
    if one.Ok? {
      ChainStep(extents, one.value, ResolveAll(profiles, read, names[i + 1..], resolving));
    }
  }

  lemma {:induction false} ExtendAllSnoc(base: Profile, extents: seq<Profile>, x: Profile)
    ensures ExtendAll(base, extents + [x]) == ExtendProfileConfig(ExtendAll(base, extents), x)
    decreases |extents|
  {
    if extents == [] {
      assert [x][1..] == [];
    } else {
      assert (extents + [x])[1..] == extents[1..] + [x];
      ExtendAllSnoc(ExtendProfileConfig(base, extents[0]), extents[1..], x);
    }
  }

  /** `done` followed by what the rest gives, or the rest's error. */
  function Chain<T>(done: seq<T>, rest: Result<seq<T>>): Result<seq<T>> {
    match rest
    case Ok(more) => Ok(done + more)
    case Err(m) => Err(m)
  }

  lemma ChainNil<T>(rest: Result<seq<T>>)
    ensures Chain([], rest) == rest
  {
    if rest.Ok? {
      assert [] + rest.value == rest.value;
    }
  }

  lemma ChainStep<T>(done: seq<T>, x: T, rest: Result<seq<T>>)
    ensures Chain(done, (var more :- rest; Ok([x] + more))) == Chain(done + [x], rest)
  {
    if rest.Ok? {
      assert done + ([x] + rest.value) == done + [x] + rest.value;
    }
  }
}
