/**
 * The plugin: constructor defaults and the body of the `emit` callback.
 *
 * The callback is modelled as a pure function of the webpack context
 * directory, the configuration, the asset map and the snapshot of its keys
 * (`Object.keys(assets)`, taken once before the loop).  It returns the paths
 * handed to the recursive remove and the relocated asset map.  Asset
 * contents are an opaque type parameter: they are moved, never looked at.
 */
module MoveAssets {
  import opened Wrappers
  import opened PosixPath
  import opened Substrings

  /** One relocation rule as the user writes it. */
  datatype Pattern = Pattern(from: string, to: string)

  /** The options object passed to the constructor; a missing property is None. */
  datatype Options = Options(outputDir: Option<string>, patterns: Option<seq<Pattern>>, clean: Option<bool>)

  /** What the constructor stores.  There is no `clean` field: the code never reads one. */
  datatype Config = Config(outputDir: string, patterns: seq<Pattern>)

  /** What one `emit` call does: the paths it removes, in order, and the new asset map. */
  datatype Emission<C> = Emission(removals: seq<string>, assets: map<string, C>)

  const DefaultOutputDir: string := "dist"

  /** `new MoveAssetsPlugin()` with no argument. */
  const NoOptions: Options := Options(None, None, None)

  /** The constructor: `outputDir || 'dist'` and `patterns || []`. */
  function Construct(opts: Options): (c: Config)
    ensures c.outputDir != []
    ensures opts.outputDir.Some? && opts.outputDir.value != [] ==> c.outputDir == opts.outputDir.value
    ensures opts.outputDir.None? || opts.outputDir.value == [] ==> c.outputDir == DefaultOutputDir
    ensures opts.patterns.Some? ==> c.patterns == opts.patterns.value
    ensures opts.patterns.None? ==> c.patterns == []
  {
    var dir := opts.outputDir.GetOr([]);
    Config(if dir == [] then DefaultOutputDir else dir, opts.patterns.GetOr([]))
  }

  /** The `clean` option has no effect on the stored configuration. */
  lemma ConstructIgnoresClean(dir: Option<string>, ps: Option<seq<Pattern>>, a: Option<bool>, b: Option<bool>)
    ensures Construct(Options(dir, ps, a)) == Construct(Options(dir, ps, b))
    ensures Construct(NoOptions) == Config(DefaultOutputDir, [])
  {
  }

  // ---------------------------------------------------------------------
  // Matching and rewriting one key
  // ---------------------------------------------------------------------

  /** An asset name seen from the build context: `normalizePath(path.join(outputDir, name))`. */
  function Project(outputDir: string, name: string): string
  {
    NormalizePath(Join(outputDir, name))
  }

  /**
   * A pattern with both ends passed through `normalizePath`.  The code
   * normalises `from` and `to` inside the loop; `normalizePath` is pure, so
   * normalising each pattern once gives the same values.
   */
  function NormalizePattern(p: Pattern): (q: Pattern)
    ensures Backslash !in q.from && Backslash !in q.to
  {
    Pattern(NormalizePath(p.from), NormalizePath(p.to))
  }

  function NormalizePatterns(ps: seq<Pattern>): (qs: seq<Pattern>)
    ensures |qs| == |ps|
    ensures forall i :: 0 <= i < |ps| ==> qs[i] == NormalizePattern(ps[i])
  {
    if ps == [] then [] else [NormalizePattern(ps[0])] + NormalizePatterns(ps[1..])
  }

  /** `newName.match(from)` with an already normalised `from` read as a literal string. */
  predicate Matches(q: Pattern, path: string) {
    Contains(path, q.from)
  }

  /** The index of the first (normalised) pattern whose `from` occurs in `path`. */
  function FirstMatch(qs: seq<Pattern>, path: string): (r: Option<nat>)
    ensures r.Some? ==> r.value < |qs| && Matches(qs[r.value], path)
    ensures r.Some? ==> forall j :: 0 <= j < r.value ==> !Matches(qs[j], path)
    ensures r.None? ==> forall j :: 0 <= j < |qs| ==> !Matches(qs[j], path)
  {
    if qs == [] then None
    else if IndexOf(path, qs[0].from).Some? then Some(0)
    else
      match FirstMatch(qs[1..], path)
      case None => None
      case Some(i) => Some(i + 1)
  }

  /** The new key for a projected path that the normalised pattern `q` matched. */
  function Rewrite(q: Pattern, projected: string): string
  {
    Join("../", ReplaceFirst(projected, q.from, q.to))
  }

  /** Pattern `i` matches and no earlier one does. */
  predicate FirstMatching(qs: seq<Pattern>, path: string, i: nat)
    requires i < |qs|
  {
    Matches(qs[i], path) && forall j :: 0 <= j < i ==> !Matches(qs[j], path)
  }

  /** Where the scan over the normalised patterns sends a projected path, if anywhere. */
  function Route(qs: seq<Pattern>, projected: string): (r: Option<string>)
    ensures r.Some? <==> exists i :: 0 <= i < |qs| && Matches(qs[i], projected)
    ensures forall i :: 0 <= i < |qs| && FirstMatching(qs, projected, i) ==> r == Some(Rewrite(qs[i], projected))
  {
    match FirstMatch(qs, projected)
    case None => None
    case Some(i) =>
      assert forall k :: 0 <= k < |qs| && FirstMatching(qs, projected, k) ==> k == i;
      Some(Rewrite(qs[i], projected))
  }

  /** The key the plugin moves asset `name` to, or None when no pattern matches. */
  function Destination(cfg: Config, name: string): Option<string>
  {
    Route(NormalizePatterns(cfg.patterns), Project(cfg.outputDir, name))
  }

  // ---------------------------------------------------------------------
  // The key loop
  // ---------------------------------------------------------------------

  /**
   * The loop below is written for any per-key decision `dest`: the new key
   * of an asset, or None to leave it.  The plugin's decision is
   * `Destination`; keeping it abstract here keeps the path arithmetic out of
   * the map reasoning.
   */
  type KeyMove = string -> Option<string>

  /** The key an asset ends up under when no other move interferes. */
  function Target(dest: KeyMove, name: string): string
  {
    dest(name).GetOr(name)
  }

  /** Some key of `assets` holds the content `v`. */
  ghost predicate HeldIn<C>(v: C, assets: map<string, C>) {
    exists k :: k in assets && assets[k] == v
  }

  /** One iteration of the key loop: insert under the new key, then delete the old one. */
  function MoveKey<C>(dest: KeyMove, assets: map<string, C>, name: string): (r: map<string, C>)
    requires name in assets
    ensures dest(name).None? ==> r == assets
    ensures dest(name).Some? ==> name !in r
    ensures dest(name).Some? && dest(name).value != name ==> dest(name).value in r && r[dest(name).value] == assets[name]
    ensures forall k :: k in r ==> k in assets || k == Target(dest, name)
    ensures forall k :: k in assets && k != name && k != Target(dest, name) ==> k in r && r[k] == assets[k]
    ensures forall k :: k in assets && k != name ==> k in r
    ensures forall k :: k in r ==> HeldIn(r[k], assets)
  {
    match dest(name)
    case None => assets
    case Some(newName) => assets[newName := assets[name]] - {name}
  }

  predicate NoDuplicates(keys: seq<string>) {
    forall i, j :: 0 <= i < j < |keys| ==> keys[i] != keys[j]
  }

  /** `keys` is what `Object.keys(assets)` returns: every key exactly once. */
  predicate Snapshot<C>(assets: map<string, C>, keys: seq<string>) {
    NoDuplicates(keys) && (forall k :: k in assets ==> k in keys) && (forall k :: k in keys ==> k in assets)
  }

  /** The loop over the key snapshot; each key is processed against the map as it is by then. */
  function Relocate<C>(dest: KeyMove, assets: map<string, C>, keys: seq<string>): (r: map<string, C>)
    requires NoDuplicates(keys)
    requires forall k :: k in keys ==> k in assets
    ensures forall k :: k in r ==> HeldIn(r[k], assets)
    ensures forall k :: k in r ==> (k in assets && k !in keys) || exists i :: 0 <= i < |keys| && Target(dest, keys[i]) == k
    decreases |keys|
  {
    if keys == [] then assets
    else
      var moved := MoveKey(dest, assets, keys[0]);
      var rest := keys[1..];
      assert forall i :: 0 <= i < |rest| ==> rest[i] == keys[i + 1];
      assert forall k :: k in rest ==> k in moved;
      var r := Relocate(dest, moved, rest);
      assert forall k :: k in r ==> HeldIn(r[k], assets) by {
        forall k | k in r
          ensures HeldIn(r[k], assets)
        {
          var k' :| k' in moved && moved[k'] == r[k];
        }
      }
      r
  }

  /**
   * No two keys of the snapshot have the same target, and no new key is
   * already a key of the map.
   */
  ghost predicate Fresh<C>(dest: KeyMove, assets: map<string, C>, keys: seq<string>) {
    && (forall i, j :: 0 <= i < |keys| && 0 <= j < |keys| && Target(dest, keys[i]) == Target(dest, keys[j]) ==> i == j)
    && (forall i :: 0 <= i < |keys| && dest(keys[i]).Some? ==> dest(keys[i]).value !in assets)
  }

  /** One iteration keeps the loop's preconditions for the remaining keys. */
  lemma MoveKeyKeepsFresh<C>(dest: KeyMove, assets: map<string, C>, keys: seq<string>)
    requires keys != [] && NoDuplicates(keys)
    requires forall k :: k in keys ==> k in assets
    requires Fresh(dest, assets, keys)
    ensures var moved := MoveKey(dest, assets, keys[0]);
      && NoDuplicates(keys[1..])
      && (forall k :: k in keys[1..] ==> k in moved)
      && Fresh(dest, moved, keys[1..])
  {
    var moved := MoveKey(dest, assets, keys[0]);
    var rest := keys[1..];
    assert forall i :: 0 <= i < |rest| ==> rest[i] == keys[i + 1];
    forall i | 0 <= i < |rest| && dest(rest[i]).Some?
      ensures dest(rest[i]).value !in moved
    {
      assert Target(dest, keys[i + 1]) != Target(dest, keys[0]);
    }
  }

  /** Under freshness, keys outside the snapshot keep their content. */
  lemma {:induction false} RelocateKeepsOthers<C>(dest: KeyMove, assets: map<string, C>, keys: seq<string>)
    requires NoDuplicates(keys)
    requires forall k :: k in keys ==> k in assets
    requires Fresh(dest, assets, keys)
    ensures var r := Relocate(dest, assets, keys);
      forall k :: k in assets && k !in keys ==> k in r && r[k] == assets[k]
    decreases |keys|
  {
    if keys != [] {
      var moved := MoveKey(dest, assets, keys[0]);
      var rest := keys[1..];
      MoveKeyKeepsFresh(dest, assets, keys);
      RelocateKeepsOthers(dest, moved, rest);
      assert Relocate(dest, assets, keys) == Relocate(dest, moved, rest);
      forall k | k in assets && k !in keys
        ensures k in moved && moved[k] == assets[k] && k !in rest
      {
        assert k != keys[0];
        assert forall i :: 0 <= i < |rest| ==> rest[i] == keys[i + 1];
      }
    }
  }

  /** Under freshness, every snapshot key's content ends up under its target. */
  lemma {:induction false} RelocatePlaces<C>(dest: KeyMove, assets: map<string, C>, keys: seq<string>)
    requires NoDuplicates(keys)
    requires forall k :: k in keys ==> k in assets
    requires Fresh(dest, assets, keys)
    ensures var r := Relocate(dest, assets, keys);
      forall i :: 0 <= i < |keys| ==> Target(dest, keys[i]) in r && r[Target(dest, keys[i])] == assets[keys[i]]
    decreases |keys|
  {
    if keys != [] {
      var k0 := keys[0];
      var t0 := Target(dest, k0);
      var moved := MoveKey(dest, assets, k0);
      var rest := keys[1..];
      MoveKeyKeepsFresh(dest, assets, keys);
      RelocatePlaces(dest, moved, rest);
      RelocateKeepsOthers(dest, moved, rest);
      var r := Relocate(dest, assets, keys);
      assert r == Relocate(dest, moved, rest);
      assert forall i :: 0 <= i < |rest| ==> rest[i] == keys[i + 1];
      assert t0 in moved && moved[t0] == assets[k0] && t0 !in rest;
      forall i | 0 < i < |keys|
        ensures Target(dest, keys[i]) in r && r[Target(dest, keys[i])] == assets[keys[i]]
      {
        assert keys[i] == rest[i - 1];
        assert keys[i] != k0 && keys[i] != t0;
      }
    }
  }

  /** Under freshness, a moved asset's old key is gone. */
  lemma RelocateDrops<C>(dest: KeyMove, assets: map<string, C>, keys: seq<string>)
    requires NoDuplicates(keys)
    requires forall k :: k in keys ==> k in assets
    requires Fresh(dest, assets, keys)
    ensures var r := Relocate(dest, assets, keys);
      forall i :: 0 <= i < |keys| && dest(keys[i]).Some? ==> keys[i] !in r
  {
    var r := Relocate(dest, assets, keys);
    forall i | 0 <= i < |keys| && dest(keys[i]).Some?
      ensures keys[i] !in r
    {
      forall j | 0 <= j < |keys|
        ensures Target(dest, keys[j]) != keys[i]
      {
        if dest(keys[j]).Some? {
          assert dest(keys[j]).value !in assets;
        } else {
          assert Target(dest, keys[j]) == keys[j];
          assert j != i;
        }
      }
    }
  }

  // ---------------------------------------------------------------------
  // The callback
  // ---------------------------------------------------------------------

  /** The paths removed before relocation: `path.join(context, to)` with the raw `to`. */
  function CleanupTargets(context: string, ps: seq<Pattern>): (r: seq<string>)
    ensures |r| == |ps|
    ensures forall i :: 0 <= i < |ps| ==> r[i] == Join(context, ps[i].to)
  {
    if ps == [] then [] else [Join(context, ps[0].to)] + CleanupTargets(context, ps[1..])
  }

  /** The `emit` callback: nothing without patterns, else remove the targets, then re-key. */
  function Emit<C>(cfg: Config, context: string, assets: map<string, C>, keys: seq<string>): (r: Emission<C>)
    requires Snapshot(assets, keys)
    ensures |cfg.patterns| == 0 ==> r.assets == assets
    ensures |r.removals| == |cfg.patterns|
    ensures forall i :: 0 <= i < |cfg.patterns| ==> r.removals[i] == Join(context, cfg.patterns[i].to)
    ensures forall k :: k in r.assets ==> HeldIn(r.assets[k], assets)
  {
    if |cfg.patterns| == 0 then Emission([], assets)
    else Emission(CleanupTargets(context, cfg.patterns), Relocate(Plan(cfg), assets, keys))
  }

  /**
   * Cleanup with each `to` passed through `normalizePath` first, as the loop
   * does before moving assets there.  The callback as written uses the raw
   * `to` (`CleanupTargets`); see `Scenarios.RawCleanupKeepsBackslash`.
   */
  function IntendedCleanupTargets(context: string, ps: seq<Pattern>): (r: seq<string>)
    ensures |r| == |ps|
    ensures forall i :: 0 <= i < |ps| ==> r[i] == Join(context, NormalizePath(ps[i].to))
  {
    if ps == [] then [] else [Join(context, NormalizePath(ps[0].to))] + IntendedCleanupTargets(context, ps[1..])
  }

  /** The callback with `IntendedCleanupTargets` in place of `CleanupTargets`. */
  function IntendedEmit<C>(cfg: Config, context: string, assets: map<string, C>, keys: seq<string>): (r: Emission<C>)
    requires Snapshot(assets, keys)
    ensures r.assets == Emit(cfg, context, assets, keys).assets
    ensures |r.removals| == |cfg.patterns|
    ensures forall i :: 0 <= i < |cfg.patterns| ==> r.removals[i] == Join(context, NormalizePath(cfg.patterns[i].to))
  {
    if |cfg.patterns| == 0 then Emission([], assets)
    else Emission(IntendedCleanupTargets(context, cfg.patterns), Relocate(Plan(cfg), assets, keys))
  }

  // ---------------------------------------------------------------------
  // Properties of the callback
  // ---------------------------------------------------------------------

  /** The removals depend on the context and the patterns only, not on the assets. */
  lemma CleanupIgnoresAssets<C>(cfg: Config, context: string, a: map<string, C>, ka: seq<string>, b: map<string, C>, kb: seq<string>)
    requires Snapshot(a, ka) && Snapshot(b, kb)
    ensures Emit(cfg, context, a, ka).removals == Emit(cfg, context, b, kb).removals
  {
    var ra := Emit(cfg, context, a, ka).removals;
    var rb := Emit(cfg, context, b, kb).removals;
    assert forall i :: 0 <= i < |ra| ==> ra[i] == rb[i];
  }

  /** Patterns after a matching one are never consulted. */
  lemma FirstMatchWins(qs: seq<Pattern>, later: seq<Pattern>, projected: string)
    requires Route(qs, projected).Some?
    ensures Route(qs + later, projected) == Route(qs, projected)
  {
    var i := FirstMatch(qs, projected).value;
    assert forall j :: 0 <= j < |qs| ==> (qs + later)[j] == qs[j];
  }

  /** Patterns that do not match are skipped. */
  lemma {:induction false} UnmatchedPrefixIgnored(earlier: seq<Pattern>, qs: seq<Pattern>, projected: string)
    requires forall j :: 0 <= j < |earlier| ==> !Matches(earlier[j], projected)
    ensures Route(earlier + qs, projected) == Route(qs, projected)
  {
    var all := earlier + qs;
    assert forall j :: 0 <= j < |qs| ==> all[|earlier| + j] == qs[j];
    assert forall j :: 0 <= j < |earlier| ==> all[j] == earlier[j];
    match FirstMatch(qs, projected)
    case None =>
      forall j | 0 <= j < |all|
        ensures !Matches(all[j], projected)
      {
        if j >= |earlier| {
          assert all[j] == qs[j - |earlier|];
        }
      }
    case Some(i) =>
      var k := |earlier| + i;
      assert Matches(all[k], projected);
      forall j | 0 <= j < k
        ensures !Matches(all[j], projected)
      {
        if j >= |earlier| {
          assert all[j] == qs[j - |earlier|];
        }
      }
  }

  /** The plugin's per-key decision as a value of the loop's decision type. */
  function Plan(cfg: Config): KeyMove
  {
    name => Destination(cfg, name)
  }

  /** Without patterns no asset has a destination. */
  lemma NoPatternsNoDestination(cfg: Config, name: string)
    requires cfg.patterns == []
    ensures Destination(cfg, name) == None
  {
    assert NormalizePatterns(cfg.patterns) == [];
  }

  /** The callback under freshness: every asset's content ends up under its target. */
  lemma EmitPlaces<C>(cfg: Config, context: string, assets: map<string, C>, keys: seq<string>)
    requires Snapshot(assets, keys)
    requires Fresh(Plan(cfg), assets, keys)
    ensures var r := Emit(cfg, context, assets, keys).assets;
      forall i :: 0 <= i < |keys| ==> Target(Plan(cfg), keys[i]) in r && r[Target(Plan(cfg), keys[i])] == assets[keys[i]]
  {
    if |cfg.patterns| == 0 {
      forall i | 0 <= i < |keys|
        ensures Target(Plan(cfg), keys[i]) == keys[i]
      {
        NoPatternsNoDestination(cfg, keys[i]);
      }
    } else {
      RelocatePlaces(Plan(cfg), assets, keys);
    }
  }

  /** The callback under freshness: a moved asset's old key is gone, and the map holds nothing but targets. */
  lemma EmitDrops<C>(cfg: Config, context: string, assets: map<string, C>, keys: seq<string>)
    requires Snapshot(assets, keys)
    requires Fresh(Plan(cfg), assets, keys)
    ensures var r := Emit(cfg, context, assets, keys).assets;
      forall i :: 0 <= i < |keys| && Plan(cfg)(keys[i]).Some? ==> keys[i] !in r
    ensures var r := Emit(cfg, context, assets, keys).assets;
      forall k :: k in r ==> exists i :: 0 <= i < |keys| && Target(Plan(cfg), keys[i]) == k
  {
    if |cfg.patterns| == 0 {
      forall i | 0 <= i < |keys|
        ensures Plan(cfg)(keys[i]).None?
      {
        NoPatternsNoDestination(cfg, keys[i]);
      }
      var r := Emit(cfg, context, assets, keys).assets;
      forall k | k in r
        ensures exists i :: 0 <= i < |keys| && Target(Plan(cfg), keys[i]) == k
      {
        var i :| 0 <= i < |keys| && keys[i] == k;
        NoPatternsNoDestination(cfg, k);
      }
    } else {
      RelocateDrops(Plan(cfg), assets, keys);
    }
  }

  // ---------------------------------------------------------------------
  // Destinations of normal relative paths
  // ---------------------------------------------------------------------

  /** Projecting a normal relative name onto a normal relative output directory. */
  lemma ProjectJoined(dir: seq<string>, name: seq<string>)
    requires dir != [] && name != [] && Clean(dir + name, true)
    requires Backslash !in JoinSegs(dir + name)
    ensures Project(JoinSegs(dir), JoinSegs(name)) == JoinSegs(dir + name)
  {
    JoinJoined(dir, name);
    NormalizePathJoined(dir + name);
  }

  /** When the first matching pattern's `from` is a prefix of the projected path, the prefix is swapped for `to` and `../` is put in front. */
  lemma RouteByPrefix(qs: seq<Pattern>, i: nat, projected: string)
    requires i < |qs| && |qs[i].from| <= |projected| && projected[..|qs[i].from|] == qs[i].from
    requires forall j :: 0 <= j < i ==> !Matches(qs[j], projected)
    ensures Route(qs, projected) == Some(Join("../", qs[i].to + projected[|qs[i].from|..]))
  {
    assert OccursAt(projected, qs[i].from, 0);
    assert FirstMatching(qs, projected, i);
    ReplacePrefix(projected, qs[i].from, qs[i].to);
  }

  /**
   * The same on joined piece lists: a rule `f -> t` sends `f/r` to
   * `../t/r`, the extra `..` being the revert of the emit context.
   */
  lemma RouteJoined(qs: seq<Pattern>, i: nat, f: seq<string>, t: seq<string>, r: seq<string>)
    requires i < |qs| && qs[i].from == JoinSegs(f) && qs[i].to == JoinSegs(t)
    requires f != [] && t != [] && r != []
    requires Clean([".."] + t + r, true)
    requires forall j :: 0 <= j < i ==> !Matches(qs[j], JoinSegs(f + r))
    ensures Route(qs, JoinSegs(f + r)) == Some(JoinSegs([".."] + t + r))
  {
    var projected := JoinSegs(f + r);
    JoinSegsAppend(f, r);
    JoinSegsAppend(t, r);
    assert projected[..|qs[i].from|] == qs[i].from;
    assert qs[i].to + projected[|qs[i].from|..] == JoinSegs(t + r);
    RouteByPrefix(qs, i, projected);
    assert [".."] + (t + r) == [".."] + t + r;
    JoinParent(t + r);
  }

  /** A rule whose `from` is the whole projected path sends it to `../` + its `to`. */
  lemma RouteWhole(qs: seq<Pattern>, i: nat, projected: string, t: seq<string>)
    requires i < |qs| && qs[i] == Pattern(projected, JoinSegs(t))
    requires t != [] && Clean([".."] + t, true)
    requires forall j :: 0 <= j < i ==> !Matches(qs[j], projected)
    ensures Route(qs, projected) == Some(JoinSegs([".."] + t))
  {
    RouteByPrefix(qs, i, projected);
    assert qs[i].to + projected[|projected|..] == JoinSegs(t);
    JoinParent(t);
  }

  /**
   * The projected path `path` of an asset named `name` under the output
   * directory `d` is a normal relative piece list without backslashes.
   */
  predicate ProjectsTo(cfg: Config, d: seq<string>, name: seq<string>, path: seq<string>) {
    && cfg.outputDir == JoinSegs(d) && NormalizePatterns(cfg.patterns) == cfg.patterns
    && d != [] && name != [] && path == d + name
    && Clean(path, true) && forall k :: 0 <= k < |path| ==> Backslash !in path[k]
  }

  /**
   * Pattern `i`, written `f -> t`, is the first to match `path == f/r`, and
   * `out` is `../t/r`.
   */
  predicate RuleFits(cfg: Config, path: seq<string>, i: nat, f: seq<string>, t: seq<string>, r: seq<string>, out: seq<string>) {
    && i < |cfg.patterns| && cfg.patterns[i] == Pattern(JoinSegs(f), JoinSegs(t))
    && f != [] && t != [] && path == f + r && out == [".."] + t + r && Clean(out, true)
    && forall j :: 0 <= j < i ==> !Matches(cfg.patterns[j], JoinSegs(path))
  }

  /**
   * An asset whose projected path the first matching rule `f -> t` splits
   * as `f/r` is sent to `../t/r`; with `r` empty the rule names the whole
   * path and the asset goes to `../t`.
   */
  lemma DestinationByRule(cfg: Config, d: seq<string>, name: seq<string>, path: seq<string>,
                          i: nat, f: seq<string>, t: seq<string>, r: seq<string>, out: seq<string>)
    requires ProjectsTo(cfg, d, name, path)
    requires RuleFits(cfg, path, i, f, t, r, out)
    ensures Destination(cfg, JoinSegs(name)) == Some(JoinSegs(out))
  {
    JoinSegsAvoid(path, Backslash);
    ProjectJoined(d, name);
    if r == [] {
      assert path == f && out == [".."] + t;
      RouteWhole(cfg.patterns, i, JoinSegs(path), t);
    } else {
      RouteJoined(cfg.patterns, i, f, t, r);
    }
  }

  /** An asset whose projected path no rule matches keeps its key. */
  lemma NoRuleMatches(cfg: Config, d: seq<string>, name: seq<string>, path: seq<string>)
    requires ProjectsTo(cfg, d, name, path)
    requires forall j :: 0 <= j < |cfg.patterns| ==> !Matches(cfg.patterns[j], JoinSegs(path))
    ensures Destination(cfg, JoinSegs(name)) == None
  {
    JoinSegsAvoid(path, Backslash);
    ProjectJoined(d, name);
  }

  /** The loop depends on the decision only through its values. */
  lemma {:induction false} RelocateCongruent<C>(d1: KeyMove, d2: KeyMove, assets: map<string, C>, keys: seq<string>)
    requires NoDuplicates(keys)
    requires forall k :: k in keys ==> k in assets
    requires forall k :: k in keys ==> d1(k) == d2(k)
    ensures Relocate(d1, assets, keys) == Relocate(d2, assets, keys)
    decreases |keys|
  {
    if keys != [] {
      var moved := MoveKey(d1, assets, keys[0]);
      assert moved == MoveKey(d2, assets, keys[0]);
      assert forall i :: 0 <= i < |keys[1..]| ==> keys[1..][i] == keys[i + 1];
      RelocateCongruent(d1, d2, moved, keys[1..]);
    }
  }

  /**
   * Two configurations whose patterns normalise to the same list relocate
   * every asset map the same way: this is why a pattern written with
   * backslashes acts like its forward-slash form.
   */
  lemma SameRulesSameAssets<C>(c1: Config, c2: Config, context: string, assets: map<string, C>, keys: seq<string>)
    requires c1.outputDir == c2.outputDir
    requires NormalizePatterns(c1.patterns) == NormalizePatterns(c2.patterns)
    requires Snapshot(assets, keys)
    ensures Emit(c1, context, assets, keys).assets == Emit(c2, context, assets, keys).assets
  {
    if |c1.patterns| > 0 {
      forall k | k in keys
        ensures Plan(c1)(k) == Plan(c2)(k)
      {
        assert Destination(c1, k) == Destination(c2, k);
      }
      RelocateCongruent(Plan(c1), Plan(c2), assets, keys);
    }
  }

  /** With the intended cleanup, rules that normalise alike remove the same paths and move assets alike. */
  lemma IntendedEmitSpellingFree<C>(c1: Config, c2: Config, context: string, assets: map<string, C>, keys: seq<string>)
    requires c1.outputDir == c2.outputDir
    requires NormalizePatterns(c1.patterns) == NormalizePatterns(c2.patterns)
    requires Snapshot(assets, keys)
    ensures IntendedEmit(c1, context, assets, keys) == IntendedEmit(c2, context, assets, keys)
  {
    SameRulesSameAssets(c1, c2, context, assets, keys);
    var r1 := IntendedEmit(c1, context, assets, keys).removals;
    var r2 := IntendedEmit(c2, context, assets, keys).removals;
    assert |c1.patterns| == |c2.patterns| by {
      assert |NormalizePatterns(c1.patterns)| == |NormalizePatterns(c2.patterns)|;
    }
    forall i | 0 <= i < |c1.patterns|
      ensures r1[i] == r2[i]
    {
      assert NormalizePattern(c1.patterns[i]) == NormalizePatterns(c1.patterns)[i];
      assert NormalizePattern(c2.patterns[i]) == NormalizePatterns(c2.patterns)[i];
    }
  }
}
