/**
 * The behaviours the repository's integration tests pin down, stated for
 * any names rather than for the tests' strings (`dist`, `js`, `libs`,
 * `be/public`, ...):
 *   - with a specific rule `dist/js/libs` and a general rule `dist/js`, the
 *     one declared first decides where `js/libs/jq.js` goes;
 *   - a rule spelled with backslashes relocates assets exactly like its
 *     forward-slash spelling;
 *   - the cleanup, however, joins the raw `to`, so a backslash spelling
 *     names a different path under POSIX.
 */
module Scenarios {
  import opened Wrappers
  import opened PosixPath
  import opened MoveAssets

  /** A piece that is neither `.` nor `..` and holds no separator or backslash. */
  predicate Word(x: string) {
    ValidPiece(x) && x != "." && x != ".." && Backslash !in x
  }

  predicate Words(ws: seq<string>) {
    forall k :: 0 <= k < |ws| ==> Word(ws[k])
  }

  /** A normal relative path: optional leading `..` pieces, then words. */
  predicate Relative(xs: seq<string>) {
    xs != [] && Clean(xs, true) && forall k :: 0 <= k < |xs| ==> Backslash !in xs[k]
  }

  /** A rule whose two ends are normal relative paths. */
  predicate NormalRule(f: seq<string>, t: seq<string>) {
    Relative(f) && Relative(t)
  }

  lemma NormalRuleKept(f: seq<string>, t: seq<string>)
    requires NormalRule(f, t)
    ensures NormalizePattern(Pattern(JoinSegs(f), JoinSegs(t))) == Pattern(JoinSegs(f), JoinSegs(t))
  {
    JoinSegsAvoid(f, Backslash);
    NormalizePathJoined(f);
    JoinSegsAvoid(t, Backslash);
    NormalizePathJoined(t);
  }

  /** Pattern lists that normalise pointwise alike normalise alike. */
  lemma SameNormalForms(ps1: seq<Pattern>, ps2: seq<Pattern>)
    requires |ps1| == |ps2|
    requires forall i :: 0 <= i < |ps1| ==> NormalizePattern(ps1[i]) == NormalizePattern(ps2[i])
    ensures NormalizePatterns(ps1) == NormalizePatterns(ps2)
  {
  }

  // ---------------------------------------------------------------------
  // Declaration order between a specific and a general rule
  // ---------------------------------------------------------------------

  /**
   * The projected path `f/g/r` of `name` under `d`, a specific rule
   * `f/g -> u` and a general rule `f -> t`.
   */
  predicate OrderSetting(d: seq<string>, name: seq<string>, f: seq<string>, g: seq<string>, r: seq<string>,
                         t: seq<string>, u: seq<string>) {
    && d != [] && name != [] && f != [] && g != [] && r != []
    && Relative(d + name) && d + name == f + g + r
    && NormalRule(f + g, u) && NormalRule(f, t)
    && Clean([".."] + u + r, true) && Clean([".."] + t + g + r, true)
  }

  function Specific(f: seq<string>, g: seq<string>, u: seq<string>): Pattern {
    Pattern(JoinSegs(f + g), JoinSegs(u))
  }

  function General(f: seq<string>, t: seq<string>): Pattern {
    Pattern(JoinSegs(f), JoinSegs(t))
  }

  lemma OrderedRulesNormal(f: seq<string>, g: seq<string>, t: seq<string>, u: seq<string>)
    requires NormalRule(f + g, u) && NormalRule(f, t)
    ensures NormalizePatterns([Specific(f, g, u), General(f, t)]) == [Specific(f, g, u), General(f, t)]
    ensures NormalizePatterns([General(f, t), Specific(f, g, u)]) == [General(f, t), Specific(f, g, u)]
  {
    NormalRuleKept(f + g, u);
    NormalRuleKept(f, t);
  }

  /** Both orders of the two rules are already normal, so the projection step applies. */
  lemma OrderProjects(cfg: Config, d: seq<string>, name: seq<string>, f: seq<string>, g: seq<string>, r: seq<string>,
                      t: seq<string>, u: seq<string>)
    requires OrderSetting(d, name, f, g, r, t, u)
    requires cfg.outputDir == JoinSegs(d)
    requires cfg.patterns == [Specific(f, g, u), General(f, t)] || cfg.patterns == [General(f, t), Specific(f, g, u)]
    ensures ProjectsTo(cfg, d, name, d + name)
  {
    OrderedRulesNormal(f, g, t, u);
  }

  /** Specific rule first: the asset goes to `../u/r`. */
  lemma SpecificFirst(d: seq<string>, name: seq<string>, f: seq<string>, g: seq<string>, r: seq<string>,
                      t: seq<string>, u: seq<string>)
    requires OrderSetting(d, name, f, g, r, t, u)
    ensures Destination(Config(JoinSegs(d), [Specific(f, g, u), General(f, t)]), JoinSegs(name))
         == Some(JoinSegs([".."] + u + r))
  {
    var cfg := Config(JoinSegs(d), [Specific(f, g, u), General(f, t)]);
    OrderProjects(cfg, d, name, f, g, r, t, u);
    assert RuleFits(cfg, d + name, 0, f + g, u, r, [".."] + u + r);
    DestinationByRule(cfg, d, name, d + name, 0, f + g, u, r, [".."] + u + r);
  }

  /** The general rule `f -> t` takes `f/g/r` to `../t/g/r`. */
  lemma GeneralFits(cfg: Config, path: seq<string>, f: seq<string>, g: seq<string>, r: seq<string>, t: seq<string>)
    requires |cfg.patterns| > 0 && cfg.patterns[0] == General(f, t)
    requires f != [] && t != [] && path == f + g + r && Clean([".."] + t + g + r, true)
    ensures RuleFits(cfg, path, 0, f, t, g + r, [".."] + t + g + r)
  {
    assert path == f + (g + r);
    assert [".."] + t + g + r == [".."] + t + (g + r);
  }

  /** General rule first: the specific rule is shadowed and the asset goes to `../t/g/r`. */
  lemma GeneralFirst(d: seq<string>, name: seq<string>, f: seq<string>, g: seq<string>, r: seq<string>,
                     t: seq<string>, u: seq<string>)
    requires OrderSetting(d, name, f, g, r, t, u)
    ensures Destination(Config(JoinSegs(d), [General(f, t), Specific(f, g, u)]), JoinSegs(name))
         == Some(JoinSegs([".."] + t + g + r))
  {
    var cfg := Config(JoinSegs(d), [General(f, t), Specific(f, g, u)]);
    OrderProjects(cfg, d, name, f, g, r, t, u);
    GeneralFits(cfg, d + name, f, g, r, t);
    DestinationByRule(cfg, d, name, d + name, 0, f, t, g + r, [".."] + t + g + r);
  }

  /**
   * The declaration order decides between a specific and a general rule:
   * the two orders send the same asset to different places whenever the
   * specific rule's target differs from the general rule's.
   */
  lemma RuleOrderDecides(d: seq<string>, name: seq<string>, f: seq<string>, g: seq<string>, r: seq<string>,
                         t: seq<string>, u: seq<string>)
    requires OrderSetting(d, name, f, g, r, t, u)
    requires u != t + g
    ensures Destination(Config(JoinSegs(d), [Specific(f, g, u), General(f, t)]), JoinSegs(name))
         != Destination(Config(JoinSegs(d), [General(f, t), Specific(f, g, u)]), JoinSegs(name))
  {
    UpDiffers(u, t + g, r);
    assert [".."] + t + g + r == [".."] + (t + g) + r;
    JoinDiffers([".."] + u + r, [".."] + t + g + r);
    SpecificFirst(d, name, f, g, r, t, u);
    GeneralFirst(d, name, f, g, r, t, u);
  }

  /** Different middles give different paths. */
  lemma UpDiffers(a: seq<string>, b: seq<string>, r: seq<string>)
    requires a != b
    ensures [".."] + a + r != [".."] + b + r
  {
    assert ([".."] + a + r)[1..] == a + r && (a + r)[..|a|] == a;
    assert ([".."] + b + r)[1..] == b + r && (b + r)[..|b|] == b;
  }

  /** Joining lists of valid pieces is injective. */
  lemma JoinDiffers(xs: seq<string>, ys: seq<string>)
    requires Clean(xs, true) && Clean(ys, true) && xs != ys
    ensures JoinSegs(xs) != JoinSegs(ys)
  {
    PiecesOfJoin(xs);
    PiecesOfJoin(ys);
  }

  // ---------------------------------------------------------------------
  // Backslash spellings
  // ---------------------------------------------------------------------

  /** Words joined by backslashes: under POSIX this is one piece. */
  function BackslashJoin(ws: seq<string>): string
  {
    if |ws| == 0 then []
    else if |ws| == 1 then ws[0]
    else ws[0] + [Backslash] + BackslashJoin(ws[1..])
  }

  lemma ForwardSlashesAppend(a: string, b: string)
    ensures ToForwardSlashes(a + b) == ToForwardSlashes(a) + ToForwardSlashes(b)
  {
    var l := ToForwardSlashes(a + b);
    var r := ToForwardSlashes(a) + ToForwardSlashes(b);
    forall i | 0 <= i < |l|
      ensures l[i] == r[i]
    {
      if i >= |a| {
        assert (a + b)[i] == b[i - |a|];
      }
    }
  }

  /** Turning backslashes into separators turns a backslash spelling into the joined words. */
  lemma {:induction false} ForwardSlashesOfBackslashJoin(ws: seq<string>)
    requires forall k :: 0 <= k < |ws| ==> Backslash !in ws[k]
    ensures ToForwardSlashes(BackslashJoin(ws)) == JoinSegs(ws)
    decreases |ws|
  {
    if |ws| == 1 {
      ToForwardSlashesNoBackslash(ws[0]);
    } else if |ws| > 1 {
      ForwardSlashesOfBackslashJoin(ws[1..]);
      ForwardSlashesAppend(ws[0] + [Backslash], BackslashJoin(ws[1..]));
      ForwardSlashesAppend(ws[0], [Backslash]);
      ToForwardSlashesNoBackslash(ws[0]);
    }
  }

  /** A backslash spelling of at least two words holds a backslash. */
  lemma {:induction false} BackslashJoinHasBackslash(ws: seq<string>)
    requires |ws| > 1
    ensures Backslash in BackslashJoin(ws)
  {
    assert BackslashJoin(ws)[|ws[0]|] == Backslash;
  }

  /** A backslash spelling of words is a single valid piece other than `.` and `..`. */
  lemma {:induction false} BackslashJoinPiece(ws: seq<string>)
    requires ws != [] && Words(ws)
    ensures ValidPiece(BackslashJoin(ws)) && BackslashJoin(ws) != "." && BackslashJoin(ws) != ".."
    decreases |ws|
  {
    if |ws| > 1 {
      BackslashJoinPiece(ws[1..]);
      BackslashJoinHasBackslash(ws);
      assert Sep !in ws[0] + [Backslash];
      assert Backslash !in "." && Backslash !in "..";
    }
  }

  /** `normalizePath` turns a backslash spelling into the forward-slash path. */
  lemma BackslashSpelling(ws: seq<string>)
    requires ws != [] && Words(ws)
    ensures NormalizePath(BackslashJoin(ws)) == JoinSegs(ws)
  {
    var b := BackslashJoin(ws);
    BackslashJoinPiece(ws);
    NormalizePathUnifies([b]);
    ForwardSlashesOfBackslashJoin(ws);
  }

  /** `normalizePath` turns `../w1\w2...` into `../w1/w2/...`. */
  lemma BackslashSpellingUp(ws: seq<string>)
    requires ws != [] && Words(ws)
    ensures NormalizePath(JoinSegs(["..", BackslashJoin(ws)])) == JoinSegs([".."] + ws)
  {
    var b := BackslashJoin(ws);
    BackslashJoinPiece(ws);
    NormalizePathUnifies(["..", b]);
    assert JoinSegs(["..", b]) == ".." + [Sep] + b;
    ForwardSlashesAppend(".." + [Sep], b);
    ToForwardSlashesNoBackslash(".." + [Sep]);
    ForwardSlashesOfBackslashJoin(ws);
    assert ([".."] + ws)[1..] == ws;
  }

  /**
   * The rules of the backslash test, `dist\index.html -> ../be/view/index.html`
   * and `dist/js/libs -> ../be\public\libs`, next to their forward-slash
   * spellings; any further rules are shared.
   */
  predicate BackslashSetting(ps1: seq<Pattern>, ps2: seq<Pattern>,
                             f1: seq<string>, t1: seq<string>, f2: seq<string>, t2: seq<string>) {
    && f1 != [] && Words(f1) && t2 != [] && Words(t2)
    && Relative(t1) && Relative(f2)
    && |ps1| == |ps2| >= 2
    && ps1[0] == Pattern(BackslashJoin(f1), JoinSegs(t1))
    && ps1[1] == Pattern(JoinSegs(f2), JoinSegs(["..", BackslashJoin(t2)]))
    && ps2[0] == Pattern(JoinSegs(f1), JoinSegs(t1))
    && ps2[1] == Pattern(JoinSegs(f2), JoinSegs([".."] + t2))
    && forall i :: 2 <= i < |ps1| ==> ps1[i] == ps2[i]
  }

  /** Backslash-free words form a normal relative path. */
  lemma WordsRelative(ws: seq<string>)
    requires ws != [] && Words(ws)
    ensures Relative(ws)
  {
  }

  /** `dist\index.html` and `dist/index.html` normalise to the same rule. */
  lemma BackslashFromNormalizes(f: seq<string>, to: string)
    requires f != [] && Words(f)
    ensures NormalizePattern(Pattern(BackslashJoin(f), to)) == NormalizePattern(Pattern(JoinSegs(f), to))
  {
    BackslashSpelling(f);
    WordsRelative(f);
    JoinSegsAvoid(f, Backslash);
    NormalizePathJoined(f);
  }

  /** `../be\public\libs` and `../be/public/libs` normalise to the same rule. */
  lemma BackslashToNormalizes(from: string, t: seq<string>)
    requires t != [] && Words(t)
    ensures NormalizePattern(Pattern(from, JoinSegs(["..", BackslashJoin(t)])))
         == NormalizePattern(Pattern(from, JoinSegs([".."] + t)))
  {
    BackslashSpellingUp(t);
    var up := [".."] + t;
    assert Clean(up, true) by {
      forall i | 0 <= i < |up|
        ensures ValidPiece(up[i]) && up[i] != "." && (up[i] == ".." ==> forall j :: 0 <= j < i ==> up[j] == "..")
      {
        if i > 0 { assert up[i] == t[i - 1]; }
      }
    }
    JoinSegsAvoid(up, Backslash);
    NormalizePathJoined(up);
  }

  lemma BackslashRulesNormalize(ps1: seq<Pattern>, ps2: seq<Pattern>,
                                f1: seq<string>, t1: seq<string>, f2: seq<string>, t2: seq<string>)
    requires BackslashSetting(ps1, ps2, f1, t1, f2, t2)
    ensures NormalizePatterns(ps1) == NormalizePatterns(ps2)
  {
    forall i | 0 <= i < |ps1|
      ensures NormalizePattern(ps1[i]) == NormalizePattern(ps2[i])
    {
      if i == 0 {
        BackslashFromNormalizes(f1, JoinSegs(t1));
      } else if i == 1 {
        BackslashToNormalizes(JoinSegs(f2), t2);
      }
    }
    SameNormalForms(ps1, ps2);
  }

  /** The backslash test: the spelling of the rules does not change the relocated assets. */
  lemma BackslashRulesMoveAlike<C>(dir: string, ps1: seq<Pattern>, ps2: seq<Pattern>,
                                   f1: seq<string>, t1: seq<string>, f2: seq<string>, t2: seq<string>,
                                   context: string, assets: map<string, C>, keys: seq<string>)
    requires BackslashSetting(ps1, ps2, f1, t1, f2, t2)
    requires Snapshot(assets, keys)
    ensures Emit(Config(dir, ps1), context, assets, keys).assets == Emit(Config(dir, ps2), context, assets, keys).assets
    ensures IntendedEmit(Config(dir, ps1), context, assets, keys) == IntendedEmit(Config(dir, ps2), context, assets, keys)
  {
    BackslashRulesNormalize(ps1, ps2, f1, t1, f2, t2);
    SameRulesSameAssets(Config(dir, ps1), Config(dir, ps2), context, assets, keys);
    IntendedEmitSpellingFree(Config(dir, ps1), Config(dir, ps2), context, assets, keys);
  }

  // ---------------------------------------------------------------------
  // The raw cleanup target
  // ---------------------------------------------------------------------

  /** `path.join(c, '../w')` is `w` for a word `c` and a piece `w`. */
  lemma JoinUpOne(c: string, w: string)
    requires Word(c) && ValidPiece(w) && w != "." && w != ".."
    ensures Join(c, JoinSegs(["..", w])) == w
  {
    var xs := [c, "..", w];
    assert c + [Sep] + JoinSegs(["..", w]) == JoinSegs(xs);
    PiecesOfJoin(xs);
    JoinSegsEnds(xs);
    assert xs[..2] == [c, ".."] && [c, ".."][..1] == [c] && [c][..0] == [];
    assert Resolve([c], true) == [c];
    assert Resolve([c, ".."], true) == [];
    assert Resolve(xs, true) == [w];
    RenderRelative([w]);
  }

  /**
   * As written, the cleanup of a rule whose `to` is `../w1\w2...` removes
   * the single piece `w1\w2...` under the context's parent, a name that
   * still holds a backslash, while the assets move under `w1/w2/...`.
   */
  lemma RawCleanupKeepsBackslash(c: string, from: string, ws: seq<string>)
    requires Word(c) && |ws| > 1 && Words(ws)
    ensures CleanupTargets(c, [Pattern(from, JoinSegs(["..", BackslashJoin(ws)]))]) == [BackslashJoin(ws)]
    ensures Backslash in BackslashJoin(ws)
    ensures NormalizePattern(Pattern(from, JoinSegs(["..", BackslashJoin(ws)]))).to == JoinSegs([".."] + ws)
  {
    BackslashJoinPiece(ws);
    JoinUpOne(c, BackslashJoin(ws));
    BackslashJoinHasBackslash(ws);
    BackslashSpellingUp(ws);
  }

  /** The intended cleanup never names a path with a backslash when the context has none. */
  lemma IntendedCleanupNoBackslash(context: string, ps: seq<Pattern>)
    requires Backslash !in context
    ensures forall i :: 0 <= i < |ps| ==> Backslash !in IntendedCleanupTargets(context, ps)[i]
  {
    forall i | 0 <= i < |ps|
      ensures Backslash !in IntendedCleanupTargets(context, ps)[i]
    {
      var to := NormalizePath(ps[i].to);
      if context != [] && to != [] {
        NormalizeAvoid(context + [Sep] + to, Backslash);
      } else if context != [] {
        NormalizeAvoid(context, Backslash);
      } else if to != [] {
        NormalizeAvoid(to, Backslash);
      }
    }
  }
}
