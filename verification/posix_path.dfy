/**
 * Node's POSIX `path.normalize` and `path.join`, and the plugin's
 * `normalizePath`, which normalises first and only then turns every
 * backslash into a forward slash.
 *
 * A path is read as a list of pieces between `/` separators.  Empty pieces
 * and `.` are dropped and `x/..` is folded; a relative path keeps leading
 * `..`, an absolute one drops `..` at the root.  The leading and trailing
 * separators are remembered and put back.  Under POSIX a backslash is an
 * ordinary character.
 */
module PosixPath {

  const Sep: char := '/'
  const Backslash: char := '\\'

  /** A piece that can occur between two separators of a normalised path. */
  predicate ValidPiece(x: string) {
    x != [] && Sep !in x
  }

  /**
   * A normal segment list: every piece is valid and not `.`; `..` occurs
   * only when climbing above the start is allowed, and then only in a
   * leading run of `..` pieces.
   */
  predicate Clean(xs: seq<string>, aboveRoot: bool) {
    forall i :: 0 <= i < |xs| ==>
      && ValidPiece(xs[i])
      && xs[i] != "."
      && (xs[i] == ".." ==> aboveRoot && forall j :: 0 <= j < i ==> xs[j] == "..")
  }

  /** The non-empty pieces of `s` between separators; `acc` is the piece read so far. */
  function Pieces(s: string, acc: string): seq<string>
    decreases |s|
  {
    if s == [] then (if acc == [] then [] else [acc])
    else if s[0] == Sep then (if acc == [] then [] else [acc]) + Pieces(s[1..], [])
    else Pieces(s[1..], acc + [s[0]])
  }

  function Segments(s: string): seq<string>
  {
    Pieces(s, [])
  }

  /** Pieces joined by single separators. */
  function JoinSegs(xs: seq<string>): string
  {
    if |xs| == 0 then []
    else if |xs| == 1 then xs[0]
    else xs[0] + [Sep] + JoinSegs(xs[1..])
  }

  /** One step of the segment stack of `normalizeString`. */
  function Push(stack: seq<string>, seg: string, aboveRoot: bool): seq<string>
  {
    if seg == [] || seg == "." then stack
    else if seg == ".." then
      if |stack| > 0 && stack[|stack| - 1] != ".." then stack[..|stack| - 1]
      else if aboveRoot then stack + [".."]
      else stack
    else stack + [seg]
  }

  /** Folds the segment list from left to right through `Push`. */
  function Resolve(segs: seq<string>, aboveRoot: bool): seq<string>
    decreases |segs|
  {
    if segs == [] then []
    else Push(Resolve(segs[..|segs| - 1], aboveRoot), segs[|segs| - 1], aboveRoot)
  }

  /** Puts the leading and trailing separators back around a segment list. */
  function Render(xs: seq<string>, absolute: bool, trailing: bool): string
  {
    if xs == [] then (if absolute then "/" else if trailing then "./" else ".")
    else (if absolute then "/" else "") + JoinSegs(xs) + (if trailing then "/" else "")
  }

  /** Node's `path.posix.normalize`. */
  function Normalize(p: string): string
  {
    if p == [] then "."
    else
      var absolute := p[0] == Sep;
      Render(Resolve(Segments(p), !absolute), absolute, p[|p| - 1] == Sep)
  }

  /** Node's `path.posix.join` of two arguments: empty arguments are skipped. */
  function Join(a: string, b: string): string
  {
    if a == [] && b == [] then "."
    else if a == [] then Normalize(b)
    else if b == [] then Normalize(a)
    else Normalize(a + [Sep] + b)
  }

  /** `String.prototype.replace(/\\/g, '/')`. */
  function ToForwardSlashes(s: string): (r: string)
    ensures |r| == |s|
    ensures forall i :: 0 <= i < |s| ==> r[i] == (if s[i] == Backslash then Sep else s[i])
  {
    if s == [] then [] else [if s[0] == Backslash then Sep else s[0]] + ToForwardSlashes(s[1..])
  }

  /** The plugin's `normalizePath`: normalise, then unify separators. */
  function NormalizePath(p: string): (r: string)
    ensures Backslash !in r
  {
    ToForwardSlashes(Normalize(p))
  }

  // ---------------------------------------------------------------------
  // Splitting and joining
  // ---------------------------------------------------------------------

  /** A separator-free word is simply accumulated. */
  lemma {:induction false} PiecesWord(w: string, s: string, acc: string)
    requires Sep !in w && Sep !in acc
    ensures Pieces(w + s, acc) == Pieces(s, acc + w)
    decreases |w|
  {
    if w != [] {
      assert (w + s)[0] == w[0] && (w + s)[1..] == w[1..] + s;
      PiecesWord(w[1..], s, acc + [w[0]]);
      assert acc + [w[0]] + w[1..] == acc + w;
    } else {
      assert w + s == s && acc + w == acc;
    }
  }

  /** A trailing separator adds no piece. */
  lemma {:induction false} PiecesTrailing(s: string, acc: string)
    requires Sep !in acc
    ensures Pieces(s + [Sep], acc) == Pieces(s, acc)
    decreases |s|
  {
    if s == [] {
      assert [] + [Sep] == [Sep];
      assert [Sep][1..] == [];
    } else {
      assert (s + [Sep])[0] == s[0] && (s + [Sep])[1..] == s[1..] + [Sep];
      if s[0] == Sep {
        PiecesTrailing(s[1..], []);
      } else {
        PiecesTrailing(s[1..], acc + [s[0]]);
      }
    }
  }

  /** A leading separator adds no piece. */
  lemma PiecesLeading(s: string)
    ensures Pieces([Sep] + s, []) == Pieces(s, [])
  {
    assert ([Sep] + s)[1..] == s;
  }

  /** A valid piece followed by a separator is split off. */
  lemma PiecesHead(w: string, s: string)
    requires ValidPiece(w)
    ensures Pieces(w + [Sep] + s, []) == [w] + Pieces(s, [])
  {
    PiecesWord(w, [Sep] + s, []);
    assert w + [Sep] + s == w + ([Sep] + s);
    assert [] + w == w;
    assert ([Sep] + s)[0] == Sep && ([Sep] + s)[1..] == s;
  }

  /** Splitting undoes joining for valid pieces. */
  lemma {:induction false} PiecesOfJoin(xs: seq<string>)
    requires forall i :: 0 <= i < |xs| ==> ValidPiece(xs[i])
    ensures Segments(JoinSegs(xs)) == xs
    decreases |xs|
  {
    if |xs| == 1 {
      PiecesWord(xs[0], [], []);
      assert xs[0] + [] == xs[0];
      assert [] + xs[0] == xs[0];
      assert [xs[0]] == xs;
    } else if |xs| > 1 {
      PiecesOfJoin(xs[1..]);
      PiecesHead(xs[0], JoinSegs(xs[1..]));
      assert [xs[0]] + xs[1..] == xs;
    }
  }

  /** A joined non-empty list of valid pieces neither starts nor ends with a separator. */
  lemma {:induction false} JoinSegsEnds(xs: seq<string>)
    requires |xs| > 0
    requires forall i :: 0 <= i < |xs| ==> ValidPiece(xs[i])
    ensures |JoinSegs(xs)| > 0
    ensures JoinSegs(xs)[0] != Sep && JoinSegs(xs)[|JoinSegs(xs)| - 1] != Sep
    decreases |xs|
  {
    if |xs| > 1 {
      JoinSegsEnds(xs[1..]);
      var t := JoinSegs(xs[1..]);
      assert JoinSegs(xs) == xs[0] + [Sep] + t;
      assert xs[0][0] in xs[0];
      assert t[|t| - 1] in t;
    } else {
      assert xs[0][0] in xs[0];
      assert xs[0][|xs[0]| - 1] in xs[0];
    }
  }

  /** Joining a concatenation puts one separator between the two joins. */
  lemma {:induction false} JoinSegsAppend(xs: seq<string>, ys: seq<string>)
    requires |xs| > 0 && |ys| > 0
    ensures JoinSegs(xs + ys) == JoinSegs(xs) + [Sep] + JoinSegs(ys)
    decreases |xs|
  {
    if |xs| == 1 {
      assert (xs + ys)[0] == xs[0] && (xs + ys)[1..] == ys;
    } else {
      JoinSegsAppend(xs[1..], ys);
      assert (xs + ys)[0] == xs[0] && (xs + ys)[1..] == xs[1..] + ys;
    }
  }

  /** Every piece is non-empty and free of separators. */
  lemma {:induction false} PiecesValid(s: string, acc: string)
    requires Sep !in acc
    ensures forall i :: 0 <= i < |Pieces(s, acc)| ==> ValidPiece(Pieces(s, acc)[i])
    decreases |s|
  {
    if s != [] {
      if s[0] == Sep {
        PiecesValid(s[1..], []);
      } else {
        PiecesValid(s[1..], acc + [s[0]]);
      }
    }
  }

  /**
   * The segment stack yields a normal list, and every piece it keeps is
   * `..` or one of its input pieces.
   */
  lemma {:induction false} ResolveOutput(segs: seq<string>, aboveRoot: bool)
    requires forall i :: 0 <= i < |segs| ==> Sep !in segs[i]
    ensures Clean(Resolve(segs, aboveRoot), aboveRoot)
    ensures forall i :: 0 <= i < |Resolve(segs, aboveRoot)| ==>
      Resolve(segs, aboveRoot)[i] == ".." || Resolve(segs, aboveRoot)[i] in segs
    decreases |segs|
  {
    if segs != [] {
      var init := segs[..|segs| - 1];
      var seg := segs[|segs| - 1];
      ResolveOutput(init, aboveRoot);
      var stack := Resolve(init, aboveRoot);
      assert forall i :: 0 <= i < |init| ==> init[i] == segs[i];
      assert forall i :: 0 <= i < |stack| ==> stack[i] == ".." || stack[i] in segs;
      if seg == ".." && |stack| > 0 && stack[|stack| - 1] != ".." {
        assert forall i :: 0 <= i < |stack| - 1 ==> stack[..|stack| - 1][i] == stack[i];
      }
    }
  }

  // ---------------------------------------------------------------------
  // Normal forms and idempotence
  // ---------------------------------------------------------------------

  /** The segment stack leaves a normal list unchanged. */
  lemma {:induction false} ResolveClean(xs: seq<string>, aboveRoot: bool)
    requires Clean(xs, aboveRoot)
    ensures Resolve(xs, aboveRoot) == xs
    decreases |xs|
  {
    if xs != [] {
      var init := xs[..|xs| - 1];
      var last := xs[|xs| - 1];
      assert Clean(init, aboveRoot);
      ResolveClean(init, aboveRoot);
      assert init + [last] == xs;
      if last == ".." && |init| > 0 {
        assert init[|init| - 1] == xs[|xs| - 2];
      }
    }
  }

  /** A rendered normal list is a fixed point of `Normalize`. */
  lemma RenderCanonical(xs: seq<string>, absolute: bool, trailing: bool)
    requires Clean(xs, !absolute)
    ensures Normalize(Render(xs, absolute, trailing)) == Render(xs, absolute, trailing)
  {
    var q := Render(xs, absolute, trailing);
    if xs == [] {
      if absolute {
        assert q == [Sep];
        assert Pieces(q, []) == [] + Pieces([], []);
      } else if trailing {
        assert q == ['.', Sep];
        assert q[1..] == [Sep];
        assert [] + [q[0]] == ['.'];
        assert Pieces(q, []) == Pieces([Sep], ['.']);
        assert Pieces([Sep], ['.']) == [['.']] + Pieces([], []);
      } else {
        assert q == ['.'];
        assert q[1..] == [] && [] + [q[0]] == ['.'];
        assert Pieces(q, []) == Pieces([], ['.']);
      }
      assert Segments(q) == [] || Segments(q) == ["."];
      assert Resolve(Segments(q), !absolute) == [];
    } else {
      var j := JoinSegs(xs);
      JoinSegsEnds(xs);
      PiecesOfJoin(xs);
      var a: string := if absolute then "/" else "";
      var t: string := if trailing then "/" else "";
      assert q == a + j + t;
      if trailing {
        PiecesTrailing(a + j, []);
        assert q == (a + j) + [Sep];
      } else {
        assert q == a + j;
      }
      assert Segments(q) == Segments(a + j);
      if absolute {
        PiecesLeading(j);
        assert a + j == [Sep] + j;
      } else {
        assert a + j == j;
      }
      assert Segments(q) == xs;
      ResolveClean(xs, !absolute);
      assert q[0] == Sep <==> absolute;
      assert q[|q| - 1] == Sep <==> trailing;
    }
  }

  /** `path.normalize` is idempotent. */
  lemma NormalizeIdempotent(p: string)
    ensures Normalize(Normalize(p)) == Normalize(p)
  {
    if p == [] {
      RenderCanonical([], false, false);
    } else {
      var absolute := p[0] == Sep;
      PiecesValid(p, []);
      ResolveOutput(Segments(p), !absolute);
      RenderCanonical(Resolve(Segments(p), !absolute), absolute, p[|p| - 1] == Sep);
    }
  }

  // ---------------------------------------------------------------------
  // Characters and separator unification
  // ---------------------------------------------------------------------

  /** A character absent from the input is absent from every piece. */
  lemma {:induction false} PiecesAvoid(s: string, acc: string, c: char)
    requires Sep !in acc && c !in s && c !in acc
    ensures forall i :: 0 <= i < |Pieces(s, acc)| ==> c !in Pieces(s, acc)[i]
    decreases |s|
  {
    if s != [] {
      assert s[0] in s;
      assert forall x :: x in s[1..] ==> x in s;
      if s[0] == Sep {
        PiecesAvoid(s[1..], [], c);
      } else {
        PiecesAvoid(s[1..], acc + [s[0]], c);
      }
    }
  }

  /** Joining adds only separators. */
  lemma {:induction false} JoinSegsAvoid(xs: seq<string>, c: char)
    requires c != Sep
    requires forall i :: 0 <= i < |xs| ==> c !in xs[i]
    ensures c !in JoinSegs(xs)
    decreases |xs|
  {
    if |xs| > 1 {
      JoinSegsAvoid(xs[1..], c);
    }
  }

  /** Joining drops no character of any piece. */
  lemma {:induction false} JoinSegsKeeps(xs: seq<string>, k: nat, c: char)
    requires k < |xs| && c in xs[k]
    ensures c in JoinSegs(xs)
    decreases |xs|
  {
    if |xs| > 1 {
      if k == 0 {
        assert JoinSegs(xs) == xs[0] + ([Sep] + JoinSegs(xs[1..]));
      } else {
        JoinSegsKeeps(xs[1..], k - 1, c);
        assert JoinSegs(xs) == (xs[0] + [Sep]) + JoinSegs(xs[1..]);
      }
    }
  }

  /** `Normalize` adds only `.` and `/` to the characters of its input. */
  lemma NormalizeAvoid(p: string, c: char)
    requires c !in p && c != Sep && c != '.'
    ensures c !in Normalize(p)
  {
    if p != [] {
      var segs := Segments(p);
      PiecesAvoid(p, [], c);
      PiecesValid(p, []);
      ResolveOutput(segs, p[0] != Sep);
      var xs := Resolve(segs, p[0] != Sep);
      forall i | 0 <= i < |xs|
        ensures c !in xs[i]
      {
        if xs[i] != ".." {
          assert xs[i] in segs;
          var k :| 0 <= k < |segs| && segs[k] == xs[i];
        }
      }
      JoinSegsAvoid(xs, c);
    }
  }

  /** Unifying separators leaves a backslash-free string unchanged. */
  lemma ToForwardSlashesNoBackslash(s: string)
    requires Backslash !in s
    ensures ToForwardSlashes(s) == s
  {
    var r := ToForwardSlashes(s);
    forall i | 0 <= i < |s|
      ensures r[i] == s[i]
    {
      assert s[i] in s;
    }
  }

  /** On backslash-free input `normalizePath` is `Normalize`, and so is idempotent. */
  lemma NormalizePathIdempotent(p: string)
    requires Backslash !in p
    ensures NormalizePath(p) == Normalize(p)
    ensures NormalizePath(NormalizePath(p)) == NormalizePath(p)
  {
    NormalizeAvoid(p, Backslash);
    ToForwardSlashesNoBackslash(Normalize(p));
    NormalizeIdempotent(p);
    NormalizeAvoid(Normalize(p), Backslash);
    ToForwardSlashesNoBackslash(Normalize(Normalize(p)));
  }

  /** A single piece holding backslashes is left alone by `Normalize`. */
  lemma NormalizeBackslashWord()
    ensures Normalize("a\\..\\b") == "a\\..\\b"
  {
    var w := "a\\..\\b";
    PiecesWord(w, [], []);
    assert [] + w == w && w + [] == w;
    assert Segments(w) == [w];
    assert Clean([w], true);
    ResolveClean([w], true);
  }

  /** The pieces of `a/../b`. */
  lemma SegmentsFoldExample()
    ensures Segments("a/../b") == ["a", "..", "b"]
  {
    PiecesHead("a", "../b");
    assert "a" + [Sep] + "../b" == "a/../b";
    PiecesHead("..", "b");
    assert ".." + [Sep] + "b" == "../b";
    PiecesWord("b", [], []);
    assert [] + "b" == "b" && "b" + [] == "b";
  }

  /** The segment stack folds `a`, `..`, `b` to `b`. */
  lemma ResolveFoldExample()
    ensures Resolve(["a", "..", "b"], true) == ["b"]
  {
    var segs := ["a", "..", "b"];
    assert segs[..2] == ["a", ".."] && ["a", ".."][..1] == ["a"] && ["a"][..0] == [];
    assert Resolve(["a"], true) == ["a"];
    assert Resolve(["a", ".."], true) == [];
  }

  /** `a/../b` folds to `b`. */
  lemma NormalizeFoldsDotDot()
    ensures Normalize("a/../b") == "b"
  {
    SegmentsFoldExample();
    ResolveFoldExample();
    var f := "a/../b";
    assert f[0] != Sep && f[|f| - 1] != Sep;
    assert Normalize(f) == Render(["b"], false, false);
    RenderRelative(["b"]);
  }

  /**
   * Because backslashes become separators only after normalising, a `..`
   * written between backslashes is not folded: `a\..\b` becomes `a/../b`,
   * which a second pass folds to `b`.
   */
  lemma BackslashDotDotNotFolded()
    ensures NormalizePath("a\\..\\b") == "a/../b"
    ensures NormalizePath(NormalizePath("a\\..\\b")) == "b"
  {
    NormalizeBackslashWord();
    assert ToForwardSlashes("a\\..\\b") == "a/../b";
    NormalizeFoldsDotDot();
    ToForwardSlashesNoBackslash("b");
  }

  // ---------------------------------------------------------------------
  // Joining normal relative paths
  // ---------------------------------------------------------------------

  /** A joined normal relative list is already normal. */
  lemma NormalizeJoined(xs: seq<string>)
    requires xs != [] && Clean(xs, true)
    ensures Normalize(JoinSegs(xs)) == JoinSegs(xs)
  {
    RenderCanonical(xs, false, false);
    RenderRelative(xs);
  }

  /** Without leading or trailing separator a non-empty list renders as its join. */
  lemma RenderRelative(xs: seq<string>)
    requires xs != []
    ensures Render(xs, false, false) == JoinSegs(xs)
  {
    var j := JoinSegs(xs);
    assert "" + j + "" == j;
  }

  /** `path.join` of two normal relative paths whose concatenation is normal. */
  lemma JoinJoined(xs: seq<string>, ys: seq<string>)
    requires xs != [] && ys != [] && Clean(xs + ys, true)
    ensures Join(JoinSegs(xs), JoinSegs(ys)) == JoinSegs(xs + ys)
  {
    assert forall i :: 0 <= i < |xs| ==> xs[i] == (xs + ys)[i];
    assert forall i :: 0 <= i < |ys| ==> ys[i] == (xs + ys)[|xs| + i];
    JoinSegsEnds(xs);
    JoinSegsEnds(ys);
    JoinSegsAppend(xs, ys);
    NormalizeJoined(xs + ys);
  }

  /** The pieces of `../` joined to a normal relative path. */
  lemma SegmentsParent(ys: seq<string>)
    requires ys != [] && forall i :: 0 <= i < |ys| ==> ValidPiece(ys[i])
    ensures Segments("../" + [Sep] + JoinSegs(ys)) == [".."] + ys
  {
    var j := JoinSegs(ys);
    assert "../" + [Sep] + j == ".." + [Sep] + ([Sep] + j) by {
      assert "../" == ".." + [Sep];
    }
    assert Pieces(".." + [Sep] + ([Sep] + j), []) == [".."] + Pieces([Sep] + j, []) by {
      PiecesHead("..", [Sep] + j);
    }
    assert Pieces([Sep] + j, []) == ys by {
      PiecesLeading(j);
      PiecesOfJoin(ys);
    }
  }

  /** `path.join('../', p)` for a normal relative `p` climbs one level. */
  lemma JoinParent(ys: seq<string>)
    requires ys != [] && Clean([".."] + ys, true)
    ensures Join("../", JoinSegs(ys)) == JoinSegs([".."] + ys)
  {
    var j := JoinSegs(ys);
    var zs := [".."] + ys;
    assert forall i :: 0 <= i < |ys| ==> ys[i] == zs[i + 1];
    JoinSegsEnds(ys);
    SegmentsParent(ys);
    ResolveClean(zs, true);
    var p := "../" + [Sep] + j;
    assert p[0] == '.' && p[|p| - 1] == j[|j| - 1];
    assert Normalize(p) == Render(zs, false, false);
    RenderRelative(zs);
  }

  /** `normalizePath` leaves a joined normal relative list without backslashes unchanged. */
  lemma NormalizePathJoined(xs: seq<string>)
    requires xs != [] && Clean(xs, true)
    requires Backslash !in JoinSegs(xs)
    ensures NormalizePath(JoinSegs(xs)) == JoinSegs(xs)
  {
    NormalizeJoined(xs);
    ToForwardSlashesNoBackslash(JoinSegs(xs));
  }

  /** `normalizePath` of a joined normal relative list only unifies its separators. */
  lemma NormalizePathUnifies(xs: seq<string>)
    requires xs != [] && Clean(xs, true)
    ensures NormalizePath(JoinSegs(xs)) == ToForwardSlashes(JoinSegs(xs))
  {
    NormalizeJoined(xs);
  }
}
