/** Which spaces `WPP.removeExtraSpaces` keeps at a boundary between a
    closing `)`/`}` and the next `(`/`{`. Marking replaces the spaces of
    group 2 of the boundary pattern by one `#` and repeats until nothing
    matches; stripping then deletes the unmarked white space outside
    quotes, and the marks become spaces again. The lemmas here follow the
    rounds of that loop on the shapes that decide the outcome. */
module Boundaries {
  import opened Text
  import opened Normalizer
  import opened Results

  /** Text the pattern reads through as one word: no space, opener or
      closer (a `#` left by an earlier round is allowed). */
  predicate Inert(u: string) {
    forall k :: 0 <= k < |u| ==> u[k] != ' ' && !IsOpener(u[k]) && !IsCloser(u[k])
  }

  /** A word that normalizing leaves alone: inert, with no white space
      and no `#`. */
  predicate Bare(u: string) {
    forall k :: 0 <= k < |u| ==> !IsWs(u[k]) && u[k] != '#' && !IsOpener(u[k]) && !IsCloser(u[k])
  }

  predicate Spaces(g: string) {
    forall k :: 0 <= k < |g| ==> g[k] == ' '
  }

  predicate NoCloser(p: string) {
    forall k :: 0 <= k < |p| ==> !IsCloser(p[k])
  }

  /** `n` marks. */
  function Hashes(n: nat): (r: string)
    ensures |r| == n && forall k :: 0 <= k < n ==> r[k] == '#'
  {
    seq(n, k => '#')
  }

  /** The scans of `MatchAt` end where their runs end. */
  lemma {:induction false} SpaceRunIs(t: string, i: nat, n: nat)
    requires i <= n <= |t| && (forall k :: i <= k < n ==> t[k] == ' ')
    requires n < |t| ==> t[n] != ' '
    ensures SpaceRun(t, i) == n
    decreases n - i
  {
    if i < n {
      SpaceRunIs(t, i + 1, n);
    }
  }

  lemma {:induction false} WordRunIs(t: string, i: nat, n: nat)
    requires i <= n <= |t| && (forall k :: i <= k < n ==> !IsOpener(t[k]) && t[k] != ' ')
    requires n < |t| ==> IsOpener(t[n]) || t[n] == ' '
    ensures WordRun(t, i) == n
    decreases n - i
  {
    if i < n {
      WordRunIs(t, i + 1, n);
    }
  }

  lemma {:induction false} FindOpenerIs(t: string, i: nat, n: nat)
    requires i <= n < |t| && IsOpener(t[n]) && forall k :: i <= k < n ==> !IsOpener(t[k])
    ensures FindOpener(t, i) == Some(n)
    decreases n - i
  {
    if i < n {
      FindOpenerIs(t, i + 1, n);
    }
  }

  // ---------------------------------------------------------------------
  // One round of the global replace
  // ---------------------------------------------------------------------

  /** Where no match starts, the replace copies the first character and
      goes on with the rest. */
  lemma {:induction false} ReplaceAllSkip(t: string)
    requires |t| > 0 && !(IsCloser(t[0]) && MatchAt(t).Some?)
    ensures ReplaceAll(t) == ([t[0]] + ReplaceAll(t[1..]).0, ReplaceAll(t[1..]).1)
  {
    var rest := ReplaceAll(t[1..]);
    if !rest.1 {
      assert [t[0]] + t[1..] == t;
    }
  }

  /** Where a match starts, the replace writes `#` for its group 2 and
      goes on after the match. */
  lemma {:induction false} ReplaceAllHit(t: string, h: Hit)
    requires |t| > 0 && IsCloser(t[0]) && MatchAt(t) == Some(h)
    ensures h.head <= h.tail <= h.end <= |t|
    ensures ReplaceAll(t) == (t[..h.head] + "#" + t[h.tail..h.end] + ReplaceAll(t[h.end..]).0, true)
  {
  }

  lemma {:induction false} ConsSplit(p: string, y: string)
    requires |p| > 0
    ensures [p[0]] + (p[1..] + y) == p + y
  {
    assert [p[0]] + p[1..] == p;
  }

  /** Text without a closer holds no match and passes through the
      replace, which then works on what follows. */
  lemma {:induction false} ReplaceAllFree(p: string, x: string)
    requires NoCloser(p)
    ensures ReplaceAll(p + x) == (p + ReplaceAll(x).0, ReplaceAll(x).1)
    decreases |p|
  {
    if |p| == 0 {
      assert p + x == x;
      assert p + ReplaceAll(x).0 == ReplaceAll(x).0;
    } else {
      ConsSplit(p, x);
      ReplaceAllCons(p[0], p[1..] + x);
      ReplaceAllFree(p[1..], x);
      ConsSplit(p, ReplaceAll(x).0);
    }
  }

  lemma {:induction false} ReplaceAllCons(c: char, x: string)
    requires !IsCloser(c)
    ensures ReplaceAll([c] + x) == ([c] + ReplaceAll(x).0, ReplaceAll(x).1)
  {
    var t := [c] + x;
    assert t[0] == c && t[1..] == x;
    ReplaceAllSkip(t);
  }

  lemma {:induction false} Regroup(u: string, y: string)
    ensures [')'] + ((u + "(") + y) == ")" + u + "(" + y
  {
  }

  lemma {:induction false} Regroup3(a: string, u: string, y: string)
    ensures a + "#" + (u + "(") + y == a + "#" + u + "(" + y
  {
  }

  /** The four pieces of a text are its slices. */
  lemma {:induction false} Cut4(a: string, b: string, c: string, d: string)
    ensures var t := a + b + c + d;
      && t[..|a|] == a && t[|a|..|a| + |b|] == b
      && t[|a| + |b|..|a| + |b| + |c|] == c && t[|a| + |b| + |c|..] == d
  {
  }

  /** `)` followed directly by an inert word and an opener is no match:
      with no space before or after the word there is no group 2. */
  lemma {:induction false} MatchInert(u: string, x: string)
    requires Inert(u)
    ensures var t := ")" + u + "(" + x;
      t[0] == ')' && MatchAt(t).None? && t[1..] == (u + "(") + x && NoCloser(u + "(")
  {
    var t := ")" + u + "(" + x;
    assert t[1 + |u|] == '(';
    assert forall k :: 1 <= k < 1 + |u| ==> t[k] == u[k - 1];
    SpaceRunIs(t, 1, 1);
    WordRunIs(t, 1, 1 + |u|);
    assert forall k :: 0 <= k < |u| ==> (u + "(")[k] == u[k];
  }

  lemma {:induction false} ReplaceAllInert(u: string, x: string)
    requires Inert(u)
    ensures ReplaceAll(")" + u + "(" + x) == (")" + u + "(" + ReplaceAll(x).0, ReplaceAll(x).1)
  {
    var t := ")" + u + "(" + x;
    MatchInert(u, x);
    ReplaceAllSkip(t);
    ReplaceAllFree(u + "(", x);
    Regroup(u, ReplaceAll(x).0);
  }

  /** Spaces between `)` and an inert word that an opener ends: the
      pattern gives back the last of these spaces to group 2, so exactly
      that space becomes `#`. */
  lemma {:induction false} RunText(s1: string, w: string, g: string, v: string, x: string)
    ensures ")" + s1 + w + g + v + "(" + x == (")" + s1 + w) + g + (v + "(") + x
  {
  }

  lemma {:induction false} MatchGive(s1: string, u: string, x: string)
    requires Spaces(s1) && Inert(u)
    ensures var t := (")" + s1) + " " + (u + "(") + x;
      MatchAt(t) == Some(Hit(1 + |s1|, 2 + |s1|, 3 + |s1| + |u|))
  {
    var t := (")" + s1) + " " + (u + "(") + x;
    var n := 2 + |s1|;
    assert forall k :: 1 <= k < n ==> t[k] == ' ';
    assert forall k :: n <= k < n + |u| ==> t[k] == u[k - n];
    assert t[n + |u|] == '(';
    SpaceRunIs(t, 1, n);
    WordRunIs(t, n, n + |u|);
  }

  lemma {:induction false} ReplaceAllGive(s1: string, u: string, x: string)
    requires Spaces(s1) && Inert(u)
    ensures ReplaceAll(")" + s1 + " " + u + "(" + x)
         == (")" + s1 + "#" + u + "(" + ReplaceAll(x).0, true)
  {
    var a, c := ")" + s1, u + "(";
    var t := a + " " + c + x;
    assert ")" + s1 + " " + u + "(" + x == t;
    Cut4(a, " ", c, x);
    MatchGive(s1, u, x);
    var h := Hit(1 + |s1|, 2 + |s1|, 3 + |s1| + |u|);
    ReplaceAllHit(t, h);
    Regroup3(")" + s1, u, ReplaceAll(x).0);
  }

  lemma {:induction false} MatchRun(s1: string, w: string, g: string, v: string, x: string)
    requires Spaces(s1) && Inert(w) && |w| > 0 && Spaces(g) && |g| > 0 && Inert(v)
    ensures var t := (")" + s1 + w) + g + (v + "(") + x;
      var m := 1 + |s1| + |w|;
      MatchAt(t) == Some(Hit(m, m + |g|, m + |g| + |v| + 1))
  {
    var t := (")" + s1 + w) + g + (v + "(") + x;
    var n := 1 + |s1|;
    var m := n + |w|;
    var b := m + |g|;
    assert forall k :: 1 <= k < n ==> t[k] == ' ';
    assert forall k :: n <= k < m ==> t[k] == w[k - n];
    assert forall k :: m <= k < b ==> t[k] == ' ';
    assert forall k :: b <= k < b + |v| ==> t[k] == v[k - b];
    assert t[b + |v|] == '(';
    SpaceRunIs(t, 1, n);
    WordRunIs(t, n, m);
    SpaceRunIs(t, m, b);
    FindOpenerIs(t, b, b + |v|);
  }

  /** A space run after a non-empty inert word, with an inert word and an
      opener after it: the whole run is group 2 and becomes one `#`. */
  lemma {:induction false} ReplaceAllRun(s1: string, w: string, g: string, v: string, x: string)
    requires Spaces(s1) && Inert(w) && |w| > 0 && Spaces(g) && |g| > 0 && Inert(v)
    ensures ReplaceAll(")" + s1 + w + g + v + "(" + x)
         == (")" + s1 + w + "#" + v + "(" + ReplaceAll(x).0, true)
  {
    var a, c := ")" + s1 + w, v + "(";
    var t := a + g + c + x;
    RunText(s1, w, g, v, x);
    Cut4(a, g, c, x);
    MatchRun(s1, w, g, v, x);
    var m := |a|;
    var h := Hit(m, m + |g|, m + |g| + |v| + 1);
    ReplaceAllHit(t, h);
    Regroup3(a, v, ReplaceAll(x).0);
  }

  // ---------------------------------------------------------------------
  // The marking loop
  // ---------------------------------------------------------------------

  /** Whatever a round does to `x` is invisible to the loop's result. */
  lemma {:induction false} MarkRound(x: string)
    ensures Mark(ReplaceAll(x).0) == Mark(x)
  {
    if !ReplaceAll(x).1 {
      assert ReplaceAll(x).0 == x;
    }
  }

  /** Closer-free text is kept as it is, ahead of the marked rest. */
  lemma {:induction false} MarkFree(p: string, x: string)
    requires NoCloser(p)
    ensures Mark(p + x) == p + Mark(x)
    decreases Count(x, ' ')
  {
    ReplaceAllFree(p, x);
    var r := ReplaceAll(x);
    ReplaceAllShrinks(x);
    if r.1 {
      MarkFree(p, r.0);
      MarkRound(x);
    } else {
      assert forall q: nat :: !MatchesAt(x, q);
    }
  }

  /** A round that matched hands its result on to the next round. */
  lemma {:induction false} MarkStep(t: string, t1: string)
    requires ReplaceAll(t) == (t1, true)
    ensures Mark(t) == Mark(t1)
  {
  }

  /** `)` directly before an inert word and an opener never changes. */
  lemma {:induction false} MarkInert(u: string, x: string)
    requires Inert(u)
    ensures Mark(")" + u + "(" + x) == ")" + u + "(" + Mark(x)
    decreases Count(x, ' ')
  {
    ReplaceAllInert(u, x);
    var r := ReplaceAll(x);
    ReplaceAllShrinks(x);
    if r.1 {
      MarkInert(u, r.0);
      MarkRound(x);
    } else {
      assert forall q: nat :: !MatchesAt(x, q);
    }
  }

  lemma {:induction false} GiveText(s1: string, u: string, x: string, y: string)
    requires |s1| > 0 && s1[|s1| - 1] == ' '
    ensures ")" + s1 + u + "(" + x == ")" + s1[..|s1| - 1] + " " + u + "(" + x
    ensures ")" + s1[..|s1| - 1] + "#" + u + "(" + y == ")" + s1[..|s1| - 1] + ("#" + u) + "(" + y
  {
    assert s1 == s1[..|s1| - 1] + [s1[|s1| - 1]];
  }

  lemma {:induction false} InertMarked(s1: string, u: string)
    requires Spaces(s1) && |s1| > 0 && Inert(u)
    ensures Spaces(s1[..|s1| - 1]) && Inert("#" + u) && s1[|s1| - 1] == ' '
  {
    assert forall k :: 1 <= k < |u| + 1 ==> ("#" + u)[k] == u[k - 1];
  }

  lemma {:induction false} HashesText(s1: string, u: string, m: string)
    requires |s1| > 0
    ensures ")" + Hashes(|s1| - 1) + ("#" + u) + "(" + m == ")" + Hashes(|s1|) + u + "(" + m
  {
    assert Hashes(|s1| - 1) + "#" == Hashes(|s1|);
  }

  /** Every space between `)` and an inert word that an opener ends is
      kept: round after round the pattern gives back the last unmarked
      one, until all of them are marks. */
  lemma {:induction false} MarkKeepsSpaces(s1: string, u: string, x: string)
    requires Spaces(s1) && Inert(u)
    ensures Mark(")" + s1 + u + "(" + x) == ")" + Hashes(|s1|) + u + "(" + Mark(x)
    decreases |s1|
  {
    if |s1| == 0 {
      EmptyText(s1, u, x, Mark(x));
      MarkInert(u, x);
    } else {
      var s0 := s1[..|s1| - 1];
      var y := ReplaceAll(x).0;
      InertMarked(s1, u);
      GiveText(s1, u, x, y);
      calc {
        Mark(")" + s1 + u + "(" + x);
        Mark(")" + s0 + " " + u + "(" + x);
        { ReplaceAllGive(s0, u, x);
          MarkStep(")" + s0 + " " + u + "(" + x, ")" + s0 + "#" + u + "(" + y); }
        Mark(")" + s0 + ("#" + u) + "(" + y);
        { MarkKeepsSpaces(s0, "#" + u, y); }
        ")" + Hashes(|s0|) + ("#" + u) + "(" + Mark(y);
        { MarkRound(x); }
        ")" + Hashes(|s0|) + ("#" + u) + "(" + Mark(x);
        { HashesText(s1, u, Mark(x)); }
        ")" + Hashes(|s1|) + u + "(" + Mark(x);
      }
    }
  }

  lemma {:induction false} EmptyText(s1: string, u: string, x: string, m: string)
    requires |s1| == 0
    ensures ")" + s1 + u + "(" + x == ")" + u + "(" + x
    ensures ")" + Hashes(|s1|) + u + "(" + m == ")" + u + "(" + m
  {
    assert Hashes(0) == "";
  }

  /** A space run between two words collapses to one mark; the spaces
      before the first word are all kept. */
  lemma {:induction false} MarkCollapses(s1: string, w: string, g: string, v: string, x: string)
    requires Spaces(s1) && Inert(w) && |w| > 0 && Spaces(g) && |g| > 0 && Inert(v)
    ensures Mark(")" + s1 + w + g + v + "(" + x) == ")" + Hashes(|s1|) + w + "#" + v + "(" + Mark(x)
  {
    var y := ReplaceAll(x).0;
    InertJoin(w, v);
    calc {
      Mark(")" + s1 + w + g + v + "(" + x);
      { ReplaceAllRun(s1, w, g, v, x);
        MarkStep(")" + s1 + w + g + v + "(" + x, ")" + s1 + w + "#" + v + "(" + y); }
      Mark(")" + s1 + w + "#" + v + "(" + y);
      { CollapseText(s1, w, v, y); }
      Mark(")" + s1 + (w + "#" + v) + "(" + y);
      { MarkKeepsSpaces(s1, w + "#" + v, y); }
      ")" + Hashes(|s1|) + (w + "#" + v) + "(" + Mark(y);
      { MarkRound(x); }
      ")" + Hashes(|s1|) + (w + "#" + v) + "(" + Mark(x);
      { CollapseText(Hashes(|s1|), w, v, Mark(x)); }
      ")" + Hashes(|s1|) + w + "#" + v + "(" + Mark(x);
    }
  }

  lemma {:induction false} InertJoin(w: string, v: string)
    requires Inert(w) && Inert(v)
    ensures Inert(w + "#" + v)
  {
    var j := w + "#" + v;
    assert forall k :: 0 <= k < |w| ==> j[k] == w[k];
    assert forall k :: |w| < k < |j| ==> j[k] == v[k - |w| - 1];
  }

  lemma {:induction false} CollapseText(s1: string, w: string, v: string, y: string)
    ensures ")" + s1 + w + "#" + v + "(" + y == ")" + s1 + (w + "#" + v) + "(" + y
  {
  }

  // ---------------------------------------------------------------------
  // The whole normalizer
  // ---------------------------------------------------------------------

  lemma {:induction false} HashToSpaceConcat(a: string, b: string)
    ensures HashToSpace(a + b) == HashToSpace(a) + HashToSpace(b)
  {
  }

  /** White space cannot be stripped from text that has none. */
  lemma {:induction false} StripWsVisible(q: string, z: string)
    requires forall k :: 0 <= k < |q| ==> !IsWs(q[k])
    ensures StripWs(q + z) == q + StripWs(z)
    decreases |q|
  {
    if |q| > 0 {
      StripWsVisible(q[1..], z);
      StripKeepsVisible(q[0], q[1..] + z);
      assert q + z == [q[0]] + (q[1..] + z);
      assert [q[0]] + q[1..] == q;
    } else {
      assert q + z == z;
    }
  }

  /** A prefix without line breaks that marking turns into `q`, free of
      white space, ahead of marking the rest, comes out of the normalizer
      as `q` with its marks turned into spaces. */
  lemma {:induction false} NormalizeFrame(p: string, q: string, rest: string)
    requires forall k :: 0 <= k < |p| ==> p[k] != '\r' && p[k] != '\n'
    requires forall k :: 0 <= k < |q| ==> !IsWs(q[k])
    requires Mark(p + Remove(rest, {'\r', '\n'})) == q + Mark(Remove(rest, {'\r', '\n'}))
    ensures Normalize(p + rest) == HashToSpace(q) + Normalize(rest)
  {
    BreaksFrame(p, rest);
    FinishFrame(q, Mark(Remove(rest, {'\r', '\n'})));
  }

  lemma {:induction false} BreaksFrame(p: string, rest: string)
    requires forall k :: 0 <= k < |p| ==> p[k] != '\r' && p[k] != '\n'
    ensures Remove(p + rest, {'\r', '\n'}) == p + Remove(rest, {'\r', '\n'})
  {
    var breaks := {'\r', '\n'};
    RemoveConcat(p, rest, breaks);
    RemoveNothing(p, breaks);
  }

  lemma {:induction false} FinishFrame(q: string, m: string)
    requires forall k :: 0 <= k < |q| ==> !IsWs(q[k])
    ensures Finish(q + m) == HashToSpace(q) + Finish(m)
  {
    var cr := {'\r'};
    RemoveConcat(q, m, cr);
    RemoveNothing(q, cr);
    StripWsVisible(q, Remove(m, cr));
    HashToSpaceConcat(q, StripWs(Remove(m, cr)));
  }

  /** Closer-free text without white space or `#` passes through the
      normalizer unchanged. */
  lemma {:induction false} NormalizeFree(p: string, rest: string)
    requires NoCloser(p)
    requires forall k :: 0 <= k < |p| ==> !IsWs(p[k])
    ensures Normalize(p + rest) == HashToSpace(p) + Normalize(rest)
  {
    MarkFree(p, Remove(rest, {'\r', '\n'}));
    NormalizeFrame(p, p, rest);
  }

  /** The spaces between `)` and the next attribute name are all kept,
      however many there are: one space, as written by `stringify`,
      stays one space, and two stay two. */
  lemma {:induction false} NormalizeKeepsBoundary(s1: string, u: string, rest: string)
    requires Spaces(s1) && Bare(u)
    ensures Normalize(")" + s1 + u + "(" + rest) == ")" + s1 + u + "(" + Normalize(rest)
  {
    var x := Remove(rest, {'\r', '\n'});
    BoundaryTexts(s1, u, "", "");
    MarkKeepsSpaces(s1, u, x);
    NormalizeFrame(")" + s1 + u + "(", ")" + Hashes(|s1|) + u + "(", rest);
  }

  /** Spaces between two words before an opener collapse to a single
      space, while those after the `)` are kept. */
  lemma {:induction false} NormalizeCollapses(s1: string, w: string, g: string, v: string, rest: string)
    requires Spaces(s1) && Bare(w) && |w| > 0 && Spaces(g) && |g| > 0 && Bare(v)
    ensures Normalize(")" + s1 + w + g + v + "(" + rest) == ")" + s1 + w + " " + v + "(" + Normalize(rest)
  {
    var x := Remove(rest, {'\r', '\n'});
    BoundaryTexts(s1, w, g, v);
    MarkCollapses(s1, w, g, v, x);
    NormalizeFrame(")" + s1 + w + g + v + "(", ")" + Hashes(|s1|) + w + "#" + v + "(", rest);
  }

  /** The texts of the two lemmas above, before and after marking. */
  lemma {:induction false} BoundaryTexts(s1: string, w: string, g: string, v: string)
    requires Spaces(s1) && Bare(w) && Spaces(g) && Bare(v)
    ensures var p := ")" + s1 + w + g + v + "(";
      forall k :: 0 <= k < |p| ==> p[k] != '\r' && p[k] != '\n'
    ensures var q := ")" + Hashes(|s1|) + w + "#" + v + "(";
      (forall k :: 0 <= k < |q| ==> !IsWs(q[k])) && HashToSpace(q) == ")" + s1 + w + " " + v + "("
    ensures |g| == 0 && |v| == 0 ==> ")" + s1 + w + g + v + "(" == ")" + s1 + w + "("
    ensures |v| == 0 ==> var q := ")" + Hashes(|s1|) + w + "(";
      (forall k :: 0 <= k < |q| ==> !IsWs(q[k])) && HashToSpace(q) == ")" + s1 + w + "("
  {
  }

  lemma {:induction false} NormalizeEmpty()
    ensures Normalize("") == ""
  {
    assert Remove("", {'\r', '\n'}) == "";
    assert forall q: nat :: !MatchesAt("", q);
    assert Mark("") == "";
    assert Remove("", {'\r'}) == "";
  }

  // ---------------------------------------------------------------------
  // Consequences on particular texts
  // ---------------------------------------------------------------------

  /** Marking does not know about quotes: inside a quoted value such as
      `a)  b  c(`, the run between `b` and `c` still collapses to one
      space, while the spaces after `)` survive. */
  lemma {:induction false} CollapsesInsideQuotes(k: string, a: string, b: string, c: string, rest: string)
    requires Bare(k) && Bare(a) && Bare(b) && |b| > 0 && Bare(c)
    ensures Normalize(k + "(\"" + a + ")  " + b + "  " + c + "(" + rest)
         == k + "(\"" + a + ")  " + b + " " + c + "(" + Normalize(rest)
  {
    var p := k + "(\"" + a;
    QuotedTexts(k, a, b, c, rest);
    NormalizeCollapses("  ", b, "  ", c, rest);
    NormalizeFree(p, ")" + "  " + b + "  " + c + "(" + rest);
  }

  lemma {:induction false} QuotedTexts(k: string, a: string, b: string, c: string, rest: string)
    requires Bare(k) && Bare(a)
    ensures var p := k + "(\"" + a;
      && NoCloser(p) && (forall i :: 0 <= i < |p| ==> !IsWs(p[i])) && HashToSpace(p) == p
      && k + "(\"" + a + ")  " + b + "  " + c + "(" + rest == p + (")" + "  " + b + "  " + c + "(" + rest)
      && forall n :: p + (")" + "  " + b + " " + c + "(" + n) == k + "(\"" + a + ")  " + b + " " + c + "(" + n
  {
  }

  /** Normalizing is not idempotent: a `#` of the input becomes a space,
      which a second pass deletes. */
  lemma {:induction false} NotIdempotent(a: string, b: string)
    requires Bare(a) && Bare(b) && '"' !in b && '\\' !in b
    ensures Normalize(a + "#" + b) == a + " " + b
    ensures Normalize(a + " " + b) == a + b
  {
    NormalizeEmpty();
    HashTexts(a, b);
    NormalizeFree(a + "#" + b, "");
    NormalizeFree(a, " " + b);
    SpaceFirst(b);
  }

  lemma {:induction false} HashTexts(a: string, b: string)
    requires Bare(a) && Bare(b)
    ensures var p := a + "#" + b;
      && NoCloser(p) && (forall i :: 0 <= i < |p| ==> !IsWs(p[i]))
      && HashToSpace(p) == a + " " + b && p + "" == p
    ensures NoCloser(a) && (forall i :: 0 <= i < |a| ==> !IsWs(a[i])) && HashToSpace(a) == a
    ensures a + " " + b == a + (" " + b)
  {
  }

  /** A space in front of a word without quotes is stripped. */
  lemma {:induction false} SpaceFirst(b: string)
    requires Bare(b) && '"' !in b && '\\' !in b
    ensures Normalize(" " + b) == b
  {
    var t := " " + b;
    BreaksFrame(t, "");
    assert t + "" == t && Remove("", {'\r', '\n'}) == "";
    assert NoCloser(t);
    MarkFree(t, "");
    assert forall q: nat :: !MatchesAt("", q);
    assert Mark("") == "";
    assert Count(b, '"') == 0 by {
      CountPositive(b, '"');
    }
    StripDropsUnquotedWs(" ", b);
    StripWsPlain(b);
    RemoveNothing(t, {'\r'});
    assert HashToSpace(b) == b;
  }
}
