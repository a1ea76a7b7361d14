/** `WPP.removeExtraSpaces`: drops line breaks; then, while the boundary
    pattern matches after a closing `)` or `}`, turns the spaces of its
    second group into one `#` (which can keep several spaces after the
    closer, or collapse a run between two words, and does not look at
    quotes); then deletes white space followed by balanced quotes; and
    turns every `#` into a space. Each regular expression of the library
    is written here as a scanner over the text. */
module Normalizer {
  import opened Text
  import opened Results

  // ---------------------------------------------------------------------
  // Boundary marking: the pattern `([)}] *[^\({ ]*)( +)([^\({]*[\({])`
  // replaced by `$1#$3` until it no longer matches.
  // ---------------------------------------------------------------------

  predicate IsOpener(c: char) {
    c == '(' || c == '{'
  }

  /** End of the run of ' ' that starts at `t[i]`. */
  function SpaceRun(t: string, i: nat): (n: nat)
    requires i <= |t|
    ensures i <= n <= |t|
    ensures forall k :: i <= k < n ==> t[k] == ' '
    ensures n < |t| ==> t[n] != ' '
    decreases |t| - i
  {
    if i < |t| && t[i] == ' ' then SpaceRun(t, i + 1) else i
  }

  /** End of the run, starting at `t[i]`, of characters other than '(',
      '{' and ' '. */
  function WordRun(t: string, i: nat): (n: nat)
    requires i <= |t|
    ensures i <= n <= |t|
    ensures forall k :: i <= k < n ==> !IsOpener(t[k]) && t[k] != ' '
    ensures n < |t| ==> IsOpener(t[n]) || t[n] == ' '
    decreases |t| - i
  {
    if i < |t| && !IsOpener(t[i]) && t[i] != ' ' then WordRun(t, i + 1) else i
  }

  /** Index of the first '(' or '{' at or after `t[i]`, if any. */
  function FindOpener(t: string, i: nat): (r: Option<nat>)
    requires i <= |t|
    ensures r.None? ==> forall k :: i <= k < |t| ==> !IsOpener(t[k])
    ensures r.Some? ==> i <= r.value < |t| && IsOpener(t[r.value])
    ensures r.Some? ==> forall k :: i <= k < r.value ==> !IsOpener(t[k])
    decreases |t| - i
  {
    if i == |t| then None
    else if IsOpener(t[i]) then Some(i)
    else FindOpener(t, i + 1)
  }

  /** A match of the boundary pattern at the start of a text: the text
      `t[head..tail]` (group 2, one or more spaces) is replaced by `#`,
      and the match ends at `end`. */
  datatype Hit = Hit(head: nat, tail: nat, end: nat)

  predicate IsCloser(c: char) {
    c == ')' || c == '}'
  }

  /** The pattern matches `t[0..e]` with group 1 = `t[0..i]`, group 2 =
      `t[i..j]` and group 3 = `t[j..e]`: a closer, spaces, then a word
      free of spaces (group 1); at least one space (group 2); anything up
      to and including the first '(' or '{' (group 3). No opener can occur
      before the last character, since no part of the pattern admits one. */
  predicate PatternAt(t: string, i: nat, j: nat, e: nat) {
    && |t| > 0 && IsCloser(t[0])
    && 1 <= i < j < e <= |t|
    && (forall k :: 1 <= k < e - 1 ==> !IsOpener(t[k]))
    && IsOpener(t[e - 1])
    && (forall k :: i <= k < j ==> t[k] == ' ')
    && (forall k, l :: 1 <= k < l < i && t[k] != ' ' ==> t[l] != ' ')
  }

  /** The leftmost-first (backtracking) match of the boundary pattern
      starting at `t[0]`, which must be ')' or '}'. With `a` the end of
      the spaces after the closer and `w` the end of the following word:
      if a space follows the word, group 2 is the whole space run there
      and group 3 runs to the next '(' or '{'; otherwise the engine gives
      back the last space before the word, provided there is one and the
      word is followed by '(' or '{'. The result is a match of the pattern,
      and there is one exactly when the pattern matches at all. */
  function MatchAt(t: string): (r: Option<Hit>)
    requires |t| > 0 && IsCloser(t[0])
    ensures r.Some? ==> PatternAt(t, r.value.head, r.value.tail, r.value.end)
    ensures r.None? ==> forall i: nat, j: nat, e: nat :: !PatternAt(t, i, j, e)
  {
    var a := SpaceRun(t, 1);
    var w := WordRun(t, a);
    if w < |t| && t[w] == ' ' then
      var b := SpaceRun(t, w);
      var f := FindOpener(t, b);
      if f.Some? then
        Some(Hit(w, b, f.value + 1))
      else
        None
    else if a > 1 && w < |t| then
      Some(Hit(a - 1, a, w + 1))
    else
      PatternNeedsRoom(t);
      None
  }

  /** Any match of the boundary pattern needs the word after the closer's
      spaces to be followed by a space, or by an opener with at least one
      space before the word. */
  lemma {:induction false} PatternNeedsRoom(t: string)
    requires |t| > 0 && IsCloser(t[0])
    ensures forall i: nat, j: nat, e: nat :: PatternAt(t, i, j, e) ==>
      var a := SpaceRun(t, 1);
      var w := WordRun(t, a);
      w < |t| && (t[w] == ' ' || a > 1)
  {
    var a := SpaceRun(t, 1);
    var w := WordRun(t, a);
    forall i: nat, j: nat, e: nat | PatternAt(t, i, j, e)
      ensures w < |t| && (t[w] == ' ' || a > 1)
    {
      assert t[i] == ' ' && IsOpener(t[e - 1]);
      assert !(a <= e - 1 < w);
      assert w <= e - 1;
      assert t[w] != ' ' ==> w == e - 1;
      assert i < e - 1;
    }
  }

  /** The boundary pattern matches at position `p` of `t`. */
  predicate MatchesAt(t: string, p: nat) {
    p < |t| && IsCloser(t[p]) && MatchAt(t[p..]).Some?
  }

  /** When nothing matches at the first position, the pattern matches
      somewhere in `t` exactly when it matches somewhere in its tail. */
  lemma {:induction false} MatchesInTail(t: string)
    requires |t| > 0 && !MatchesAt(t, 0)
    ensures (exists p: nat :: MatchesAt(t, p)) <==> (exists p: nat :: MatchesAt(t[1..], p))
  {
    if exists p: nat :: MatchesAt(t, p) {
      var p: nat :| MatchesAt(t, p);
      assert p >= 1;
      assert t[p..] == t[1..][p - 1..];
      assert MatchesAt(t[1..], p - 1);
    }
    if exists p: nat :: MatchesAt(t[1..], p) {
      var p: nat :| MatchesAt(t[1..], p);
      assert t[p + 1..] == t[1..][p..];
      assert MatchesAt(t, p + 1);
    }
  }

  lemma {:induction false} SkipContent(t: string, rest: string, saved: nat)
    requires |t| > 0
    requires Remove(rest, {' ', '#'}) == Remove(t[1..], {' ', '#'})
    requires Count(rest, ' ') + saved <= Count(t[1..], ' ')
    ensures Remove([t[0]] + rest, {' ', '#'}) == Remove(t, {' ', '#'})
    ensures Count([t[0]] + rest, ' ') + saved <= Count(t, ' ')
  {
    assert t == [t[0]] + t[1..];
    RemoveConcat([t[0]], rest, {' ', '#'});
    RemoveConcat([t[0]], t[1..], {' ', '#'});
    assert multiset([t[0]] + rest) == multiset([t[0]]) + multiset(rest);
    assert multiset(t) == multiset([t[0]]) + multiset(t[1..]);
  }

  /** What replacing one match contributes: the spaces `g` of group 2
      become one `#`, so at least one space disappears and nothing but
      spaces and `#` changes. */
  lemma {:induction false} HitCount(a: string, g: string, b: string, c: string, rest: string, t: string)
    requires |g| > 0 && g[0] == ' ' && t == a + g + b + c
    requires Count(rest, ' ') <= Count(c, ' ')
    ensures Count(a + "#" + b + rest, ' ') + 1 <= Count(t, ' ')
  {
    assert multiset(a + g + b + c) == multiset(a) + multiset(g) + multiset(b) + multiset(c);
    assert multiset(a + "#" + b + rest) == multiset(a) + multiset("#") + multiset(b) + multiset(rest);
    assert g == [g[0]] + g[1..];
    assert multiset(g)[' '] >= 1;
  }

  lemma {:induction false} HitRemove(a: string, g: string, b: string, c: string, rest: string, t: string, cs: set<char>)
    requires ' ' in cs && '#' in cs
    requires forall k :: 0 <= k < |g| ==> g[k] == ' '
    requires t == a + g + b + c
    requires Remove(rest, cs) == Remove(c, cs)
    ensures Remove(a + "#" + b + rest, cs) == Remove(t, cs)
  {
    RemoveAll(g, cs);
    RemoveAll("#", cs);
    RemoveConcat(a + g + b, c, cs);
    RemoveConcat(a + g, b, cs);
    RemoveConcat(a, g, cs);
    RemoveConcat(a + "#" + b, rest, cs);
    RemoveConcat(a + "#", b, cs);
    RemoveConcat(a, "#", cs);
  }

  /** Replacing the spaces `t[i..j]` by `#`, with the text after `e`
      rewritten to `rest`, removes at least one space. */
  lemma {:induction false} HitApplyCount(t: string, i: nat, j: nat, e: nat, rest: string)
    requires i < j <= e <= |t| && t[i] == ' '
    requires Count(rest, ' ') <= Count(t[e..], ' ')
    ensures Count(t[..i] + "#" + t[j..e] + rest, ' ') + 1 <= Count(t, ' ')
  {
    SliceParts(t, i, j, e);
    HitCount(t[..i], t[i..j], t[j..e], t[e..], rest, t);
  }

  /** The same replacement changes nothing but spaces and `#`. */
  lemma {:induction false} HitApplyRemove(t: string, i: nat, j: nat, e: nat, rest: string, cs: set<char>)
    requires i < j <= e <= |t| && forall k :: i <= k < j ==> t[k] == ' '
    requires ' ' in cs && '#' in cs
    requires Remove(rest, cs) == Remove(t[e..], cs)
    ensures Remove(t[..i] + "#" + t[j..e] + rest, cs) == Remove(t, cs)
  {
    SliceParts(t, i, j, e);
    var g := t[i..j];
    assert forall k :: 0 <= k < |g| ==> g[k] == ' ';
    HitRemove(t[..i], g, t[j..e], t[e..], rest, t, cs);
  }

  lemma {:induction false} HitStep(t: string, h: Hit, rest: string)
    requires |t| > 0 && IsCloser(t[0]) && MatchAt(t) == Some(h)
    requires Count(rest, ' ') <= Count(t[h.end..], ' ')
    requires Remove(rest, {' ', '#'}) == Remove(t[h.end..], {' ', '#'})
    ensures MatchesAt(t, 0)
    ensures Count(t[..h.head] + "#" + t[h.tail..h.end] + rest, ' ') + 1 <= Count(t, ' ')
    ensures Remove(t[..h.head] + "#" + t[h.tail..h.end] + rest, {' ', '#'}) == Remove(t, {' ', '#'})
  {
    assert t[0..] == t;
    assert PatternAt(t, h.head, h.tail, h.end);
    HitApplyCount(t, h.head, h.tail, h.end, rest);
    HitApplyRemove(t, h.head, h.tail, h.end, rest, {' ', '#'});
  }

  /** One global `replace` with the boundary pattern: matches are taken
      left to right, each search resuming where the previous match ended.
      The flag tells whether anything matched, which is exactly when the
      pattern matches somewhere in `t`. */
  function ReplaceAll(t: string): (r: (string, bool))
    ensures r.1 <==> exists p: nat :: MatchesAt(t, p)
    ensures !r.1 ==> r.0 == t
    decreases |t|
  {
    if |t| == 0 then (t, false)
    else if IsCloser(t[0]) && MatchAt(t).Some? then
      var h := MatchAt(t).value;
      var rest := ReplaceAll(t[h.end..]);
      assert t[0..] == t;
      assert MatchesAt(t, 0);
      (t[..h.head] + "#" + t[h.tail..h.end] + rest.0, true)
    else
      var rest := ReplaceAll(t[1..]);
      assert t[0..] == t;
      MatchesInTail(t);
      if rest.1 then ([t[0]] + rest.0, rest.1) else
        assert [t[0]] + t[1..] == t;
        (t, false)
  }

  /** Every replacement removes at least one space and touches nothing
      but spaces and `#`. */
  lemma {:induction false} ReplaceAllShrinks(t: string)
    ensures Count(ReplaceAll(t).0, ' ') + (if ReplaceAll(t).1 then 1 else 0) <= Count(t, ' ')
    ensures Remove(ReplaceAll(t).0, {' ', '#'}) == Remove(t, {' ', '#'})
    decreases |t|
  {
    if |t| == 0 {
    } else if IsCloser(t[0]) && MatchAt(t).Some? {
      var h := MatchAt(t).value;
      ReplaceAllShrinks(t[h.end..]);
      HitStep(t, h, ReplaceAll(t[h.end..]).0);
    } else {
      var rest := ReplaceAll(t[1..]);
      ReplaceAllShrinks(t[1..]);
      SkipContent(t, rest.0, if rest.1 then 1 else 0);
    }
  }

  /** The `while (Reg.exec(text)) text = text.replace(Reg, "$1#$3")`
      loop: replace all matches until none is left. It terminates because
      every round removes a space. */
  function Mark(t: string): (r: string)
    ensures forall p: nat :: !MatchesAt(r, p)
    ensures (forall p: nat :: !MatchesAt(t, p)) ==> r == t
    decreases Count(t, ' ')
  {
    var s := ReplaceAll(t);
    ReplaceAllShrinks(t);
    if s.1 then Mark(s.0) else t
  }

  /** Marking only exchanges spaces for `#`: with both removed, the
      marked text is the input. */
  lemma {:induction false} MarkLayout(t: string)
    ensures Remove(Mark(t), {' ', '#'}) == Remove(t, {' ', '#'})
    decreases Count(t, ' ')
  {
    var s := ReplaceAll(t);
    ReplaceAllShrinks(t);
    if s.1 {
      MarkLayout(s.0);
    }
  }

  /** Replacing one match keeps every `#`: group 2 holds only spaces and
      becomes one `#`, and the rest of the text keeps its `#`s. */
  lemma {:induction false} HitHashes(t: string, h: Hit, rest: string)
    requires |t| > 0 && IsCloser(t[0]) && MatchAt(t) == Some(h)
    requires Count(rest, '#') >= Count(t[h.end..], '#')
    ensures Count(t[..h.head] + "#" + t[h.tail..h.end] + rest, '#') > Count(t, '#')
  {
    assert t[0..] == t;
    assert PatternAt(t, h.head, h.tail, h.end);
    SliceParts(t, h.head, h.tail, h.end);
    var a, g, b := t[..h.head], t[h.head..h.tail], t[h.tail..h.end];
    assert '#' !in g;
    assert multiset(a + g + b + t[h.end..]) == multiset(a) + multiset(g) + multiset(b) + multiset(t[h.end..]);
    assert multiset(a + "#" + b + rest) == multiset(a) + multiset("#") + multiset(b) + multiset(rest);
  }

  /** A global replace never loses a `#`. */
  lemma {:induction false} ReplaceAllHashes(t: string)
    ensures Count(ReplaceAll(t).0, '#') >= Count(t, '#')
    decreases |t|
  {
    if |t| == 0 {
    } else if IsCloser(t[0]) && MatchAt(t).Some? {
      var h := MatchAt(t).value;
      ReplaceAllHashes(t[h.end..]);
      HitHashes(t, h, ReplaceAll(t[h.end..]).0);
    } else {
      var rest := ReplaceAll(t[1..]);
      ReplaceAllHashes(t[1..]);
      if rest.1 {
        var r := [t[0]] + rest.0;
        assert r[1..] == rest.0;
        CountHead(t, '#');
        CountHead(r, '#');
      }
    }
  }

  /** Marking never loses a `#`: the rounds only add them. */
  lemma {:induction false} MarkHashes(t: string)
    ensures Count(Mark(t), '#') >= Count(t, '#')
    decreases Count(t, ' ')
  {
    var s := ReplaceAll(t);
    ReplaceAllShrinks(t);
    if s.1 {
      ReplaceAllHashes(t);
      MarkHashes(s.0);
    }
  }

  // ---------------------------------------------------------------------
  // White space outside quotes: `\s+(?=((\\[\\"]|[^\\"])*"(\\[\\"]|[^\\"])*")*(\\[\\"]|[^\\"])*$)`
  // ---------------------------------------------------------------------

  /** The lookahead of the stripping pattern: the rest of the text reads
      as a sequence of the escapes `\\` and `\"`, single characters other
      than `\` and `"`, and unescaped quotes, with an even number of the
      latter once `even` is taken into account. A `\` followed by anything
      else makes the lookahead fail. */
  predicate QuotesBalanced(s: string, even: bool)
    decreases |s|
  {
    if |s| == 0 then even
    else if s[0] == '\\' then |s| >= 2 && (s[1] == '\\' || s[1] == '"') && QuotesBalanced(s[2..], even)
    else if s[0] == '"' then QuotesBalanced(s[1..], !even)
    else QuotesBalanced(s[1..], even)
  }

  /** Without backslashes the lookahead just counts quotes. */
  lemma {:induction false} QuotesBalancedCount(s: string, even: bool)
    requires '\\' !in s
    ensures QuotesBalanced(s, even) <==> (even <==> Count(s, '"') % 2 == 0)
    decreases |s|
  {
    if |s| > 0 {
      assert s == [s[0]] + s[1..];
      assert multiset(s) == multiset([s[0]]) + multiset(s[1..]);
      if s[0] == '"' {
        QuotesBalancedCount(s[1..], !even);
      } else {
        QuotesBalancedCount(s[1..], even);
      }
    }
  }

  /** The global replace of the stripping pattern with "". A white-space
      run is deleted as a whole or not at all, and since white space is an
      ordinary character for the lookahead, that decision is the same for
      each of its characters: a white-space character goes exactly when
      the lookahead holds of the text after it. */
  function StripWs(s: string): string
    decreases |s|
  {
    if |s| == 0 then ""
    else if IsWs(s[0]) && QuotesBalanced(s[1..], true) then StripWs(s[1..])
    else [s[0]] + StripWs(s[1..])
  }

  /** Stripping deletes white space only: the other characters stay, in
      order, and no character appears that was not there. */
  lemma {:induction false} StripWsContent(s: string)
    ensures Remove(StripWs(s), Whitespace) == Remove(s, Whitespace)
    ensures forall c :: c !in s ==> c !in StripWs(s)
  {
    StripWsRemove(s, Whitespace);
    forall c | c !in s
      ensures c !in StripWs(s)
    {
      StripWsAbsent(s, c);
    }
  }

  lemma {:induction false} StripWsRemove(s: string, cs: set<char>)
    requires forall c :: IsWs(c) ==> c in cs
    ensures Remove(StripWs(s), cs) == Remove(s, cs)
    decreases |s|
  {
    if |s| > 0 {
      var rest := StripWs(s[1..]);
      StripWsRemove(s[1..], cs);
      if IsWs(s[0]) && QuotesBalanced(s[1..], true) {
        assert s == [s[0]] + s[1..];
        RemoveDrop([], s[0], s[1..], cs);
      } else {
        RemoveConsSame(s[0], rest, s[1..], cs);
        assert s == [s[0]] + s[1..];
      }
    }
  }

  lemma {:induction false} StripWsAbsent(s: string, c: char)
    requires c !in s
    ensures c !in StripWs(s)
    decreases |s|
  {
    if |s| > 0 {
      StripWsAbsent(s[1..], c);
    }
  }

  /** Inside a quoted span (an odd number of quotes still to come) white
      space is kept: `b`, which holds no quote, passes through verbatim. */
  lemma {:induction false} StripKeepsBeforeOddQuotes(b: string, tail: string)
    requires '"' !in b && '\\' !in b && '\\' !in tail
    requires Count(tail, '"') % 2 == 1
    ensures StripWs(b + tail) == b + StripWs(tail)
    decreases |b|
  {
    if |b| > 0 {
      var s := b + tail;
      assert s[1..] == b[1..] + tail;
      assert multiset(s[1..]) == multiset(b[1..]) + multiset(tail);
      assert Count(s[1..], '"') == Count(b[1..], '"') + Count(tail, '"');
      assert multiset(b) == multiset([b[0]]) + multiset(b[1..]) by {
        assert b == [b[0]] + b[1..];
      }
      QuotesBalancedCount(s[1..], true);
      StripKeepsBeforeOddQuotes(b[1..], tail);
      assert b == [b[0]] + b[1..];
    } else {
      assert b + tail == tail;
    }
  }

  /** A character other than white space is never stripped. */
  lemma {:induction false} StripKeepsVisible(ch: char, c: string)
    requires !IsWs(ch)
    ensures StripWs([ch] + c) == [ch] + StripWs(c)
  {
    assert ([ch] + c)[1..] == c;
  }

  /** A quoted span with no backslash, followed by text holding an even
      number of quotes, survives stripping verbatim: white space inside
      double quotes is kept. */
  lemma {:induction false} StripKeepsQuotedSpan(b: string, c: string)
    requires '"' !in b && '\\' !in b && '\\' !in c
    requires Count(c, '"') % 2 == 0
    ensures StripWs(Quote(b) + c) == Quote(b) + StripWs(c)
  {
    var q: string := ['"'];
    var tail := q + c;
    assert Count(tail, '"') == 1 + Count(c, '"') by {
      assert multiset(tail) == multiset(q) + multiset(c);
    }
    StripKeepsBeforeOddQuotes(b, tail);
    StripKeepsVisible('"', c);
    StripKeepsVisible('"', b + tail);
    assert Quote(b) + c == q + (b + tail);
  }

  /** White space followed by text with an even number of quotes (and no
      backslash) is outside every quoted span and is deleted. */
  lemma {:induction false} StripDropsUnquotedWs(w: string, c: string)
    requires forall k :: 0 <= k < |w| ==> IsWs(w[k])
    requires '\\' !in c && Count(c, '"') % 2 == 0
    ensures StripWs(w + c) == StripWs(c)
    decreases |w|
  {
    if |w| > 0 {
      var s := w + c;
      assert s[1..] == w[1..] + c;
      assert '\\' !in w[1..] by {
        assert forall k :: 0 <= k < |w[1..]| ==> IsWs(w[1..][k]);
      }
      assert '"' !in w[1..] by {
        assert forall k :: 0 <= k < |w[1..]| ==> IsWs(w[1..][k]);
      }
      assert multiset(s[1..]) == multiset(w[1..]) + multiset(c);
      QuotesBalancedCount(s[1..], true);
      StripDropsUnquotedWs(w[1..], c);
    } else {
      assert w + c == c;
    }
  }

  // ---------------------------------------------------------------------
  // The whole normalizer
  // ---------------------------------------------------------------------

  /** `replace(/#/g, " ")`. */
  function HashToSpace(s: string): (r: string)
    ensures |r| == |s|
    ensures forall k :: 0 <= k < |s| ==> r[k] == if s[k] == '#' then ' ' else s[k]
  {
    seq(|s|, k requires 0 <= k < |s| => if s[k] == '#' then ' ' else s[k])
  }

  /** Turning `#` into spaces is invisible once both are removed. */
  lemma {:induction false} HashToSpaceRemove(s: string, cs: set<char>)
    requires ' ' in cs && '#' in cs
    ensures Remove(HashToSpace(s), cs) == Remove(s, cs)
    decreases |s|
  {
    if |s| > 0 {
      HashToSpaceRemove(s[1..], cs);
      assert HashToSpace(s) == [HashToSpace(s)[0]] + HashToSpace(s[1..]);
    }
  }

  /** Every `#` becomes one more space. */
  lemma {:induction false} HashToSpaceCount(s: string)
    ensures Count(HashToSpace(s), ' ') == Count(s, ' ') + Count(s, '#')
    decreases |s|
  {
    if |s| > 0 {
      var r := HashToSpace(s);
      HashToSpaceCount(s[1..]);
      assert r[1..] == HashToSpace(s[1..]);
      CountHead(s, ' ');
      CountHead(s, '#');
      CountHead(r, ' ');
    }
  }

  /** The characters that the normalizer may add, drop or exchange. */
  const Layout: set<char> := Whitespace + {'#'}

  /** `WPP.removeExtraSpaces`: line breaks out, boundaries marked,
      then the steps of `Finish`. */
  function Normalize(s: string): string {
    Finish(Mark(Remove(s, {'\r', '\n'})))
  }

  /** The steps after marking: white space outside quotes stripped and
      marks turned into spaces. */
  function Finish(m: string): string {
    HashToSpace(StripWs(Remove(m, {'\r'})))
  }

  /** Marking only exchanges spaces for `#`: no other character appears. */
  lemma {:induction false} MarkKeepsAbsent(t: string, c: char)
    requires c != ' ' && c != '#' && c !in t
    ensures c !in Mark(t)
  {
    var m := Mark(t);
    var marks := {' ', '#'};
    MarkLayout(t);
    RemoveCount(m, marks, c);
    RemoveCount(t, marks, c);
    CountPositive(t, c);
    CountPositive(m, c);
  }

  lemma {:induction false} RemoveKeepsAbsent(s: string, cs: set<char>, c: char)
    requires c !in s
    ensures c !in Remove(s, cs)
  {
    if c !in cs {
      RemoveCount(s, cs, c);
      CountPositive(s, c);
      CountPositive(Remove(s, cs), c);
    } else {
      RemoveGone(s, cs, c);
    }
  }

  /** The normalized text holds no line break and no `#`; that no `#` of
      the input is deleted on the way is `NormalizeKeepsHashes`. */
  lemma {:induction false} NormalizeDropsBreaks(s: string)
    ensures '\r' !in Normalize(s) && '\n' !in Normalize(s) && '#' !in Normalize(s)
  {
    var breaks := {'\r', '\n'};
    var t := Remove(s, breaks);
    RemoveGone(s, breaks, '\n');
    RemoveGone(s, breaks, '\r');
    MarkKeepsAbsent(t, '\n');
    MarkKeepsAbsent(t, '\r');
    var m := Mark(t);
    var cr := {'\r'};
    RemoveKeepsAbsent(m, cr, '\n');
    RemoveGone(m, cr, '\r');
    var u := Remove(m, cr);
    StripWsAbsent(u, '\n');
    StripWsAbsent(u, '\r');
  }

  /** Stripping keeps every character other than white space. */
  lemma {:induction false} StripWsCount(u: string, c: char)
    requires !IsWs(c)
    ensures Count(StripWs(u), c) == Count(u, c)
  {
    StripWsRemove(u, Whitespace);
    RemoveCount(StripWs(u), Whitespace, c);
    RemoveCount(u, Whitespace, c);
  }

  /** The steps after marking keep every `#`, as a space. */
  lemma {:induction false} FinishKeepsHashes(m: string)
    ensures Count(Finish(m), ' ') >= Count(m, '#')
  {
    var u := Remove(m, {'\r'});
    RemoveCount(m, {'\r'}, '#');
    StripWsCount(u, '#');
    HashToSpaceCount(StripWs(u));
  }

  /** No `#` of the input is lost: marking only adds `#`s, and the later
      steps turn each into a space. So the normalized text has at least
      as many spaces as the input has `#`s. */
  lemma {:induction false} NormalizeKeepsHashes(s: string)
    ensures Count(Normalize(s), ' ') >= Count(s, '#')
  {
    var t := Remove(s, {'\r', '\n'});
    RemoveCount(s, {'\r', '\n'}, '#');
    MarkHashes(t);
    FinishKeepsHashes(Mark(t));
  }

  /** Apart from white space and `#`, the normalized text is the input
      unchanged, character for character and in order. */
  lemma {:induction false} NormalizeKeepsText(s: string)
    ensures Remove(Normalize(s), Layout) == Remove(s, Layout)
  {
    var t := Remove(s, {'\r', '\n'});
    var m := Mark(t);
    MarkLayout(t);
    var u := Remove(m, {'\r'});
    var v := StripWs(u);
    StripWsContent(u);
    HashToSpaceRemove(v, Layout);
    RemoveRemove(v, Whitespace, Layout);
    RemoveRemove(u, Whitespace, Layout);
    RemoveRemove(m, {'\r'}, Layout);
    RemoveRemove(m, {' ', '#'}, Layout);
    RemoveRemove(t, {' ', '#'}, Layout);
    RemoveRemove(s, {'\r', '\n'}, Layout);
  }

  /** Characters other than white space and `#` occur in the normalized
      text exactly when they occur in the input. */
  lemma {:induction false} NormalizeKeepsChar(s: string, c: char)
    requires c !in Layout
    ensures c in Normalize(s) <==> c in s
  {
    NormalizeKeepsText(s);
    RemoveSameKeeps(Normalize(s), s, Layout, c);
  }

  /** Every boundary match contains a space. */
  lemma {:induction false} MatchNeedsSpace(t: string, p: nat)
    requires MatchesAt(t, p)
    ensures ' ' in t
  {
    var h := MatchAt(t[p..]).value;
    assert t[p..][h.head] == ' ';
    assert t[p + h.head] == ' ';
  }

  /** Text without white space is not stripped. */
  lemma {:induction false} StripWsPlain(s: string)
    requires forall k :: 0 <= k < |s| ==> !IsWs(s[k])
    ensures StripWs(s) == s
    decreases |s|
  {
    if |s| > 0 {
      StripWsPlain(s[1..]);
      assert s == [s[0]] + s[1..];
    }
  }

  /** Text whose only layout characters are line breaks just loses them:
      with no space there is no boundary to mark, no white space to strip
      and no `#` to turn into a space. */
  lemma {:induction false} NormalizePlain(s: string)
    requires forall c :: c in Layout && c != '\r' && c != '\n' ==> c !in s
    ensures Normalize(s) == Remove(s, {'\r', '\n'})
  {
    var breaks := {'\r', '\n'};
    var t := Remove(s, breaks);
    forall c | c in Layout
      ensures c !in t
    {
      if c in breaks {
        RemoveGone(s, breaks, c);
      } else {
        RemoveCount(s, breaks, c);
        CountPositive(s, c);
        CountPositive(t, c);
      }
    }
    forall p: nat
      ensures !MatchesAt(t, p)
    {
      if MatchesAt(t, p) {
        MatchNeedsSpace(t, p);
      }
    }
    assert Mark(t) == t;
    RemoveNothing(t, {'\r'});
    StripWsPlain(t);
    assert HashToSpace(t) == t;
  }

  /** Text with no white space besides line breaks loses its line breaks,
      and every `#` in it becomes a space: with no space there is no
      boundary to mark and nothing to strip. */
  lemma {:induction false} NormalizeHashes(s: string)
    requires forall c :: c in Whitespace && c != '\r' && c != '\n' ==> c !in s
    ensures Normalize(s) == HashToSpace(Remove(s, {'\r', '\n'}))
  {
    var breaks := {'\r', '\n'};
    var t := Remove(s, breaks);
    forall c | c in Whitespace
      ensures c !in t
    {
      if c in breaks {
        RemoveGone(s, breaks, c);
      } else {
        RemoveCount(s, breaks, c);
        CountPositive(s, c);
        CountPositive(t, c);
      }
    }
    forall p: nat
      ensures !MatchesAt(t, p)
    {
      if MatchesAt(t, p) {
        MatchNeedsSpace(t, p);
      }
    }
    assert Mark(t) == t;
    RemoveNothing(t, {'\r'});
    StripWsPlain(t);
  }
}
