/** Splitting extended W++ text into group spans and the free text
    around them, and tidying that free text into an appendix. */
module Spans {
  import opened Text
  import opened Results

  // ---------------------------------------------------------------------
  // Group spans: the pattern `[\[{][^\]}]*[\]}]\]?`, matched globally
  // ---------------------------------------------------------------------

  predicate IsSpanOpener(c: char) {
    c == '[' || c == '{'
  }

  predicate IsSpanCloser(c: char) {
    c == ']' || c == '}'
  }

  /** The first position from `i` on holding a character of the kind
      `open` asks for. */
  function FindFrom(s: string, i: nat, open: bool): (r: Option<nat>)
    requires i <= |s|
    ensures r.Some? ==> i <= r.value < |s|
    ensures r.Some? ==> (if open then IsSpanOpener(s[r.value]) else IsSpanCloser(s[r.value]))
    ensures forall k :: i <= k < (if r.Some? then r.value else |s|)
              ==> !(if open then IsSpanOpener(s[k]) else IsSpanCloser(s[k]))
    decreases |s| - i
  {
    if i == |s| then None
    else if (if open then IsSpanOpener(s[i]) else IsSpanCloser(s[i])) then Some(i)
    else FindFrom(s, i + 1, open)
  }

  /** A matched span: an opener, no closer, a closer, and possibly one
      more `]`. */
  predicate IsSpan(sp: string) {
    exists c :: 1 <= c < |sp| && IsSpanOpener(sp[0]) && IsSpanCloser(sp[c])
      && (forall k :: 1 <= k < c ==> !IsSpanCloser(sp[k]))
      && (|sp| == c + 1 || (|sp| == c + 2 && sp[c + 1] == ']'))
  }

  /** The text left once no span can start: no opener is followed by a
      closer. */
  predicate NoSpan(g: string) {
    forall a, b :: 0 <= a < b < |g| && IsSpanOpener(g[a]) ==> !IsSpanCloser(g[b])
  }

  /** The matched span at `o`, and where the scan resumes. */
  lemma {:induction false} SpanAt(s: string, o: nat, c: nat, e: nat)
    requires o < c < |s| && IsSpanOpener(s[o]) && IsSpanCloser(s[c])
    requires forall k :: o + 1 <= k < c ==> !IsSpanCloser(s[k])
    requires e == if c + 1 < |s| && s[c + 1] == ']' then c + 2 else c + 1
    ensures IsSpan(s[o..e])
  {
    var sp := s[o..e];
    assert 1 <= c - o < |sp| && sp[c - o] == s[c];
    assert forall k :: 1 <= k < c - o ==> sp[k] == s[o + k];
  }

  /** Where the scan finds its next span, if anywhere. */
  function NextSpan(s: string, i: nat): (r: Option<(nat, nat, nat)>)
    requires i <= |s|
    ensures r.Some? ==> var (o, c, e) := r.value;
      && i <= o < c < |s| && IsSpanOpener(s[o]) && IsSpanCloser(s[c])
      && (forall k :: o + 1 <= k < c ==> !IsSpanCloser(s[k]))
      && (forall k :: i <= k < o ==> !IsSpanOpener(s[k]))
      && e == (if c + 1 < |s| && s[c + 1] == ']' then c + 2 else c + 1)
    ensures r.None? ==> NoSpan(s[i..])
  {
    match FindFrom(s, i, true)
    case None => None
    case Some(o) =>
      match FindFrom(s, o + 1, false)
      case None =>
        assert NoSpan(s[i..]) by {
          forall a, b | 0 <= a < b < |s[i..]| && IsSpanOpener(s[i..][a])
            ensures !IsSpanCloser(s[i..][b])
          {
            assert i + a >= o;
          }
        }
        None
      case Some(c) =>
        Some((o, c, if c + 1 < |s| && s[c + 1] == ']' then c + 2 else c + 1))
  }

  /** The scan finds a span exactly when the rest of the text holds an
      opener followed by a closer. */
  lemma {:induction false} NoSpanNoMatch(s: string, i: nat)
    requires i <= |s|
    ensures NextSpan(s, i).None? <==> NoSpan(s[i..])
  {
    if NextSpan(s, i).Some? {
      var (o, c, e) := NextSpan(s, i).value;
      assert s[i..][o - i] == s[o] && s[i..][c - i] == s[c];
    }
  }

  /** The spans of `s[i..]` in order and the text between them. */
  function Scan(s: string, i: nat): (r: (seq<string>, seq<string>))
    requires i <= |s|
    decreases |s| - i
  {
    match NextSpan(s, i)
    case None => ([], [s[i..]])
    case Some((o, c, e)) =>
      var (spans, gaps) := Scan(s, e);
      ([s[o..e]] + spans, [s[i..o]] + gaps)
  }

  lemma {:induction false} ScanStep(s: string, i: nat)
    requires i <= |s|
    ensures NextSpan(s, i).None? ==> Scan(s, i) == ([], [s[i..]])
    ensures NextSpan(s, i).Some? ==> var (o, c, e) := NextSpan(s, i).value;
      Scan(s, i) == ([s[o..e]] + Scan(s, e).0, [s[i..o]] + Scan(s, e).1)
  {
  }

  /** The text reassembles from the gaps and the spans. */
  lemma {:induction false} ScanInterleave(s: string, i: nat)
    requires i <= |s|
    ensures |Scan(s, i).1| == |Scan(s, i).0| + 1
    ensures Interleave(Scan(s, i).1, Scan(s, i).0) == s[i..]
    decreases |s| - i
  {
    ScanStep(s, i);
    if NextSpan(s, i).Some? {
      var (o, c, e) := NextSpan(s, i).value;
      ScanInterleave(s, e);
      var (spans, gaps) := Scan(s, e);
      assert ([s[i..o]] + gaps)[1..] == gaps;
      assert ([s[o..e]] + spans)[1..] == spans;
      assert s[i..] == s[i..o] + s[o..e] + s[e..];
    }
  }

  /** Every span is a well-formed match. */
  lemma {:induction false} ScanSpans(s: string, i: nat)
    requires i <= |s|
    ensures forall k :: 0 <= k < |Scan(s, i).0| ==> IsSpan(Scan(s, i).0[k])
    decreases |s| - i
  {
    ScanStep(s, i);
    if NextSpan(s, i).Some? {
      var (o, c, e) := NextSpan(s, i).value;
      ScanSpans(s, e);
      SpanAt(s, o, c, e);
      var spans := Scan(s, e).0;
      var all := Scan(s, i).0;
      assert all == [s[o..e]] + spans;
      forall k | 0 <= k < |all|
        ensures IsSpan(all[k])
      {
        if k > 0 {
          assert all[k] == spans[k - 1];
        }
      }
    }
  }

  /** Matching is leftmost: no gap before a span holds an opener, and
      the last gap holds no span at all. */
  lemma {:induction false} ScanGaps(s: string, i: nat)
    requires i <= |s|
    ensures var (spans, gaps) := Scan(s, i);
      && |gaps| == |spans| + 1
      && (forall k, j :: 0 <= k < |spans| && 0 <= j < |gaps[k]| ==> !IsSpanOpener(gaps[k][j]))
      && NoSpan(gaps[|spans|])
    decreases |s| - i
  {
    ScanStep(s, i);
    ScanInterleave(s, i);
    if NextSpan(s, i).Some? {
      var (o, c, e) := NextSpan(s, i).value;
      ScanGaps(s, e);
      ScanInterleave(s, e);
      var (spans, gaps) := Scan(s, e);
      var gs := [s[i..o]] + gaps;
      assert forall k :: 1 <= k < |gs| ==> gs[k] == gaps[k - 1];
      assert forall j :: 0 <= j < |gs[0]| ==> !IsSpanOpener(gs[0][j]);
    }
  }

  // ---------------------------------------------------------------------
  // Blank-line collapse: `^\s*[\r\n]` with the multiline flag, replaced
  // by one line feed
  // ---------------------------------------------------------------------

  /** The end of the whitespace run starting at `i`. */
  function WsEnd(s: string, i: nat): (e: nat)
    requires i <= |s|
    ensures i <= e <= |s|
    ensures forall k :: i <= k < e ==> s[k] in Whitespace
    ensures e == |s| || s[e] !in Whitespace
    decreases |s| - i
  {
    if i < |s| && s[i] in Whitespace then WsEnd(s, i + 1) else i
  }

  predicate IsBreak(c: char) {
    c == '\r' || c == '\n'
  }

  /** The last carriage return or line feed in `s[i..e]`. */
  function LastBreak(s: string, i: nat, e: nat): (r: Option<nat>)
    requires i <= e <= |s|
    ensures r.Some? ==> i <= r.value < e && IsBreak(s[r.value])
    ensures forall k :: (if r.Some? then r.value + 1 else i) <= k < e ==> !IsBreak(s[k])
    decreases e - i
  {
    if e == i then None
    else if IsBreak(s[e - 1]) then Some(e - 1)
    else LastBreak(s, i, e - 1)
  }

  /** `^` in multiline mode: the start, or just after a line terminator. */
  predicate LineStart(s: string, i: nat)
    requires i <= |s|
  {
    i == 0 || s[i - 1] in LineTerminators
  }

  /** At a line start, the whitespace run from `i` when it holds a
      carriage return or line feed: the position of its last one. */
  function BlankRun(s: string, i: nat): (r: Option<nat>)
    requires i <= |s|
    ensures r.Some? ==> i <= r.value < |s| && IsBreak(s[r.value])
    ensures r.Some? ==> forall k :: i <= k <= r.value ==> s[k] in Whitespace
  {
    if LineStart(s, i) then LastBreak(s, i, WsEnd(s, i)) else None
  }

  /** The collapse from position `i` on: at a line start, the whitespace
      up to the last carriage return or line feed of the run becomes a
      single line feed; everything else is copied. */
  function CollapseFrom(s: string, i: nat): string
    requires i <= |s|
    decreases |s| - i
  {
    if i == |s| then ""
    else
      match BlankRun(s, i)
      case Some(b) => "\n" + CollapseFrom(s, b + 1)
      case None => [s[i]] + CollapseFrom(s, i + 1)
  }

  function Collapse(s: string): string {
    CollapseFrom(s, 0)
  }

  lemma {:induction false} RemoveLineFeed(rest: string, cs: set<char>)
    requires '\n' in cs
    ensures Remove("\n" + rest, cs) == Remove(rest, cs)
  {
    RemoveDrop("", '\n', rest, cs);
    assert "" + ['\n'] + rest == "\n" + rest;
  }

  lemma {:induction false} RemoveRun(s: string, i: nat, b: nat, cs: set<char>)
    requires i <= b < |s|
    requires forall k :: i <= k <= b ==> s[k] in cs
    ensures Remove(s[i..], cs) == Remove(s[b + 1..], cs)
  {
    var run := s[i..b + 1];
    assert forall k :: 0 <= k < |run| ==> run[k] in cs;
    RemoveAll(run, cs);
    assert s[i..] == run + s[b + 1..];
    RemoveConcat(run, s[b + 1..], cs);
  }

  /** A line feed standing for a whitespace run keeps the visible text. */
  lemma {:induction false} CollapseRunText(s: string, i: nat, b: nat, rest: string, cs: set<char>)
    requires i <= b < |s| && '\n' in cs
    requires forall k :: i <= k <= b ==> s[k] in cs
    requires Remove(rest, cs) == Remove(s[b + 1..], cs)
    ensures Remove("\n" + rest, cs) == Remove(s[i..], cs)
  {
    RemoveLineFeed(rest, cs);
    RemoveRun(s, i, b, cs);
  }

  /** A copied character keeps the visible text. */
  lemma {:induction false} CollapseCopyText(s: string, i: nat, rest: string, cs: set<char>)
    requires i < |s|
    requires Remove(rest, cs) == Remove(s[i + 1..], cs)
    ensures Remove([s[i]] + rest, cs) == Remove(s[i..], cs)
  {
    assert s[i..] == [s[i]] + s[i + 1..];
    RemoveConsSame(s[i], rest, s[i + 1..], cs);
  }

  /** A blank run consists of characters of any superset of whitespace. */
  lemma {:induction false} BlankRunIn(s: string, i: nat, b: nat, cs: set<char>)
    requires i <= |s| && BlankRun(s, i) == Some(b) && Whitespace <= cs
    ensures '\n' in cs
    ensures forall k :: i <= k <= b ==> s[k] in cs
  {
    assert '\n' in Whitespace;
  }

  lemma {:induction false} CollapseRunStep(s: string, i: nat, b: nat, cs: set<char>)
    requires i < |s| && BlankRun(s, i) == Some(b) && Whitespace <= cs
    requires Remove(CollapseFrom(s, b + 1), cs) == Remove(s[b + 1..], cs)
    ensures Remove(CollapseFrom(s, i), cs) == Remove(s[i..], cs)
  {
    var rest := CollapseFrom(s, b + 1);
    assert CollapseFrom(s, i) == "\n" + rest;
    BlankRunIn(s, i, b, cs);
    CollapseRunText(s, i, b, rest, cs);
  }

  lemma {:induction false} CollapseCopyStep(s: string, i: nat, cs: set<char>)
    requires i < |s| && BlankRun(s, i).None?
    requires Remove(CollapseFrom(s, i + 1), cs) == Remove(s[i + 1..], cs)
    ensures Remove(CollapseFrom(s, i), cs) == Remove(s[i..], cs)
  {
    var rest := CollapseFrom(s, i + 1);
    assert CollapseFrom(s, i) == [s[i]] + rest;
    CollapseCopyText(s, i, rest, cs);
  }

  /** The collapse only removes whitespace: the visible text is kept. */
  lemma {:induction false} CollapseFromText(s: string, i: nat, cs: set<char>)
    requires i <= |s| && Whitespace <= cs
    ensures Remove(CollapseFrom(s, i), cs) == Remove(s[i..], cs)
    decreases |s| - i
  {
    if i < |s| {
      var r := BlankRun(s, i);
      if r.Some? {
        CollapseFromText(s, r.value + 1, cs);
        CollapseRunStep(s, i, r.value, cs);
      } else {
        CollapseFromText(s, i + 1, cs);
        CollapseCopyStep(s, i, cs);
      }
    }
  }

  /** Only the end of the text collapses to nothing. */
  lemma {:induction false} CollapseFromEmpty(s: string, i: nat)
    requires i <= |s|
    ensures |CollapseFrom(s, i)| == 0 <==> i == |s|
  {
  }

  /** Text without carriage returns or line feeds is left alone. */
  lemma {:induction false} CollapseFromPlain(s: string, i: nat)
    requires i <= |s|
    requires forall k :: 0 <= k < |s| ==> !IsBreak(s[k])
    ensures CollapseFrom(s, i) == s[i..]
    decreases |s| - i
  {
    if i < |s| {
      CollapseFromPlain(s, i + 1);
      assert s[i..] == [s[i]] + s[i + 1..];
    }
  }

  lemma {:induction false} CollapseText(s: string)
    ensures Remove(Collapse(s), Whitespace) == Remove(s, Whitespace)
    ensures |Collapse(s)| == 0 <==> |s| == 0
    ensures (forall k :: 0 <= k < |s| ==> !IsBreak(s[k])) ==> Collapse(s) == s
  {
    CollapseFromText(s, 0, Whitespace);
    CollapseFromEmpty(s, 0);
    if forall k :: 0 <= k < |s| ==> !IsBreak(s[k]) {
      CollapseFromPlain(s, 0);
    }
  }
}
