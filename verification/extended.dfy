/** W++ with an appendix: groups embedded in free text. */
module Extended {
  import opened Text
  import opened Results
  import opened Documents
  import opened Parser
  import opened Serializer
  import opened Merge
  import opened Spans

  // ---------------------------------------------------------------------
  // The three operations
  // ---------------------------------------------------------------------

  /** `WPP.parseExtended`: the spans, joined by line feeds, are parsed as
      W++; the text around them, blank lines collapsed, is the appendix
      (empty for none). */
  function ParseExtended(s: string): Result<Extended> {
    var (spans, gaps) := Scan(s, 0);
    var appendix := Collapse(Concat(gaps));
    if |spans| == 0 then Ok(Extended(Some([]), appendix))
    else
      match Parse(Join(spans, "\n"))
      case Err(e) => Err(e)
      case Ok(d) => Ok(Extended(Some(d), appendix))
  }

  /** `WPP.stringifyExtended`: the named groups rendered in `mode`, then
      the appendix directly after them. */
  function StringifyExtended(x: Extended, mode: Mode): Result<string> {
    if x.wpp.None? then Err(NotWPPExtended)
    else
      var trimmed := TrimNameless(x.wpp.value);
      var str := Stringify(Many(trimmed), mode);
      Ok((if |trimmed| > 0 && |str| > 0 then str else "") + x.appendix)
  }

  /** The appendix rule of merging: the first, a line feed only when both
      are present, the second. */
  function JoinAppendix(a1: string, a2: string): string {
    a1 + (if |a1| > 0 && |a2| > 0 then "\n" else "") + a2
  }

  /** `WPP.getMergedExtended`: the groups merged, the appendices joined
      by `JoinAppendix`. */
  function GetMergedExtended(x1: Extended, x2: Extended): Result<Extended> {
    if x1.wpp.None? || x2.wpp.None? then Err(NotWPPExtended)
    else Ok(Extended(Some(GetMerged(x1.wpp.value, x2.wpp.value)), JoinAppendix(x1.appendix, x2.appendix)))
  }

  // ---------------------------------------------------------------------
  // Properties
  // ---------------------------------------------------------------------

  /** Parsing extended text: the text is the gaps and spans interleaved;
      the groups are what parsing the spans, joined by line feeds, gives,
      and an error can only come from there; the appendix keeps every
      visible character of the gaps and is empty only when they are; text
      without spans is all appendix with no groups. */
  lemma {:induction false} ParseExtendedShape(s: string)
    ensures var (spans, gaps) := Scan(s, 0);
      && |gaps| == |spans| + 1
      && Interleave(gaps, spans) == s
      && var r := ParseExtended(s);
         && (r.Ok? ==>
               (&& r.value.wpp.Some?
                && Remove(r.value.appendix, Whitespace) == Remove(Concat(gaps), Whitespace)
                && (|r.value.appendix| == 0 <==> |Concat(gaps)| == 0)))
         && (r.Err? ==> |spans| > 0 && Parse(Join(spans, "\n")) == Err(r.error))
         && (r.Ok? && |spans| > 0 ==> Parse(Join(spans, "\n")) == Ok(r.value.wpp.value))
         && (|spans| == 0 ==> r == Ok(Extended(Some([]), Collapse(s))))
  {
    ScanInterleave(s, 0);
    var (spans, gaps) := Scan(s, 0);
    CollapseText(Concat(gaps));
    if |spans| == 0 {
      assert Concat(gaps) == s;
    }
  }

  /** Free text with no span and no line break reads back as itself:
      no groups, the whole text as appendix. */
  lemma {:induction false} ParsePlainAppendix(s: string)
    requires NoSpan(s)
    requires forall k :: 0 <= k < |s| ==> !IsBreak(s[k])
    ensures ParseExtended(s) == Ok(Extended(Some([]), s))
  {
    ScanStep(s, 0);
    NoSpanNoMatch(s, 0);
    ParseExtendedShape(s);
    CollapseText(s);
  }

  /** Writing extended W++: refused without groups; otherwise the named
      groups, rendered, directly followed by the appendix, and only the
      appendix when no group has a name. */
  lemma {:induction false} StringifyExtendedShape(x: Extended, mode: Mode)
    ensures StringifyExtended(x, mode).Err? <==> x.wpp.None?
    ensures StringifyExtended(x, mode).Err? ==> StringifyExtended(x, mode).error == NotWPPExtended
    ensures x.wpp.Some? ==> var trimmed := TrimNameless(x.wpp.value);
      StringifyExtended(x, mode).value
        == (if |trimmed| == 0 then "" else Stringify(Many(trimmed), mode)) + x.appendix
    ensures (x.wpp.Some? && forall k :: 0 <= k < |x.wpp.value| ==> x.wpp.value[k].name == "")
      ==> StringifyExtended(x, mode) == Ok(x.appendix)
  {
    if x.wpp.Some? {
      var trimmed := TrimNameless(x.wpp.value);
      StringifyNonEmpty(Many(trimmed), mode);
      if forall k :: 0 <= k < |x.wpp.value| ==> x.wpp.value[k].name == "" {
        TrimAllNameless(x.wpp.value);
        assert "" + x.appendix == x.appendix;
      }
    }
  }

  /** Round trip: an appendix of plain text with no groups survives
      writing and reading back. */
  lemma {:induction false} AppendixRoundTrip(a: string, mode: Mode)
    requires NoSpan(a)
    requires forall k :: 0 <= k < |a| ==> !IsBreak(a[k])
    ensures StringifyExtended(Extended(Some([]), a), mode) == Ok(a)
    ensures ParseExtended(a) == Ok(Extended(Some([]), a))
  {
    StringifyExtendedShape(Extended(Some([]), a), mode);
    ParsePlainAppendix(a);
  }

  /** Merging extended documents: refused when either lacks groups;
      otherwise the groups merged, and as appendix the non-empty
      appendices joined by line feeds, which is empty only when both are. */
  lemma {:induction false} GetMergedExtendedShape(x1: Extended, x2: Extended)
    ensures GetMergedExtended(x1, x2).Err? <==> x1.wpp.None? || x2.wpp.None?
    ensures GetMergedExtended(x1, x2).Err? ==> GetMergedExtended(x1, x2).error == NotWPPExtended
    ensures GetMergedExtended(x1, x2).Ok? ==>
      GetMergedExtended(x1, x2).value
        == Extended(Some(GetMerged(x1.wpp.value, x2.wpp.value)), Join(NonEmpty([x1.appendix, x2.appendix]), "\n"))
    ensures GetMergedExtended(x1, x2).Ok? ==>
      GetMergedExtended(x1, x2).value.wpp == Some(MergeReference(x1.wpp.value, x2.wpp.value))
    ensures |JoinAppendix(x1.appendix, x2.appendix)| == 0 <==> |x1.appendix| == 0 && |x2.appendix| == 0
    ensures |x2.appendix| == 0 ==> JoinAppendix(x1.appendix, x2.appendix) == x1.appendix
    ensures |x1.appendix| == 0 ==> JoinAppendix(x1.appendix, x2.appendix) == x2.appendix
  {
    if x1.wpp.Some? && x2.wpp.Some? {
      GetMergedReference(x1.wpp.value, x2.wpp.value);
    }
    if |x2.appendix| == 0 {
      assert x1.appendix + "" + x2.appendix == x1.appendix;
    }
    AppendixFold([x1.appendix], x2.appendix);
    assert [x1.appendix] + [x2.appendix] == [x1.appendix, x2.appendix];
    NonEmptySnoc([], x1.appendix);
    assert [] + [x1.appendix] == [x1.appendix];
    assert NonEmpty([]) == [];
    if |x1.appendix| > 0 {
      assert Join(NonEmpty([x1.appendix]), "\n") == x1.appendix;
    } else {
      assert Join(NonEmpty([x1.appendix]), "\n") == "";
      assert "" + "" + x2.appendix == x2.appendix;
    }
  }

  lemma {:induction false} NonEmptySnoc(parts: seq<string>, a: string)
    ensures NonEmpty(parts + [a]) == NonEmpty(parts) + (if a == "" then [] else [a])
    decreases |parts|
  {
    if |parts| == 0 {
      assert parts + [a] == [a];
      assert [a][1..] == [];
    } else {
      assert (parts + [a])[1..] == parts[1..] + [a];
      NonEmptySnoc(parts[1..], a);
    }
  }

  /** Merging extended documents one after another: each merge adds the
      next appendix, so the appendix of the result is the non-empty
      appendices, in order, joined by line feeds. */
  lemma {:induction false} AppendixFold(parts: seq<string>, a: string)
    ensures JoinAppendix(Join(NonEmpty(parts), "\n"), a) == Join(NonEmpty(parts + [a]), "\n")
  {
    var q := NonEmpty(parts);
    NonEmptySnoc(parts, a);
    var j := Join(q, "\n");
    if |q| == 0 {
      assert q + [a] == [a];
      assert "" + "" + a == a;
      if a == "" {
        assert q + [] == [];
      }
    } else {
      JoinStart(q, "\n");
      assert |j| > 0;
      if a == "" {
        assert q + [] == q;
        assert j + "" + "" == j;
      } else {
        JoinSnoc(q, a, "\n");
      }
    }
  }

  /** Joining appendices does not depend on grouping. */
  lemma {:induction false} JoinAppendixAssociative(a1: string, a2: string, a3: string)
    ensures JoinAppendix(JoinAppendix(a1, a2), a3) == JoinAppendix(a1, JoinAppendix(a2, a3))
  {
  }

  /** An extended document with no groups and no appendix is a neutral
      element of merging, on either side. */
  lemma {:induction false} GetMergedExtendedNeutral(x: Extended)
    requires x.wpp.Some?
    ensures GetMergedExtended(x, Extended(Some([]), "")) == Ok(x)
    ensures GetMergedExtended(Extended(Some([]), ""), x) == Ok(x)
  {
    assert x.appendix + "" + "" == x.appendix;
    assert "" + "" + x.appendix == x.appendix;
  }
}
