/** `WPP.parse`: normalized text into a document, group by group. */
module Parser {
  import opened Text
  import opened Results
  import opened Documents
  import opened Attribute
  import opened Normalizer

  // ---------------------------------------------------------------------
  // Group fragments: `string.match(/\[?[^}]*}\]?/g)`
  // ---------------------------------------------------------------------

  /** A group fragment: text holding exactly one '}', which ends it or is
      followed only by a closing ']'. */
  predicate IsFragment(f: string) {
    || (|f| >= 1 && f[|f| - 1] == '}' && '}' !in f[..|f| - 1])
    || (|f| >= 2 && f[|f| - 1] == ']' && f[|f| - 2] == '}' && '}' !in f[..|f| - 2])
  }

  /** The fragments of `s`, left to right. A match can start anywhere,
      so each fragment runs from where the previous one ended through the
      next '}' and one ']' directly after it; the optional leading '['
      never changes where a fragment starts or ends. Text after the last
      '}' belongs to no fragment. */
  function Fragments(s: string): (fs: seq<string>)
    ensures |fs| == 0 <==> '}' !in s
    decreases |s|
  {
    if '}' !in s then []
    else
      var e := FragmentEnd(s);
      [s[..e]] + Fragments(s[e..])
  }

  /** Where the first fragment of `s` ends: after the first '}', and
      after a ']' directly following it. */
  function FragmentEnd(s: string): (e: nat)
    requires '}' in s
    ensures 0 < e <= |s| && IsFragment(s[..e])
    ensures e < |s| && s[e] == ']' ==> s[e - 1] == ']'
  {
    var j := IndexOf(s, '}');
    var e := if j + 1 < |s| && s[j + 1] == ']' then j + 2 else j + 1;
    assert s[..e][..j] == s[..j];
    e
  }

  /** Every fragment is well formed. */
  lemma {:induction false} FragmentsWellFormed(s: string)
    ensures forall k :: 0 <= k < |Fragments(s)| ==> IsFragment(Fragments(s)[k])
    decreases |s|
  {
    if '}' in s {
      var e := FragmentEnd(s);
      var rest := Fragments(s[e..]);
      FragmentsWellFormed(s[e..]);
      var fs := Fragments(s);
      assert fs == [s[..e]] + rest;
      forall k | 0 <= k < |fs|
        ensures IsFragment(fs[k])
      {
        if k > 0 {
          assert fs[k] == rest[k - 1];
        }
      }
    }
  }

  /** The fragments, written one after another, are the text up to its
      last '}' (and a ']' right after it). */
  lemma {:induction false} FragmentsCover(s: string)
    ensures |Concat(Fragments(s))| <= |s| && s[..|Concat(Fragments(s))|] == Concat(Fragments(s))
    ensures '}' !in s[|Concat(Fragments(s))|..]
    decreases |s|
  {
    if '}' in s {
      var e := FragmentEnd(s);
      var t := s[e..];
      FragmentsCover(t);
      var c := Concat(Fragments(t));
      assert Concat(Fragments(s)) == s[..e] + c by {
        var fs := Fragments(s);
        assert fs == [s[..e]] + Fragments(t);
        assert fs[1..] == Fragments(t);
      }
      SliceSplit(s, e, |c|);
    } else {
      assert s[..0] == "";
    }
  }

  lemma {:induction false} SliceSplit(s: string, e: nat, n: nat)
    requires e + n <= |s|
    ensures s[..e + n] == s[..e] + s[e..][..n]
    ensures s[e + n..] == s[e..][n..]
  {
  }

  // ---------------------------------------------------------------------
  // The parts of one fragment
  // ---------------------------------------------------------------------

  /** The type segment (the `[^{]*` match at the start of the fragment,
      with `^\[` replaced by nothing): the text before the
      first '{' (all of it when there is none), without one leading '['.
      The pattern matches every text, possibly as the empty string, so the
      library's missing-type error is never raised. */
  function TypeSegment(f: string): (seg: string)
    ensures '{' !in seg
    ensures |seg| <= |f|
    ensures var p := if |f| > 0 && f[0] == '[' then 1 else 0;
      && p + |seg| <= |f| && f[p..p + |seg|] == seg
      && (p + |seg| == |f| || f[p + |seg|] == '{')
  {
    var upto := if '{' in f then f[..IndexOf(f, '{')] else f;
    if |upto| > 0 && upto[0] == '[' then upto[1..] else upto
  }

  predicate NoLineBreak(s: string) {
    forall k :: 0 <= k < |s| ==> s[k] !in LineTerminators
  }

  /** The leftmost '{' at or after `i` and before `c` from which `c` can be
      reached without crossing a line terminator (`.` matches none). */
  function BodyStart(f: string, i: nat, c: nat): (r: Option<nat>)
    requires i <= c <= |f|
    ensures r.Some? ==> i <= r.value < c && f[r.value] == '{' && NoLineBreak(f[r.value + 1..c])
    ensures forall a :: i <= a < c && f[a] == '{' && NoLineBreak(f[a + 1..c]) ==> r.Some? && r.value <= a
    decreases c - i
  {
    if i == c then None
    else if f[i] == '{' && NoLineBreak(f[i + 1..c]) then Some(i)
    else BodyStart(f, i + 1, c)
  }

  /** `fragment.match(/\{.*\}/)` with the braces removed: the property
      text of the group, if the pattern matches. The fragment's only '}'
      closes it. */
  function PropertyText(f: string): Option<string> {
    if '}' !in f then None
    else
      var c := IndexOf(f, '}');
      match BodyStart(f, 0, c)
      case None => None
      case Some(a) => Some(f[a + 1..c])
  }

  /** `.match(/[^),][^)]*\)/g)`: the attribute tokens of a property
      text. A token starts at a character other than ')' and ',' and runs
      through the next ')'; ')' and ',' between tokens are skipped, and
      text with no ')' left is dropped. */
  function Tokens(s: string): (ts: seq<string>)
    ensures forall k :: 0 <= k < |ts| ==> IsToken(ts[k])
    decreases |s|
  {
    if |s| == 0 then []
    else if s[0] == ')' || s[0] == ',' then Tokens(s[1..])
    else if ')' !in s[1..] then []
    else
      var j := 1 + IndexOf(s[1..], ')');
      assert s[..j + 1][..j] == s[..j] == [s[0]] + s[1..][..j - 1];
      [s[..j + 1]] + Tokens(s[j + 1..])
  }

  /** The length of the run of ')' and ',' that `g` starts with. */
  function SkipRun(g: string): (n: nat)
    ensures n <= |g|
    ensures forall k :: 0 <= k < n ==> g[k] == ')' || g[k] == ','
    ensures n < |g| ==> g[n] != ')' && g[n] != ','
    decreases |g|
  {
    if |g| > 0 && (g[0] == ')' || g[0] == ',') then 1 + SkipRun(g[1..]) else 0
  }

  /** The text `Tokens` passes over: before each token and after the last. */
  function TokenGaps(s: string): (gs: seq<string>)
    ensures |gs| > 0
    decreases |s|
  {
    if |s| == 0 then [""]
    else if s[0] == ')' || s[0] == ',' then
      var g := TokenGaps(s[1..]);
      [[s[0]] + g[0]] + g[1..]
    else if ')' !in s[1..] then [s]
    else [""] + TokenGaps(s[1 + IndexOf(s[1..], ')') + 1..])
  }

  /** The tokens account for the whole property text: it is the skipped
      gaps and the tokens interleaved, every gap between tokens is only
      ')' and ',', and the last gap is such a run followed by text with
      no ')', which no token can take. */
  lemma {:induction false} TokensCover(s: string)
    ensures |TokenGaps(s)| == |Tokens(s)| + 1
    ensures Interleave(TokenGaps(s), Tokens(s)) == s
    ensures forall k :: 0 <= k < |Tokens(s)| ==> SkipRun(TokenGaps(s)[k]) == |TokenGaps(s)[k]|
    ensures var last := TokenGaps(s)[|Tokens(s)|]; ')' !in last[SkipRun(last)..]
  {
    TokensInterleave(s);
    GapsSkipped(s);
    LastGapDropped(s);
  }

  /** The token after a skipped character is the token of the rest. */
  lemma {:induction false} TokensSkip(s: string)
    requires |s| > 0 && (s[0] == ')' || s[0] == ',')
    ensures Tokens(s) == Tokens(s[1..])
    ensures TokenGaps(s) == [[s[0]] + TokenGaps(s[1..])[0]] + TokenGaps(s[1..])[1..]
  {
  }

  /** A token at the start, and the rest after its ')'. */
  lemma {:induction false} TokensTake(s: string) returns (j: nat)
    requires |s| > 0 && s[0] != ')' && s[0] != ',' && ')' in s[1..]
    ensures j < |s|
    ensures Tokens(s) == [s[..j + 1]] + Tokens(s[j + 1..])
    ensures TokenGaps(s) == [""] + TokenGaps(s[j + 1..])
  {
    j := 1 + IndexOf(s[1..], ')');
  }

  lemma {:induction false} TokensInterleave(s: string)
    ensures |TokenGaps(s)| == |Tokens(s)| + 1
    ensures Interleave(TokenGaps(s), Tokens(s)) == s
    decreases |s|
  {
    if |s| == 0 {
    } else if s[0] == ')' || s[0] == ',' {
      TokensInterleave(s[1..]);
      SkipInterleave(s);
    } else if ')' !in s[1..] {
    } else {
      var j := TokensTake(s);
      TokensInterleave(s[j + 1..]);
      TakeInterleave(s, j, TokenGaps(s[j + 1..]), Tokens(s[j + 1..]));
    }
  }

  lemma {:induction false} SkipInterleave(s: string)
    requires |s| > 0 && (s[0] == ')' || s[0] == ',')
    requires |TokenGaps(s[1..])| == |Tokens(s[1..])| + 1
    requires Interleave(TokenGaps(s[1..]), Tokens(s[1..])) == s[1..]
    ensures |TokenGaps(s)| == |Tokens(s)| + 1
    ensures Interleave(TokenGaps(s), Tokens(s)) == s
  {
    TokensSkip(s);
    InterleaveHead(TokenGaps(s[1..]), Tokens(s[1..]), [s[0]]);
    assert [s[0]] + s[1..] == s;
  }

  lemma {:induction false} TakeInterleave(s: string, j: nat, gaps: seq<string>, ts: seq<string>)
    requires j < |s| && |gaps| == |ts| + 1
    requires Interleave(gaps, ts) == s[j + 1..]
    ensures Interleave([""] + gaps, [s[..j + 1]] + ts) == s
  {
    InterleaveCons("", s[..j + 1], gaps, ts);
    assert "" + s[..j + 1] + s[j + 1..] == s;
  }

  lemma {:induction false} InterleaveCons(g: string, p: string, gaps: seq<string>, parts: seq<string>)
    requires |gaps| == |parts| + 1
    ensures Interleave([g] + gaps, [p] + parts) == g + p + Interleave(gaps, parts)
  {
    assert ([g] + gaps)[1..] == gaps && ([p] + parts)[1..] == parts;
  }

  lemma {:induction false} GapsSkipped(s: string)
    ensures |TokenGaps(s)| == |Tokens(s)| + 1
    ensures forall k :: 0 <= k < |Tokens(s)| ==> SkipRun(TokenGaps(s)[k]) == |TokenGaps(s)[k]|
    decreases |s|
  {
    if |s| == 0 {
    } else if s[0] == ')' || s[0] == ',' {
      TokensSkip(s);
      GapsSkipped(s[1..]);
      var g := TokenGaps(s[1..]);
      if |Tokens(s)| > 0 {
        SkipRunCons(s[0], g[0]);
      }
    } else if ')' !in s[1..] {
    } else {
      var j := TokensTake(s);
      GapsSkipped(s[j + 1..]);
      var g := TokenGaps(s[j + 1..]);
      forall k | 0 <= k < |Tokens(s)|
        ensures SkipRun(TokenGaps(s)[k]) == |TokenGaps(s)[k]|
      {
        if k > 0 {
          assert TokenGaps(s)[k] == g[k - 1];
        }
      }
    }
  }

  lemma {:induction false} LastGapDropped(s: string)
    ensures |TokenGaps(s)| == |Tokens(s)| + 1
    ensures var last := TokenGaps(s)[|Tokens(s)|]; ')' !in last[SkipRun(last)..]
    decreases |s|
  {
    if |s| == 0 {
    } else if s[0] == ')' || s[0] == ',' {
      TokensSkip(s);
      LastGapDropped(s[1..]);
      var g := TokenGaps(s[1..]);
      var n := |Tokens(s)|;
      if n == 0 {
        SkipRunCons(s[0], g[0]);
        assert ([s[0]] + g[0])[1 + SkipRun(g[0])..] == g[0][SkipRun(g[0])..];
      } else {
        assert TokenGaps(s)[n] == g[n];
      }
    } else if ')' !in s[1..] {
      assert s == [s[0]] + s[1..];
    } else {
      var j := TokensTake(s);
      LastGapDropped(s[j + 1..]);
      var g := TokenGaps(s[j + 1..]);
      assert TokenGaps(s)[|Tokens(s)|] == g[|Tokens(s[j + 1..])|];
    }
  }

  lemma {:induction false} SkipRunCons(c: char, g: string)
    requires c == ')' || c == ','
    ensures SkipRun([c] + g) == 1 + SkipRun(g)
  {
    assert ([c] + g)[1..] == g;
  }

  /** Putting text in front of the first gap puts it in front of the whole. */
  lemma {:induction false} InterleaveHead(gaps: seq<string>, parts: seq<string>, c: string)
    requires |gaps| == |parts| + 1
    ensures Interleave([c + gaps[0]] + gaps[1..], parts) == c + Interleave(gaps, parts)
  {
    var gs := [c + gaps[0]] + gaps[1..];
    assert gs[1..] == gaps[1..];
  }

  /** The shape of a token: it does not start with ')' or ',', and its
      only ')' is its last character. */
  predicate IsToken(t: string) {
    && |t| >= 2
    && t[0] != ')' && t[0] != ','
    && t[|t| - 1] == ')'
    && ')' !in t[..|t| - 1]
  }

  /** `f` applied to every element, stopping at the first failure: the
      shape of the library's loops that throw on the first bad item. */
  function MapAll<A, B>(f: A -> Result<B>, xs: seq<A>): (r: Result<seq<B>>)
    ensures r.Ok? <==> forall k :: 0 <= k < |xs| ==> f(xs[k]).Ok?
    ensures r.Ok? ==> |r.value| == |xs| && forall k :: 0 <= k < |xs| ==> r.value[k] == f(xs[k]).value
    ensures r.Err? ==> exists k :: 0 <= k < |xs| && f(xs[k]) == Err(r.error)
                                   && forall m :: 0 <= m < k ==> f(xs[m]).Ok?
    decreases |xs|
  {
    if |xs| == 0 then Ok([])
    else
      var head := f(xs[0]);
      var rest := MapAll(f, xs[1..]);
      assert forall k :: 1 <= k < |xs| ==> xs[k] == xs[1..][k - 1];
      if head.Err? then Err(head.error)
      else if rest.Err? then
        ghost var k :| 0 <= k < |xs[1..]| && f(xs[1..][k]) == Err(rest.error)
                       && forall m :: 0 <= m < k ==> f(xs[1..][m]).Ok?;
        assert f(xs[k + 1]) == Err(rest.error);
        Err(rest.error)
      else Ok([head.value] + rest.value)
  }

  // ---------------------------------------------------------------------
  // The property table: repeated keys concatenate
  // ---------------------------------------------------------------------

  /** Adds one attribute to the table: a key already present gets the
      new values appended to its list in place, a new key goes at the end. */
  function Insert(props: seq<Property>, a: Attr): seq<Property>
    decreases |props|
  {
    if |props| == 0 then [Property(a.name, a.values)]
    else if props[0].key == a.name then [Property(a.name, props[0].values + a.values)] + props[1..]
    else [props[0]] + Insert(props[1..], a)
  }

  /** The table built from the attributes of one group, in order. */
  function Collect(attrs: seq<Attr>): seq<Property>
    decreases |attrs|
  {
    if |attrs| == 0 then []
    else Insert(Collect(attrs[..|attrs| - 1]), attrs[|attrs| - 1])
  }

  /** Reference definition: all values given under `key`, in encounter
      order, duplicates kept. */
  function Gather(attrs: seq<Attr>, key: string): seq<string>
    decreases |attrs|
  {
    if |attrs| == 0 then []
    else Gather(attrs[..|attrs| - 1], key) + (if attrs[|attrs| - 1].name == key then attrs[|attrs| - 1].values else [])
  }

  predicate Named(attrs: seq<Attr>, key: string) {
    exists k :: 0 <= k < |attrs| && attrs[k].name == key
  }

  /** Inserting adds the inserted key and no other. */
  lemma {:induction false} InsertKeys(props: seq<Property>, a: Attr, key: string)
    ensures HasKey(Insert(props, a), key) <==> HasKey(props, key) || key == a.name
  {
    InsertLookup(props, a, key);
  }

  /** Inserting keeps keys unique. */
  lemma {:induction false} InsertUnique(props: seq<Property>, a: Attr)
    requires UniqueKeys(props)
    ensures UniqueKeys(Insert(props, a))
    decreases |props|
  {
    var r := Insert(props, a);
    if |props| > 0 && props[0].key == a.name {
      assert forall k :: 1 <= k < |r| ==> r[k] == props[k];
    } else if |props| > 0 {
      InsertUnique(props[1..], a);
      InsertKeys(props[1..], a, props[0].key);
      var r' := Insert(props[1..], a);
      assert r == [props[0]] + r';
      assert !HasKey(props[1..], props[0].key) by {
        forall k | 0 <= k < |props[1..]|
          ensures props[1..][k].key != props[0].key
        {
          assert props[1..][k] == props[k + 1];
        }
      }
      forall i, j | 0 <= i < j < |r|
        ensures r[i].key != r[j].key
      {
        assert r[j] == r'[j - 1];
        if i > 0 {
          assert r[i] == r'[i - 1];
        }
      }
    }
  }

  /** Inserting touches only the inserted key: its values are extended,
      or it is added with the inserted values. */
  lemma {:induction false} InsertLookup(props: seq<Property>, a: Attr, key: string)
    ensures Lookup(Insert(props, a), key) ==
      if key != a.name then Lookup(props, key)
      else match Lookup(props, key)
        case None => Some(a.values)
        case Some(vs) => Some(vs + a.values)
    decreases |props|
  {
    if |props| > 0 && props[0].key != a.name {
      InsertLookup(props[1..], a, key);
      assert Insert(props, a)[1..] == Insert(props[1..], a);
    } else if |props| > 0 {
      assert Insert(props, a)[1..] == props[1..];
    }
  }

  /** A key never given has nothing gathered under it. */
  lemma {:induction false} GatherUnnamed(attrs: seq<Attr>, key: string)
    requires !Named(attrs, key)
    ensures Gather(attrs, key) == []
    decreases |attrs|
  {
    if |attrs| > 0 {
      var init := attrs[..|attrs| - 1];
      assert forall k :: 0 <= k < |init| ==> init[k] == attrs[k];
      GatherUnnamed(init, key);
    }
  }

  lemma {:induction false} NamedLast(attrs: seq<Attr>, key: string)
    requires |attrs| > 0
    ensures Named(attrs, key) <==> Named(attrs[..|attrs| - 1], key) || attrs[|attrs| - 1].name == key
  {
    var init := attrs[..|attrs| - 1];
    if Named(attrs, key) && attrs[|attrs| - 1].name != key {
      var k :| 0 <= k < |attrs| && attrs[k].name == key;
      assert init[k].name == key;
    }
    if Named(init, key) {
      var k :| 0 <= k < |init| && init[k].name == key;
      assert attrs[k].name == key;
    }
  }

  /** The table has unique keys, and a key maps to the concatenation of
      every value list given under it, in encounter order and without
      removing duplicates; keys never given are absent. */
  lemma {:induction false} CollectLookup(attrs: seq<Attr>, key: string)
    ensures UniqueKeys(Collect(attrs))
    ensures Lookup(Collect(attrs), key) == if Named(attrs, key) then Some(Gather(attrs, key)) else None
    decreases |attrs|
  {
    if |attrs| > 0 {
      var n := |attrs|;
      var init, last := attrs[..n - 1], attrs[n - 1];
      var c := Collect(init);
      CollectLookup(init, key);
      InsertUnique(c, last);
      InsertLookup(c, last, key);
      assert Collect(attrs) == Insert(c, last);
      NamedLast(attrs, key);
      if key != last.name {
        assert Gather(attrs, key) == Gather(init, key);
      } else if !Named(init, key) {
        GatherUnnamed(init, key);
        assert Gather(attrs, key) == last.values;
      } else {
        assert Gather(attrs, key) == Gather(init, key) + last.values;
      }
    }
  }

  lemma {:induction false} CollectUnique(attrs: seq<Attr>)
    ensures UniqueKeys(Collect(attrs))
  {
    CollectLookup(attrs, "");
  }

  // ---------------------------------------------------------------------
  // Groups and documents
  // ---------------------------------------------------------------------

  /** One group: its type attribute (which must carry a single value, the
      group's name) and its property table. Any bad attribute fails the
      group. */
  function ParseFragment(f: string): (r: Result<Node>)
    ensures r.Err? ==> r.error == BadAttribute || r.error == TypeHasMultipleNames
    ensures r.Ok? <==> && BreakAttribute(TypeSegment(f)).Ok?
                       && |BreakAttribute(TypeSegment(f)).value.values| == 1
                       && PropertyAttrs(f).Ok?
  {
    Assemble(BreakAttribute(TypeSegment(f)), PropertyAttrs(f))
  }

  /** A group from its type attribute and its property attributes, both
      already read. */
  function Assemble(ta: Result<Attr>, attrs: Result<seq<Attr>>): (r: Result<Node>)
    requires ta.Err? ==> ta.error == BadAttribute
    requires ta.Ok? ==> |ta.value.values| >= 1
    requires attrs.Err? ==> attrs.error == BadAttribute
    ensures r.Err? ==> r.error == BadAttribute || r.error == TypeHasMultipleNames
  {
    if ta.Err? then Err(ta.error)
    else if |ta.value.values| > 1 then Err(TypeHasMultipleNames)
    else if attrs.Err? then Err(attrs.error)
    else Ok(Node(ta.value.name, ta.value.values[0], Collect(attrs.value)))
  }

  lemma {:induction false} AssembleShape(ta: Result<Attr>, attrs: Result<seq<Attr>>)
    requires ta.Err? ==> ta.error == BadAttribute
    requires ta.Ok? ==> |ta.value.values| >= 1
    requires attrs.Err? ==> attrs.error == BadAttribute
    ensures Assemble(ta, attrs) == Err(TypeHasMultipleNames) <==> ta.Ok? && |ta.value.values| > 1
    ensures Assemble(ta, attrs).Ok? <==> ta.Ok? && |ta.value.values| == 1 && attrs.Ok?
    ensures ta.Ok? && |ta.value.values| == 1 && attrs.Ok? ==>
              Assemble(ta, attrs) == Ok(Node(ta.value.name, ta.value.values[0], Collect(attrs.value)))
    ensures Assemble(ta, attrs).Ok? ==>
              && ta == Ok(Attribute.Attr(Assemble(ta, attrs).value.kind, [Assemble(ta, attrs).value.name]))
              && UniqueKeys(Assemble(ta, attrs).value.props)
  {
    if ta.Ok? && |ta.value.values| <= 1 && attrs.Ok? {
      var a := ta.value;
      CollectUnique(attrs.value);
      assert a == Attribute.Attr(a.name, [a.values[0]]);
    }
  }

  /** A group fails with "multiple names" exactly when its type attribute
      reads with more than one value; a parsed group's type attribute
      reads as its type with its name as the single value, and its keys
      are unique. */
  lemma {:induction false} AssembleOk(ta: Result<Attr>, attrs: Result<seq<Attr>>)
    requires ta.Err? ==> ta.error == BadAttribute
    requires ta.Ok? ==> |ta.value.values| >= 1
    requires attrs.Err? ==> attrs.error == BadAttribute
    requires Assemble(ta, attrs).Ok?
    ensures attrs.Ok? && Assemble(ta, attrs).value.props == Collect(attrs.value)
  {
  }

  lemma {:induction false} ParseFragmentShape(f: string)
    ensures ParseFragment(f) == Err(TypeHasMultipleNames) <==>
              BreakAttribute(TypeSegment(f)).Ok? && |BreakAttribute(TypeSegment(f)).value.values| > 1
    ensures ParseFragment(f).Ok? <==>
              && BreakAttribute(TypeSegment(f)).Ok?
              && |BreakAttribute(TypeSegment(f)).value.values| == 1
              && PropertyAttrs(f).Ok?
    ensures var ta := BreakAttribute(TypeSegment(f));
      ta.Ok? && |ta.value.values| == 1 && PropertyAttrs(f).Ok? ==>
        ParseFragment(f) == Ok(Node(ta.value.name, ta.value.values[0], Collect(PropertyAttrs(f).value)))
    ensures ParseFragment(f).Ok? ==>
              && BreakAttribute(TypeSegment(f)) == Ok(Attribute.Attr(ParseFragment(f).value.kind, [ParseFragment(f).value.name]))
              && UniqueKeys(ParseFragment(f).value.props)
  {
    AssembleShape(BreakAttribute(TypeSegment(f)), PropertyAttrs(f));
  }

  /** The attributes of a group's property text, if it has one. */
  function PropertyAttrs(f: string): (r: Result<seq<Attr>>)
    ensures r.Err? ==> r.error == BadAttribute
  {
    match PropertyText(f)
    case None => Ok([])
    case Some(body) => MapAll(BreakAttribute, Tokens(body))
  }

  /** Repeated keys within one group: each key of the parsed group holds
      every value written under it, concatenated in order, duplicates
      kept. */
  lemma {:induction false} ParseFragmentKeys(f: string, key: string)
    requires ParseFragment(f).Ok?
    ensures PropertyAttrs(f).Ok?
    ensures var attrs := PropertyAttrs(f).value;
      Lookup(ParseFragment(f).value.props, key) == if Named(attrs, key) then Some(Gather(attrs, key)) else None
  {
    var ta := BreakAttribute(TypeSegment(f));
    var attrs := PropertyAttrs(f);
    assert ParseFragment(f) == Assemble(ta, attrs);
    AssembleOk(ta, attrs);
    CollectLookup(attrs.value, key);
  }

  /** `WPP.parse`: normalize, split into fragments, parse each. No `}`
      after normalizing means no groups; otherwise there is one node per
      fragment, in order, or the error of the first bad fragment and no
      partial result. */
  function Parse(s: string): (r: Result<Document>)
    ensures r == Err(NoGroups) <==> '}' !in Normalize(s)
    ensures r.Err? ==> r.error != NoType && r.error != NotWPPExtended
    ensures r.Ok? ==> var fs := Fragments(Normalize(s));
      |r.value| == |fs| && forall k :: 0 <= k < |fs| ==> ParseFragment(fs[k]) == Ok(r.value[k])
    ensures '}' in Normalize(s) && AllRead(Fragments(Normalize(s))) ==> r.Ok?
    ensures r.Err? && r.error != NoGroups ==> FirstBad(Fragments(Normalize(s)), r.error)
  {
    ParseAll(Fragments(Normalize(s)))
  }

  /** Every fragment reads as a group. */
  predicate AllRead(fs: seq<string>) {
    forall k :: 0 <= k < |fs| ==> ParseFragment(fs[k]).Ok?
  }

  /** `e` is the error of the first fragment that does not read. */
  predicate FirstBad(fs: seq<string>, e: Error) {
    exists k :: 0 <= k < |fs| && ParseFragment(fs[k]) == Err(e)
                && forall m :: 0 <= m < k ==> ParseFragment(fs[m]).Ok?
  }

  /** The groups of the fragments, in order; none at all is an error. */
  function ParseAll(fs: seq<string>): (r: Result<Document>)
    ensures r == Err(NoGroups) <==> |fs| == 0
    ensures r.Err? ==> r.error != NoType && r.error != NotWPPExtended
    ensures r.Ok? ==> |r.value| == |fs| && forall k :: 0 <= k < |fs| ==> ParseFragment(fs[k]) == Ok(r.value[k])
    ensures |fs| > 0 && AllRead(fs) ==> r.Ok?
    ensures r.Err? && r.error != NoGroups ==> FirstBad(fs, r.error)
  {
    if |fs| == 0 then Err(NoGroups)
    else
      var r := MapAll(ParseFragment, fs);
      assert r.Err? ==> r.error == BadAttribute || r.error == TypeHasMultipleNames by {
        if r.Err? {
          var k :| 0 <= k < |fs| && ParseFragment(fs[k]) == Err(r.error);
        }
      }
      r
  }
}
