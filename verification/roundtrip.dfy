/** `WPP.validate` on documents whose text needs no escaping: writing a
    document and parsing it back gives the document in canonical form,
    and a canonical document back unchanged. */
module RoundTrip {
  import opened Text
  import opened Results
  import opened Documents
  import opened Attribute
  import opened Normalizer
  import opened Parser
  import opened Serializer

  // ---------------------------------------------------------------------
  // Documents the text format can carry
  // ---------------------------------------------------------------------

  /** The characters the W++ syntax gives a meaning to. */
  const Reserved: set<char> := {'#', '(', ')', '{', '}', '+', ','}

  /** Text with no white space and no reserved character. */
  predicate Plain(s: string) {
    forall k :: 0 <= k < |s| ==> s[k] !in Whitespace && s[k] !in Reserved
  }

  predicate PlainProperty(p: Property) {
    Plain(p.key) && forall j :: 0 <= j < |p.values| ==> Plain(p.values[j])
  }

  predicate PlainNode(n: Node) {
    && Plain(n.kind) && Plain(n.name)
    && forall i :: 0 <= i < |n.props| ==> PlainProperty(n.props[i])
  }

  predicate PlainDocument(d: Document) {
    forall k :: 0 <= k < |d| ==> PlainNode(d[k])
  }

  // ---------------------------------------------------------------------
  // Properties written and read back
  // ---------------------------------------------------------------------

  /** The written form of a property. */
  function Token(p: Property): string {
    Render(Written(p))
  }

  /** The tokens of the properties that are written, in order. */
  function TokensOf(props: seq<Property>): seq<string>
    decreases |props|
  {
    if |props| == 0 then []
    else (if Skipped(props[0]) then [] else [Token(props[0])]) + TokensOf(props[1..])
  }

  /** What reading a property's token gives: its non-empty values, or a
      single empty value when it has none (`key()` reads as `[""]`). */
  function ReadBack(p: Property): Attr {
    var vs := NonEmpty(p.values);
    Attr(p.key, if |vs| == 0 then [""] else vs)
  }

  /** The attributes read back from the properties that are written. */
  function ReadBacks(props: seq<Property>): seq<Attr>
    decreases |props|
  {
    if |props| == 0 then []
    else (if Skipped(props[0]) then [] else [ReadBack(props[0])]) + ReadBacks(props[1..])
  }

  /** `key()` reads as the key with one empty value. */
  lemma {:induction false} BreakEmptyToken(key: string)
    requires Plain(key)
    ensures BreakAttribute(Render(Attr(key, []))) == Ok(Attr(key, [""]))
  {
    var a := Attr(key, []);
    assert Join(QuoteAll([]), "+") == "";
    RenderShape(a);
    var s := Render(a);
    BreakAttributeParts(s, |key|);
    var inner := s[|key| + 1..|s| - 1];
    assert inner == "";
    var parts := Split(inner, '+');
    assert Count(inner, '+') == 0;
    assert |parts| == 1 && Join(parts, "+") == parts[0];
    var r := BreakAttribute(s).value;
    assert r.name == key;
    assert |r.values| == 1 && r.values[0] == Unquote(parts[0]) == "";
    assert r.values == [""];
  }

  /** Reading a head and a tail that both read. */
  lemma {:induction false} MapAllCons<A, B>(f: A -> Result<B>, x: A, xs: seq<A>, b: B, bs: seq<B>)
    requires f(x) == Ok(b) && MapAll(f, xs) == Ok(bs)
    ensures MapAll(f, [x] + xs) == Ok([b] + bs)
  {
    var ys := [x] + xs;
    assert forall k :: 1 <= k < |ys| ==> ys[k] == xs[k - 1];
    assert MapAll(f, ys).Ok?;
    assert MapAll(f, ys).value == [b] + bs;
  }

  /** A plain property's token reads back as `ReadBack`. */
  lemma {:induction false} BreakToken(p: Property)
    requires PlainProperty(p)
    ensures BreakAttribute(Token(p)) == Ok(ReadBack(p))
  {
    var vs := NonEmpty(p.values);
    forall k | 0 <= k < |vs|
      ensures Plain(vs[k])
    {
      assert multiset(vs)[vs[k]] > 0;
      assert vs[k] in p.values;
    }
    if |vs| == 0 {
      BreakEmptyToken(p.key);
    } else {
      assert Renderable(Written(p));
      BreakRender(Written(p));
    }
  }

  /** Reading every written token gives every `ReadBack`, in order. */
  lemma {:induction false} BreakTokens(props: seq<Property>)
    requires forall i :: 0 <= i < |props| ==> PlainProperty(props[i])
    ensures MapAll(BreakAttribute, TokensOf(props)) == Ok(ReadBacks(props))
    decreases |props|
  {
    if |props| > 0 {
      BreakTokens(props[1..]);
      if !Skipped(props[0]) {
        BreakToken(props[0]);
        MapAllCons(BreakAttribute, Token(props[0]), TokensOf(props[1..]),
                   ReadBack(props[0]), ReadBacks(props[1..]));
      } else {
        assert TokensOf(props) == TokensOf(props[1..]);
        assert ReadBacks(props) == ReadBacks(props[1..]);
      }
    }
  }

  /** A plain property's token has the token shape. */
  lemma {:induction false} TokenShape(p: Property)
    requires PlainProperty(p)
    ensures IsToken(Token(p))
  {
    var vs := NonEmpty(p.values);
    var qs := QuoteAll(vs);
    forall k | 0 <= k < |qs|
      ensures ')' !in qs[k]
    {
      assert multiset(vs)[vs[k]] > 0;
      assert vs[k] in p.values;
      assert qs[k] == ['"'] + vs[k] + ['"'];
    }
    JoinAvoids(qs, "+", ')');
    var j := Join(qs, "+");
    var t := Token(p);
    assert t == p.key + ['('] + j + [')'];
    assert t[..|t| - 1] == p.key + ['('] + j;
    assert t[0] == if |p.key| > 0 then p.key[0] else '(';
  }

  /** The first ')' of a token followed by more text is the token's last
      character. */
  lemma {:induction false} FirstClose(t: string, rest: string)
    requires IsToken(t)
    ensures var s := t + rest; ')' in s[1..] && 1 + IndexOf(s[1..], ')') == |t| - 1
  {
    var s := t + rest;
    var u := s[1..];
    assert u[|t| - 2] == ')';
    assert u[..|t| - 2] == t[..|t| - 1][1..];
    IndexOfAt(u, ')', |t| - 2);
  }

  /** Tokens written one after another are split back into themselves. */
  lemma {:induction false} TokensConcat(ts: seq<string>)
    requires forall k :: 0 <= k < |ts| ==> IsToken(ts[k])
    ensures Tokens(Concat(ts)) == ts
    decreases |ts|
  {
    if |ts| > 0 {
      var t := ts[0];
      var rest := Concat(ts[1..]);
      var s := Concat(ts);
      assert s == t + rest;
      FirstClose(t, rest);
      TokensConcat(ts[1..]);
      assert s[0] == t[0];
      assert s[..|t|] == t;
      assert s[|t|..] == rest;
      assert ts == [t] + ts[1..];
    }
  }

  lemma {:induction false} TokensOfShape(props: seq<Property>)
    requires forall i :: 0 <= i < |props| ==> PlainProperty(props[i])
    ensures forall k :: 0 <= k < |TokensOf(props)| ==> IsToken(TokensOf(props)[k])
    decreases |props|
  {
    if |props| > 0 {
      TokensOfShape(props[1..]);
      if !Skipped(props[0]) {
        TokenShape(props[0]);
        var ts := TokensOf(props);
        assert forall k :: 1 <= k < |ts| ==> ts[k] == TokensOf(props[1..])[k - 1];
      } else {
        assert TokensOf(props) == TokensOf(props[1..]);
      }
    }
  }

  // ---------------------------------------------------------------------
  // Groups written on one line and read back
  // ---------------------------------------------------------------------

  /** The characters a token never holds: white space and the reserved
      characters other than its own parentheses and separator. */
  const Foreign: set<char> := Whitespace + (Reserved - {'(', ')', '+'})

  lemma {:induction false} PlainAvoids(s: string, c: char)
    requires Plain(s) && (c in Whitespace || c in Reserved)
    ensures c !in s
  {
  }

  lemma {:induction false} ForeignFacts(c: char)
    requires c in Foreign
    ensures (c in Whitespace || c in Reserved) && c != '"' && c != '(' && c != ')' && c != '+'
  {
  }

  /** The values a property writes are among its values. */
  lemma {:induction false} NonEmptyMember(vs: seq<string>, k: nat)
    requires k < |NonEmpty(vs)|
    ensures NonEmpty(vs)[k] in vs
  {
    var ws := NonEmpty(vs);
    assert multiset(ws)[ws[k]] > 0;
  }

  lemma {:induction false} TokenAvoids(p: Property, c: char)
    requires PlainProperty(p) && c in Foreign
    ensures c !in Token(p)
  {
    var vs := NonEmpty(p.values);
    var qs := QuoteAll(vs);
    ForeignFacts(c);
    PlainAvoids(p.key, c);
    forall k | 0 <= k < |qs|
      ensures c !in qs[k]
    {
      NonEmptyMember(p.values, k);
      PlainAvoids(vs[k], c);
      assert qs[k] == ['"'] + vs[k] + ['"'];
    }
    JoinAvoids(qs, "+", c);
    assert Token(p) == p.key + ['('] + Join(qs, "+") + [')'];
  }

  /** The property text of a group written on one line. */
  function Body(props: seq<Property>): string {
    Concat(TokensOf(props))
  }

  lemma {:induction false} BodyAvoids(props: seq<Property>, c: char)
    requires forall i :: 0 <= i < |props| ==> PlainProperty(props[i])
    requires c in Foreign
    ensures c !in Body(props)
    decreases |props|
  {
    if |props| > 0 {
      BodyAvoids(props[1..], c);
      var ts := TokensOf(props);
      if !Skipped(props[0]) {
        TokenAvoids(props[0], c);
        assert ts == [Token(props[0])] + TokensOf(props[1..]);
        assert ts[1..] == TokensOf(props[1..]);
        assert Concat(ts) == Token(props[0]) + Body(props[1..]);
      } else {
        assert ts == TokensOf(props[1..]);
      }
    }
  }

  /** The type attribute of a group as written: `type("name")`. */
  function Head(n: Node): string {
    n.kind + "(\"" + n.name + "\")"
  }

  /** A group as normal mode writes it, line breaks removed. */
  function FlatNode(n: Node): string {
    "[" + Head(n) + "{" + Body(n.props) + "}]"
  }

  lemma {:induction false} HeadAvoids(n: Node, c: char)
    requires PlainNode(n) && c in Foreign
    ensures c !in Head(n) && c !in "[" + Head(n)
  {
    assert c in Whitespace || c in Reserved;
    PlainAvoids(n.kind, c);
    PlainAvoids(n.name, c);
    assert c != '"' && c != '(' && c != ')' && c != '[';
  }

  lemma {:induction false} HeadIsRendered(n: Node)
    ensures Head(n) == Render(Attr(n.kind, [n.name]))
  {
    assert QuoteAll([n.name]) == [Quote(n.name)];
    assert Join([Quote(n.name)], "+") == Quote(n.name);
  }

  /** The type attribute of a written group reads back as type and name. */
  lemma {:induction false} BreakHead(n: Node)
    requires PlainNode(n)
    ensures BreakAttribute(Head(n)) == Ok(Attr(n.kind, [n.name]))
  {
    HeadIsRendered(n);
    PlainAvoids(n.kind, '(');
    PlainAvoids(n.name, '+');
    PlainAvoids(n.name, ')');
    var a := Attr(n.kind, [n.name]);
    assert |n.kind| == 0 || !IsWs(n.kind[0]);
    assert Renderable(a);
    BreakRender(a);
  }

  /** The type segment of a written group is its type attribute. */
  lemma {:induction false} TypeOfFlat(n: Node)
    requires PlainNode(n)
    ensures TypeSegment(FlatNode(n)) == Head(n)
  {
    var f := FlatNode(n);
    var pre := "[" + Head(n);
    HeadAvoids(n, '{');
    assert f == pre + "{" + Body(n.props) + "}]";
    assert f[..|pre|] == pre;
    IndexOfAt(f, '{', |pre|);
    assert pre[1..] == Head(n);
  }

  /** The property text of a written group is its body. */
  lemma {:induction false} BodyOfFlat(n: Node)
    requires PlainNode(n)
    ensures PropertyText(FlatNode(n)) == Some(Body(n.props))
  {
    var f := FlatNode(n);
    var pre := "[" + Head(n);
    var b := Body(n.props);
    HeadAvoids(n, '{');
    HeadAvoids(n, '}');
    BodyAvoids(n.props, '}');
    assert f == pre + "{" + b + "}]";
    var c := |pre| + 1 + |b|;
    assert f[..c] == pre + "{" + b;
    IndexOfAt(f, '}', c);
    assert f[|pre| + 1..c] == b;
    assert NoLineBreak(b) by {
      forall ch | ch in LineTerminators
        ensures ch !in b
      {
        BodyAvoids(n.props, ch);
      }
    }
    assert f[|pre|] == '{';
    var r := BodyStart(f, 0, c);
    assert r.Some? && r.value <= |pre|;
    assert f[..|pre|] == pre;
    assert r.value == |pre|;
  }

  /** What a group written by normal mode reads back as: its type and
      name, and the table of its written properties as read back. */
  function Canon(n: Node): Node {
    Node(n.kind, n.name, Collect(ReadBacks(n.props)))
  }

  /** A written group parses to its canonical form. */
  lemma {:induction false} ParseFlat(n: Node)
    requires PlainNode(n)
    ensures ParseFragment(FlatNode(n)) == Ok(Canon(n))
  {
    TypeOfFlat(n);
    BreakHead(n);
    BodyOfFlat(n);
    TokensOfShape(n.props);
    TokensConcat(TokensOf(n.props));
    BreakTokens(n.props);
  }

  // ---------------------------------------------------------------------
  // Whole documents
  // ---------------------------------------------------------------------

  const Breaks: set<char> := {'\r', '\n'}

  lemma {:induction false} PlainNoBreaks(s: string)
    requires Plain(s)
    ensures Remove(s, Breaks) == s
  {
    RemoveNothing(s, Breaks);
  }

  /** The property lines without their line feeds are the body. */
  lemma {:induction false} RenderPropsFlat(props: seq<Property>)
    requires forall i :: 0 <= i < |props| ==> PlainProperty(props[i])
    ensures Remove(RenderProps(props), Breaks) == Body(props)
    decreases |props|
  {
    if |props| > 0 {
      var rest := RenderProps(props[1..]);
      if Skipped(props[0]) {
        calc {
          Remove(RenderProps(props), Breaks);
          { assert RenderProps(props) == rest; }
          Remove(rest, Breaks);
          { RenderPropsFlat(props[1..]); }
          Body(props[1..]);
          { assert TokensOf(props) == TokensOf(props[1..]); }
          Body(props);
        }
      } else {
        var t := Token(props[0]);
        calc {
          Remove(RenderProps(props), Breaks);
          { assert RenderProps(props) == t + ['\n'] + rest; }
          Remove(t + ['\n'] + rest, Breaks);
          { RemoveDrop(t, '\n', rest, Breaks); }
          Remove(t, Breaks) + Remove(rest, Breaks);
          { TokenAvoids(props[0], '\r'); TokenAvoids(props[0], '\n'); RemoveNothing(t, Breaks); }
          t + Remove(rest, Breaks);
          { RenderPropsFlat(props[1..]); }
          t + Body(props[1..]);
          { BodyStep(props); }
          Body(props);
        }
      }
    }
  }

  lemma {:induction false} BodyStep(props: seq<Property>)
    requires |props| > 0 && !Skipped(props[0])
    ensures Body(props) == Token(props[0]) + Body(props[1..])
  {
    var ts := TokensOf(props);
    assert ts == [Token(props[0])] + TokensOf(props[1..]);
    assert ts[1..] == TokensOf(props[1..]);
  }

  /** A group as normal mode writes it, line breaks removed, is the
      one-line form. */
  lemma {:induction false} RenderNodeSplit(n: Node)
    ensures RenderNode(n) == ("[" + Head(n) + "{") + ['\n'] + (RenderProps(n.props) + "}]")
  {
  }

  lemma {:induction false} RemoveClose(props: string)
    ensures Remove(props + "}]", Breaks) == Remove(props, Breaks) + "}]"
  {
    RemoveKeepTail(props, "}]", Breaks);
  }

  lemma {:induction false} RemoveFrame(pre: string, props: string, body: string)
    requires Remove(pre, Breaks) == pre && Remove(props, Breaks) == body
    ensures Remove(pre + ['\n'] + (props + "}]"), Breaks) == pre + body + "}]"
  {
    RemoveDrop(pre, '\n', props + "}]", Breaks);
    RemoveClose(props);
  }

  lemma {:induction false} RenderNodeFlat(n: Node)
    requires PlainNode(n)
    ensures Remove(RenderNode(n), Breaks) == FlatNode(n)
  {
    var pre := "[" + Head(n) + "{";
    RenderNodeSplit(n);
    assert Remove(pre, Breaks) == pre by {
      HeadAvoids(n, '\r');
      HeadAvoids(n, '\n');
      RemoveNothing(pre, Breaks);
    }
    RenderPropsFlat(n.props);
    RemoveFrame(pre, RenderProps(n.props), Body(n.props));
  }

  /** Every line with its line breaks removed. */
  function RemoveEach(parts: seq<string>): (r: seq<string>)
    ensures |r| == |parts| && forall k :: 0 <= k < |parts| ==> r[k] == Remove(parts[k], Breaks)
    decreases |parts|
  {
    if |parts| == 0 then [] else [Remove(parts[0], Breaks)] + RemoveEach(parts[1..])
  }

  /** Lines joined by line feeds, line breaks removed: the lines without
      their line breaks, one after another. */
  lemma {:induction false} RemoveJoinLines(parts: seq<string>)
    ensures Remove(Join(parts, "\n"), Breaks) == Concat(RemoveEach(parts))
    decreases |parts|
  {
    if |parts| == 1 {
      assert Concat(RemoveEach(parts)) == Remove(parts[0], Breaks) + Concat([]);
    } else if |parts| > 1 {
      RemoveJoinLines(parts[1..]);
      var rest := Join(parts[1..], "\n");
      assert Join(parts, "\n") == parts[0] + ['\n'] + rest;
      RemoveDrop(parts[0], '\n', rest, Breaks);
      assert RemoveEach(parts)[1..] == RemoveEach(parts[1..]);
    }
  }

  /** Every group in its one-line form. */
  function Flats(d: Document): (fs: seq<string>)
    ensures |fs| == |d| && forall k :: 0 <= k < |d| ==> fs[k] == FlatNode(d[k])
  {
    seq(|d|, k requires 0 <= k < |d| => FlatNode(d[k]))
  }

  /** Normal output without its line breaks is the groups' one-line
      forms, one after another. */
  lemma {:induction false} GroupsTextFlat(d: Document)
    requires PlainDocument(d)
    ensures Remove(GroupsText(Many(d)), Breaks) == Concat(Flats(d))
  {
    var parts := RenderAll(d);
    RemoveJoinLines(parts);
    forall k | 0 <= k < |d|
      ensures Remove(parts[k], Breaks) == FlatNode(d[k])
    {
      RenderNodeFlat(d[k]);
    }
    assert RemoveEach(parts) == Flats(d);
  }

  /** Normal output of a plain document holds no layout character other
      than line breaks. */
  lemma {:induction false} GroupsTextLayout(d: Document)
    requires PlainDocument(d)
    ensures forall c :: c in Layout && c != '\r' && c != '\n' ==> c !in GroupsText(Many(d))
  {
    var text := GroupsText(Many(d));
    forall c | c in Layout && c != '\r' && c != '\n'
      ensures c !in text
    {
      assert c in Whitespace || c == '#';
      FlatsAvoid(d, c);
      GroupsTextFlat(d);
      RemoveAbsent(text, Breaks, c);
    }
  }

  /** A character that is not removed and is absent after removal was
      absent before. */
  lemma {:induction false} RemoveAbsent(s: string, cs: set<char>, c: char)
    requires c !in cs && c !in Remove(s, cs)
    ensures c !in s
  {
    RemoveCount(s, cs, c);
  }

  /** White space and '#' are foreign to the written syntax. */
  lemma {:induction false} LayoutForeign(c: char)
    requires c in Whitespace || c == '#'
    ensures c in Foreign && c != '[' && c != '{' && c != '}' && c != ']'
  {
  }

  /** The one-line form of a group holds no white space and no '#'. */
  lemma {:induction false} FlatAvoids(n: Node, c: char)
    requires PlainNode(n) && (c in Whitespace || c == '#')
    ensures c !in FlatNode(n)
  {
    LayoutForeign(c);
    var h := "[" + Head(n);
    var b := Body(n.props);
    assert c !in h by { HeadAvoids(n, c); }
    assert c !in b by { BodyAvoids(n.props, c); }
    assert FlatNode(n) == h + "{" + b + "}]";
  }

  lemma {:induction false} FlatsAvoid(d: Document, c: char)
    requires PlainDocument(d) && (c in Whitespace || c == '#')
    ensures c !in Concat(Flats(d))
  {
    forall k | 0 <= k < |d|
      ensures c !in Flats(d)[k]
    {
      FlatAvoids(d[k], c);
    }
    ConcatAvoids(Flats(d), c);
  }

  /** Compacting normal output of a plain document only drops its line
      breaks: the groups' one-line forms, one after another. */
  lemma {:induction false} NormalizeGroups(d: Document)
    requires PlainDocument(d)
    ensures Normalize(GroupsText(Many(d))) == Concat(Flats(d))
  {
    GroupsTextLayout(d);
    NormalizePlain(GroupsText(Many(d)));
    GroupsTextFlat(d);
  }

  // ---------------------------------------------------------------------
  // Splitting into fragments
  // ---------------------------------------------------------------------

  /** Text that ends with `}]` and has no other '}'. */
  predicate Closed(f: string) {
    |f| >= 2 && f[|f| - 2] == '}' && f[|f| - 1] == ']' && '}' !in f[..|f| - 2]
  }

  lemma {:induction false} FlatClosed(n: Node)
    requires PlainNode(n)
    ensures Closed(FlatNode(n))
  {
    var f := FlatNode(n);
    HeadAvoids(n, '}');
    BodyAvoids(n.props, '}');
    assert f[..|f| - 2] == "[" + Head(n) + "{" + Body(n.props);
  }

  /** Closed pieces written one after another split back into the same
      pieces. */
  lemma {:induction false} FragmentsConcat(fs: seq<string>)
    requires forall k :: 0 <= k < |fs| ==> Closed(fs[k])
    ensures Fragments(Concat(fs)) == fs
    decreases |fs|
  {
    if |fs| > 0 {
      var f := fs[0];
      var rest := Concat(fs[1..]);
      var s := Concat(fs);
      assert s == f + rest;
      var j := |f| - 2;
      assert s[..j] == f[..j];
      IndexOfAt(s, '}', j);
      assert FragmentEnd(s) == |f|;
      assert s[..|f|] == f;
      assert s[|f|..] == rest;
      FragmentsConcat(fs[1..]);
    }
  }

  // ---------------------------------------------------------------------
  // The round trip
  // ---------------------------------------------------------------------

  /** Every group in canonical form. */
  function Canons(d: Document): (r: Document)
    ensures |r| == |d| && forall k :: 0 <= k < |d| ==> r[k] == Canon(d[k])
  {
    seq(|d|, k requires 0 <= k < |d| => Canon(d[k]))
  }

  /** The fragments of compacted normal output of a plain document are
      the groups' one-line forms. */
  lemma {:induction false} NormalFragments(d: Document)
    requires PlainDocument(d)
    ensures Fragments(Normalize(GroupsText(Many(d)))) == Flats(d)
  {
    NormalizeGroups(d);
    forall k | 0 <= k < |d|
      ensures Closed(Flats(d)[k])
    {
      FlatClosed(d[k]);
    }
    FragmentsConcat(Flats(d));
  }

  /** Each one-line form parses to its group's canonical form. */
  lemma {:induction false} ParseFlats(d: Document)
    requires PlainDocument(d)
    ensures MapAll(ParseFragment, Flats(d)) == Ok(Canons(d))
  {
    var fs := Flats(d);
    forall k | 0 <= k < |fs|
      ensures ParseFragment(fs[k]) == Ok(Canon(d[k]))
    {
      ParseFlat(d[k]);
    }
    var r := MapAll(ParseFragment, fs);
    assert r.Ok?;
    assert r.value == Canons(d);
  }

  /** Validating a plain document gives every group in canonical form,
      and fails with "no groups" exactly when the document is empty. */
  lemma {:induction false} ValidatePlain(d: Document)
    requires PlainDocument(d)
    ensures Validate(d) == if |d| == 0 then Err(NoGroups) else Ok(Canons(d))
  {
    var text := GroupsText(Many(d));
    assert Validate(d) == Parse(text);
    NormalFragments(d);
    if |d| > 0 {
      ParseFlats(d);
    }
  }

  // ---------------------------------------------------------------------
  // Canonical documents
  // ---------------------------------------------------------------------

  /** A property every value of which survives writing and reading. */
  predicate CanonicalProperty(p: Property) {
    |p.values| > 0 && forall j :: 0 <= j < |p.values| ==> p.values[j] != ""
  }

  /** A group that reads back as itself: unique keys, each with at least
      one value and no empty value. */
  predicate CanonicalNode(n: Node) {
    UniqueKeys(n.props) && forall i :: 0 <= i < |n.props| ==> CanonicalProperty(n.props[i])
  }

  lemma {:induction false} NonEmptyKeeps(vs: seq<string>)
    requires forall j :: 0 <= j < |vs| ==> vs[j] != ""
    ensures NonEmpty(vs) == vs
    decreases |vs|
  {
    if |vs| > 0 {
      NonEmptyKeeps(vs[1..]);
      assert vs == [vs[0]] + vs[1..];
    }
  }

  /** Canonical properties read back as themselves, in order. */
  lemma {:induction false} ReadBacksCanonical(props: seq<Property>)
    requires forall i :: 0 <= i < |props| ==> CanonicalProperty(props[i])
    ensures |ReadBacks(props)| == |props|
    ensures forall i :: 0 <= i < |props| ==> ReadBacks(props)[i] == Attr(props[i].key, props[i].values)
    decreases |props|
  {
    if |props| > 0 {
      ReadBacksCanonical(props[1..]);
      NonEmptyKeeps(props[0].values);
      assert !Skipped(props[0]);
      assert ReadBacks(props) == [Attr(props[0].key, props[0].values)] + ReadBacks(props[1..]);
    }
  }

  /** A key not yet in the table goes at its end. */
  lemma {:induction false} InsertFresh(props: seq<Property>, a: Attr)
    requires forall i :: 0 <= i < |props| ==> props[i].key != a.name
    ensures Insert(props, a) == props + [Property(a.name, a.values)]
    decreases |props|
  {
    if |props| > 0 {
      InsertFresh(props[1..], a);
      assert props == [props[0]] + props[1..];
    }
  }

  /** Attributes with distinct names collect into the table that lists
      them in order. */
  lemma {:induction false} CollectDistinct(attrs: seq<Attr>, props: seq<Property>)
    requires |attrs| == |props| && UniqueKeys(props)
    requires forall i :: 0 <= i < |props| ==> attrs[i] == Attr(props[i].key, props[i].values)
    ensures Collect(attrs) == props
    decreases |attrs|
  {
    if |attrs| > 0 {
      var n := |attrs|;
      var init := props[..n - 1];
      assert UniqueKeys(init);
      CollectDistinct(attrs[..n - 1], init);
      InsertFresh(init, attrs[n - 1]);
      assert props == init + [props[n - 1]];
    }
  }

  /** A plain canonical group is its own canonical form. */
  lemma {:induction false} CanonFixed(n: Node)
    requires CanonicalNode(n)
    ensures Canon(n) == n
  {
    ReadBacksCanonical(n.props);
    CollectDistinct(ReadBacks(n.props), n.props);
  }

  /** Validating a plain document of canonical groups gives it back
      unchanged. */
  lemma {:induction false} ValidateCanonical(d: Document)
    requires |d| > 0 && PlainDocument(d)
    requires forall k :: 0 <= k < |d| ==> CanonicalNode(d[k])
    ensures Validate(d) == Ok(d)
  {
    assert Canons(d) == d by {
      forall k | 0 <= k < |d|
        ensures Canons(d)[k] == d[k]
      {
        CanonFixed(d[k]);
      }
    }
    ValidatePlain(d);
  }
}
