/** `WPP.breakAttribute`: one `name("v1"+"v2"+...)` token into its name
    and its list of values. */
module Attribute {
  import opened Text
  import opened Results

  datatype Attr = Attr(name: string, values: seq<string>)

  /** `s` has the shape `^[^(]*\([^)]*\)$` with its first '(' at `i`: a
      prefix free of '(', the '(', an inner text free of ')' (it may hold
      '('), and a final ')'. */
  predicate Shape(s: string, i: nat) {
    && i + 1 < |s|
    && s[i] == '('
    && '(' !in s[..i]
    && s[|s| - 1] == ')'
    && ')' !in s[i + 1..|s| - 1]
  }

  /** The '(' of a well-shaped token is its first one. */
  lemma {:induction false} ShapeAtFirstParen(s: string, i: nat)
    requires Shape(s, i)
    ensures '(' in s && i == IndexOf(s, '(')
  {
  }

  /** Every piece with one quote dropped from either end. */
  function UnquoteAll(ps: seq<string>): (r: seq<string>)
    ensures |r| == |ps| && forall k :: 0 <= k < |ps| ==> r[k] == Unquote(ps[k])
  {
    seq(|ps|, k requires 0 <= k < |ps| => Unquote(ps[k]))
  }

  /** Unquoting undoes quoting, whatever the values hold. */
  lemma {:induction false} UnquoteQuoteAll(vs: seq<string>)
    ensures UnquoteAll(QuoteAll(vs)) == vs
  {
    forall k | 0 <= k < |vs|
      ensures Unquote(Quote(vs[k])) == vs[k]
    {
      var q := Quote(vs[k]);
      assert q[1..|q| - 1] == vs[k];
    }
  }

  /** The breakAttribute algorithm: trim, check the shape, take the text
      before the first '(' as the name, split the text inside the
      parentheses on '+', and unquote every piece. The capitalised copy
      the library computes from the values is discarded there, so values
      keep their case. */
  function BreakAttribute(str: string): (r: Result<Attr>)
    ensures r.Ok? ==> |r.value.values| >= 1
    ensures r.Err? ==> r.error == BadAttribute
  {
    BreakTrimmed(Trim(str))
  }

  /** The algorithm once the token is trimmed. */
  function BreakTrimmed(s: string): (r: Result<Attr>)
    ensures r.Ok? ==> |r.value.values| >= 1
    ensures r.Err? ==> r.error == BadAttribute
  {
    if '(' !in s then Err(BadAttribute)
    else
      var i := IndexOf(s, '(');
      if i + 1 < |s| && s[|s| - 1] == ')' && ')' !in s[i + 1..|s| - 1] then
        var pieces := Split(s[i + 1..|s| - 1], '+');
        Ok(Attr(s[..i], UnquoteAll(pieces)))
      else
        Err(BadAttribute)
  }

  /** A trimmed token of the accepted shape breaks into the text before
      its '(' and the unquoted pieces of its inner text. */
  lemma {:induction false} BreakTrimmedAt(s: string, i: nat)
    requires Shape(s, i)
    ensures BreakTrimmed(s) == Ok(Attr(s[..i], UnquoteAll(Split(s[i + 1..|s| - 1], '+'))))
  {
    ShapeAtFirstParen(s, i);
  }

  /** The token is accepted exactly when its trimmed text has the shape
      `name(inner)`; a refused token is a bad attribute. */
  lemma {:induction false} BreakAttributeShape(str: string)
    ensures BreakAttribute(str).Ok? <==> exists i :: Shape(Trim(str), i)
    ensures BreakAttribute(str).Err? ==> BreakAttribute(str).error == BadAttribute
  {
    BreakTrimmedOk(Trim(str));
  }

  /** The parts of an accepted token: the name is the text before the
      first '(' and there are as many values as '+'-separated pieces of
      the inner text, each the piece with one quote dropped from either
      end. */
  lemma {:induction false} BreakAttributeParts(str: string, i: nat)
    requires Shape(Trim(str), i)
    ensures BreakAttribute(str).Ok?
    ensures var a := BreakAttribute(str).value;
      var inner := Trim(str)[i + 1..|Trim(str)| - 1];
      && a.name == Trim(str)[..i]
      && |a.values| == 1 + Count(inner, '+')
      && forall k :: 0 <= k < |a.values| ==> a.values[k] == Unquote(Split(inner, '+')[k])
  {
    BreakTrimmedValues(Trim(str), i);
  }

  /** A trimmed token is accepted exactly when it has the shape. */
  lemma {:induction false} BreakTrimmedOk(s: string)
    ensures BreakTrimmed(s).Ok? <==> exists i :: Shape(s, i)
  {
    if BreakTrimmed(s).Ok? {
      assert Shape(s, IndexOf(s, '('));
    } else {
      forall i: nat | Shape(s, i)
        ensures false
      {
        BreakTrimmedAt(s, i);
      }
    }
  }

  /** The parts of an accepted trimmed token. */
  lemma {:induction false} BreakTrimmedValues(s: string, i: nat)
    requires Shape(s, i)
    ensures BreakTrimmed(s).Ok?
    ensures var a := BreakTrimmed(s).value;
      var inner := s[i + 1..|s| - 1];
      && a.name == s[..i]
      && |a.values| == 1 + Count(inner, '+')
      && forall k :: 0 <= k < |a.values| ==> a.values[k] == Unquote(Split(inner, '+')[k])
  {
    BreakTrimmedAt(s, i);
  }

  /** The text the serializer writes for an attribute:
      `name("v1"+"v2"+...)`. */
  function Render(a: Attr): string {
    a.name + "(" + Join(QuoteAll(a.values), "+") + ")"
  }

  /** What `Render` needs to be undone: a name free of '(' that does not
      start with white space, at least one value, and values free of the
      separator '+' and of ')'. */
  predicate Renderable(a: Attr) {
    && '(' !in a.name
    && (|a.name| == 0 || !IsWs(a.name[0]))
    && |a.values| >= 1
    && forall k :: 0 <= k < |a.values| ==> '+' !in a.values[k] && ')' !in a.values[k]
  }

  /** The quoted values joined with '+' split back into the quoted
      values and hold no ')'. */
  lemma {:induction false} QuotedJoin(vs: seq<string>)
    requires |vs| >= 1
    requires forall k :: 0 <= k < |vs| ==> '+' !in vs[k] && ')' !in vs[k]
    ensures Split(Join(QuoteAll(vs), "+"), '+') == QuoteAll(vs)
    ensures ')' !in Join(QuoteAll(vs), "+")
  {
    var qs := QuoteAll(vs);
    forall k | 0 <= k < |qs|
      ensures '+' !in qs[k] && ')' !in qs[k]
    {
      assert qs[k] == ['"'] + vs[k] + ['"'];
    }
    JoinAvoids(qs, "+", ')');
    SplitJoin(qs, '+');
  }

  /** A rendered attribute is already trimmed and has the accepted shape
      with its '(' right after the name. */
  lemma {:induction false} RenderShape(a: Attr)
    requires '(' !in a.name && (|a.name| == 0 || !IsWs(a.name[0]))
    requires ')' !in Join(QuoteAll(a.values), "+")
    ensures Trim(Render(a)) == Render(a)
    ensures Shape(Render(a), |a.name|)
    ensures Render(a)[|a.name| + 1..|Render(a)| - 1] == Join(QuoteAll(a.values), "+")
    ensures Render(a)[..|a.name|] == a.name
  {
    var inner := Join(QuoteAll(a.values), "+");
    var s := Render(a);
    assert s == a.name + ['('] + inner + [')'];
    assert s[0] == if |a.name| > 0 then a.name[0] else '(';
    assert !IsWs(s[0]) && !IsWs(s[|s| - 1]);
    assert s[..|a.name|] == a.name;
    assert s[|a.name| + 1..|s| - 1] == inner;
  }

  /** Breaking a rendered attribute gives it back: name and values,
      quotes removed, case kept. */
  lemma {:induction false} BreakRender(a: Attr)
    requires Renderable(a)
    ensures BreakAttribute(Render(a)) == Ok(a)
  {
    var s := Render(a);
    QuotedJoin(a.values);
    RenderShape(a);
    assert BreakAttribute(s) == BreakTrimmed(s);
    BreakTrimmedAt(s, |a.name|);
    UnquoteQuoteAll(a.values);
  }
}
