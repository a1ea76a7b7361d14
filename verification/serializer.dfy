/** `WPP.stringify` and `WPP.validate`: documents back to W++ text. */
module Serializer {
  import opened Text
  import opened Results
  import opened Documents
  import opened Attribute
  import opened Normalizer
  import opened Parser

  /** The output modes: groups joined by newlines, everything on one line,
      or the normal text passed through the normalizer. */
  datatype Mode = Normal | Line | Compact

  /** What the library accepts: a document, or a single node, which is
      treated as a one-node document. */
  datatype Input = One(node: Node) | Many(doc: Document)

  function AsDocument(x: Input): (d: Document)
    ensures x.One? ==> d == [x.node]
    ensures x.Many? ==> d == x.doc
  {
    match x
    case One(n) => [n]
    case Many(d) => d
  }

  /** The non-empty values, in order, each as often as it occurs. */
  function NonEmpty(vs: seq<string>): (r: seq<string>)
    ensures forall k :: 0 <= k < |r| ==> r[k] != ""
    ensures forall v :: multiset(r)[v] == if v == "" then 0 else multiset(vs)[v]
    ensures Subsequence(r, vs)
    decreases |vs|
  {
    if |vs| == 0 then []
    else
      assert vs == [vs[0]] + vs[1..];
      var rest := NonEmpty(vs[1..]);
      if vs[0] == "" then rest else [vs[0]] + rest
  }

  /** A property is left out only when its key is empty and it has no
      non-empty value. */
  predicate Skipped(p: Property) {
    p.key == "" && |NonEmpty(p.values)| == 0
  }

  /** The attribute a property is written as: its non-empty values only. */
  function Written(p: Property): Attr {
    Attr(p.key, NonEmpty(p.values))
  }

  /** `key("v1"+"v2")` and a newline for every property not skipped. */
  function RenderProps(props: seq<Property>): string
    decreases |props|
  {
    if |props| == 0 then ""
    else (if Skipped(props[0]) then "" else Render(Written(props[0])) + "\n") + RenderProps(props[1..])
  }

  /** One group: `[type("name"){`, a newline, the properties, `}]`. */
  function RenderNode(n: Node): string {
    "[" + n.kind + "(\"" + n.name + "\"){\n" + RenderProps(n.props) + "}]"
  }

  function RenderAll(d: Document): (r: seq<string>)
    ensures |r| == |d| && forall k :: 0 <= k < |d| ==> r[k] == RenderNode(d[k])
  {
    seq(|d|, k requires 0 <= k < |d| => RenderNode(d[k]))
  }

  /** `WPP.stringify`. */
  function Stringify(x: Input, mode: Mode): string {
    var text := GroupsText(x);
    match mode
    case Normal => text
    case Line => Remove(text, {'\n'})
    case Compact => Normalize(text)
  }

  /** `WPP.validate`: parse what normal-mode stringify writes. */
  function Validate(d: Document): Result<Document> {
    Parse(Stringify(Many(d), Normal))
  }

  /** The text of normal mode. */
  function GroupsText(x: Input): string {
    Join(RenderAll(AsDocument(x)), "\n")
  }

  /** Line output is a single line: normal output without its newlines. */
  lemma {:induction false} StringifyLine(x: Input)
    ensures '\n' !in Stringify(x, Line)
    ensures Remove(Stringify(x, Normal), {'\n'}) == Stringify(x, Line)
  {
    assert Stringify(x, Normal) == GroupsText(x);
    assert Stringify(x, Line) == Remove(GroupsText(x), {'\n'});
    RemoveGone(GroupsText(x), {'\n'}, '\n');
  }

  /** Compact output is a single line with no `#`. */
  lemma {:induction false} StringifyCompactLine(x: Input)
    ensures '\n' !in Stringify(x, Compact) && '#' !in Stringify(x, Compact)
  {
    NormalizeDropsBreaks(GroupsText(x));
  }

  /** Compact output differs from normal output only in white space and
      `#`. */
  lemma {:induction false} StringifyCompactText(x: Input)
    ensures Remove(Stringify(x, Compact), Layout) == Remove(Stringify(x, Normal), Layout)
  {
    NormalizeKeepsText(GroupsText(x));
  }

  /** Normal output starts with the first group's `[`, and is empty
      for an empty document. */
  lemma {:induction false} GroupsTextStart(x: Input)
    ensures |AsDocument(x)| > 0 ==> '[' in GroupsText(x)
    ensures |AsDocument(x)| == 0 ==> GroupsText(x) == ""
  {
    var d := AsDocument(x);
    if |d| > 0 {
      var parts := RenderAll(d);
      var first := RenderNode(d[0]);
      assert first[0] == '[';
      JoinStart(parts, "\n");
      assert GroupsText(x)[..|first|] == first;
      assert GroupsText(x)[0] == '[';
    }
  }

  /** A non-empty document writes at least its first group's `[`, in
      every mode; an empty one writes nothing in normal and line mode. */
  lemma {:induction false} StringifyNonEmpty(x: Input, mode: Mode)
    ensures |AsDocument(x)| > 0 ==> '[' in Stringify(x, mode)
    ensures |AsDocument(x)| == 0 && mode != Compact ==> Stringify(x, mode) == ""
  {
    GroupsTextStart(x);
    var text := GroupsText(x);
    match mode
    case Normal =>
      assert Stringify(x, mode) == text;
    case Line =>
      assert Stringify(x, mode) == Remove(text, {'\n'});
      RemoveKeepsMember(text, {'\n'}, '[');
    case Compact =>
      assert Stringify(x, mode) == Normalize(text);
      NormalizeKeepsChar(text, '[');
  }
}
