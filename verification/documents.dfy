/** The parsed form of W++ text: a document is a sequence of nodes, each
    node a group `[Type("name"){key("v1"+"v2")...}]` with a type, a name
    and an insertion-ordered table of multi-valued properties. Absent or
    falsy fields of the library's objects are the empty string here. */
module Documents {
  import opened Text
  import opened Results

  /** One property: a key and its ordered list of values. */
  datatype Property = Property(key: string, values: seq<string>)

  /** A group. `kind` is the group's type (the attribute name before the
      parentheses of `Type("name")`). */
  datatype Node = Node(kind: string, name: string, props: seq<Property>)

  type Document = seq<Node>

  /** An extended document: groups paired with the free text around them.
      `wpp` is `None` when the field is absent; an empty `appendix`
      stands for the library's `null` appendix. */
  datatype Extended = Extended(wpp: Option<Document>, appendix: string)

  /** No key occurs twice, as in a JavaScript object. */
  predicate UniqueKeys(props: seq<Property>) {
    forall i, j :: 0 <= i < j < |props| ==> props[i].key != props[j].key
  }

  predicate HasKey(props: seq<Property>, key: string) {
    exists k :: 0 <= k < |props| && props[k].key == key
  }

  /** The values stored under `key`, if any (first occurrence). */
  function Lookup(props: seq<Property>, key: string): (r: Option<seq<string>>)
    ensures r.None? <==> !HasKey(props, key)
    ensures r.Some? ==> exists k :: 0 <= k < |props| && props[k] == Property(key, r.value)
  {
    if |props| == 0 then None
    else if props[0].key == key then Some(props[0].values)
    else
      var r := Lookup(props[1..], key);
      assert forall k :: 1 <= k < |props| ==> props[k] == props[1..][k - 1];
      assert !HasKey(props[1..], key) ==> !HasKey(props, key) by {
        if HasKey(props, key) {
          var k :| 0 <= k < |props| && props[k].key == key;
          assert props[1..][k - 1].key == key;
        }
      }
      r
  }

  /** `WPP.trim`: the nodes with a non-empty name, in their original
      order; each such node is kept as often as it occurs. */
  function TrimNameless(d: Document): (r: Document)
    ensures forall k :: 0 <= k < |r| ==> r[k].name != ""
    decreases |d|
  {
    if |d| == 0 then []
    else
      var rest := TrimNameless(d[1..]);
      if d[0].name == "" then
        rest
      else
        [d[0]] + rest
  }

  /** Trimming keeps each named node exactly as often as it occurs and
      drops every nameless one. */
  lemma {:induction false} TrimCount(d: Document, n: Node)
    ensures multiset(TrimNameless(d))[n] == if n.name != "" then multiset(d)[n] else 0
    decreases |d|
  {
    if |d| > 0 {
      assert d == [d[0]] + d[1..];
      TrimCount(d[1..], n);
    }
  }

  /** A document of nameless groups trims to nothing. */
  lemma {:induction false} TrimAllNameless(d: Document)
    requires forall k :: 0 <= k < |d| ==> d[k].name == ""
    ensures TrimNameless(d) == []
    decreases |d|
  {
    if |d| > 0 {
      assert forall k :: 0 <= k < |d[1..]| ==> d[1..][k] == d[k + 1];
      TrimAllNameless(d[1..]);
    }
  }

  /** Trimming keeps the original order. */
  lemma {:induction false} TrimOrder(d: Document)
    ensures Subsequence(TrimNameless(d), d)
    decreases |d|
  {
    if |d| > 0 {
      TrimOrder(d[1..]);
      var rest := TrimNameless(d[1..]);
      if d[0].name == "" {
        if |rest| > 0 {
          SubsequenceExtend(rest, d);
        }
      } else {
        assert ([d[0]] + rest)[1..] == rest;
      }
    }
  }

  /** Trimming twice is trimming once. */
  lemma {:induction false} TrimIdempotent(d: Document)
    ensures TrimNameless(TrimNameless(d)) == TrimNameless(d)
    decreases |d|
  {
    if |d| > 0 {
      TrimIdempotent(d[1..]);
      var rest := TrimNameless(d[1..]);
      if d[0].name != "" {
        assert TrimNameless(d) == [d[0]] + rest;
        assert ([d[0]] + rest)[1..] == rest;
      }
    }
  }
}
