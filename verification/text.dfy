/** Character classes and string helpers shared by the W++ scanners:
    the JavaScript whitespace and line-terminator classes, trimming,
    splitting on a separator, joining, character removal and quoting. */
module Text {

  /** The characters JavaScript's `\s` class and `String.prototype.trim`
      treat as white space (WhiteSpace and LineTerminator productions). */
  const Whitespace: set<char> := {
    '\t', '\n', '\U{B}', '\U{C}', '\r', ' ', '\U{A0}', '\U{1680}',
    '\U{2000}', '\U{2001}', '\U{2002}', '\U{2003}', '\U{2004}', '\U{2005}',
    '\U{2006}', '\U{2007}', '\U{2008}', '\U{2009}', '\U{200A}',
    '\U{2028}', '\U{2029}', '\U{202F}', '\U{205F}', '\U{3000}', '\U{FEFF}'
  }

  /** The characters a regular-expression `.` does not match and after
      which a multiline `^` matches. */
  const LineTerminators: set<char> := {'\n', '\r', '\U{2028}', '\U{2029}'}

  predicate IsWs(c: char) {
    c in Whitespace
  }

  /** Removes leading white space. */
  function TrimStart(s: string): (r: string)
    ensures |r| <= |s| && r == s[|s| - |r|..]
    ensures forall k :: 0 <= k < |s| - |r| ==> IsWs(s[k])
    ensures |r| > 0 ==> !IsWs(r[0])
  {
    if |s| > 0 && IsWs(s[0]) then
      var r := TrimStart(s[1..]);
      assert s[1..][|s| - 1 - |r|..] == s[|s| - |r|..];
      assert forall k :: 1 <= k < |s| ==> s[1..][k - 1] == s[k] && (k < |s| - |r| ==> IsWs(s[k]));
      r
    else s
  }

  /** Removes trailing white space. */
  function TrimEnd(s: string): (r: string)
    ensures |r| <= |s| && r == s[..|r|]
    ensures forall k :: |r| <= k < |s| ==> IsWs(s[k])
    ensures |r| > 0 ==> !IsWs(r[|r| - 1])
  {
    if |s| > 0 && IsWs(s[|s| - 1]) then TrimEnd(s[..|s| - 1]) else s
  }

  /** `String.prototype.trim`: white space is removed from both ends and
      nothing else changes. */
  function Trim(s: string): (r: string)
    ensures |r| > 0 ==> !IsWs(r[0]) && !IsWs(r[|r| - 1])
    ensures (|s| == 0 || (!IsWs(s[0]) && !IsWs(s[|s| - 1]))) ==> r == s
    ensures forall c :: c in r ==> c in s
  {
    var t := TrimStart(s);
    var r := TrimEnd(t);
    assert forall c :: c in r ==> c in t;
    r
  }

  /** Number of occurrences of `c` in `s`. */
  function Count(s: string, c: char): nat {
    multiset(s)[c]
  }

  /** Index of the first occurrence of `c` in `s`. */
  function IndexOf(s: string, c: char): (i: nat)
    requires c in s
    ensures i < |s| && s[i] == c && c !in s[..i]
  {
    if s[0] == c then 0 else 1 + IndexOf(s[1..], c)
  }

  /** A first occurrence found by other means is the one `IndexOf` finds. */
  lemma {:induction false} IndexOfAt(s: string, c: char, j: nat)
    requires j < |s| && s[j] == c && c !in s[..j]
    ensures c in s && IndexOf(s, c) == j
    decreases j
  {
    if j > 0 {
      assert s[..j][0] == s[0];
      assert s[1..][..j - 1] == s[1..j];
      assert s[..j] == [s[0]] + s[1..j];
      IndexOfAt(s[1..], c, j - 1);
    }
  }

  /** `parts` joined with `sep` between neighbours (`Array.prototype.join`). */
  function Join(parts: seq<string>, sep: string): string {
    if |parts| == 0 then ""
    else if |parts| == 1 then parts[0]
    else parts[0] + sep + Join(parts[1..], sep)
  }

  /** A join starts with its first part. */
  lemma {:induction false} JoinStart(parts: seq<string>, sep: string)
    requires |parts| > 0
    ensures |Join(parts, sep)| >= |parts[0]| && Join(parts, sep)[..|parts[0]|] == parts[0]
  {
    if |parts| > 1 {
      assert Join(parts, sep) == parts[0] + (sep + Join(parts[1..], sep));
    }
  }

  /** `gaps[0] + parts[0] + gaps[1] + ... + parts[n-1] + gaps[n]`. */
  function Interleave(gaps: seq<string>, parts: seq<string>): string
    requires |gaps| == |parts| + 1
    decreases |parts|
  {
    if |parts| == 0 then gaps[0]
    else gaps[0] + parts[0] + Interleave(gaps[1..], parts[1..])
  }

  /** Joining one more part appends the separator and that part. */
  lemma {:induction false} JoinSnoc(parts: seq<string>, a: string, sep: string)
    requires |parts| > 0
    ensures Join(parts + [a], sep) == Join(parts, sep) + sep + a
    decreases |parts|
  {
    var ps := parts + [a];
    assert ps[0] == parts[0] && ps[1..] == parts[1..] + [a];
    if |parts| > 1 {
      JoinSnoc(parts[1..], a, sep);
    } else {
      assert ps[1..] == [a];
    }
  }

  /** `String.prototype.split` with a one-character separator: the pieces
      between separators, one more piece than there are separators. */
  function Split(s: string, sep: char): (parts: seq<string>)
    ensures |parts| == 1 + Count(s, sep)
    ensures forall k :: 0 <= k < |parts| ==> sep !in parts[k]
    ensures Join(parts, [sep]) == s
    decreases |s|
  {
    if sep !in s then
      assert multiset(s)[sep] == 0;
      [s]
    else
      var i := IndexOf(s, sep);
      var rest := Split(s[i + 1..], sep);
      assert s == s[..i] + [sep] + s[i + 1..];
      assert multiset(s[..i])[sep] == 0;
      assert multiset(s) == multiset(s[..i]) + multiset([sep]) + multiset(s[i + 1..]);
      [s[..i]] + rest
  }

  /** Splitting undoes joining when no piece holds the separator. */
  lemma {:induction false} SplitJoin(parts: seq<string>, sep: char)
    requires |parts| > 0
    requires forall k :: 0 <= k < |parts| ==> sep !in parts[k]
    ensures Split(Join(parts, [sep]), sep) == parts
    decreases |parts|
  {
    if |parts| == 1 {
      assert Join(parts, [sep]) == parts[0];
    } else {
      var s := Join(parts, [sep]);
      var tail := Join(parts[1..], [sep]);
      assert s == parts[0] + [sep] + tail;
      var j := |parts[0]|;
      assert s[..j] == parts[0];
      assert s[j] == sep;
      IndexOfAt(s, sep, j);
      assert s[j + 1..] == tail;
      SplitJoin(parts[1..], sep);
      assert Split(s, sep) == [parts[0]] + Split(tail, sep);
      assert parts == [parts[0]] + parts[1..];
    }
  }

  /** A text is its slices at three cut points, in order. */
  lemma {:induction false} SliceParts(t: string, i: nat, j: nat, e: nat)
    requires i <= j <= e <= |t|
    ensures t == t[..i] + t[i..j] + t[j..e] + t[e..]
  {
    assert t[..j] == t[..i] + t[i..j];
    assert t[..e] == t[..j] + t[j..e];
    assert t == t[..e] + t[e..];
  }

  /** `s` with every character of `cs` deleted, the rest kept in order. */
  function Remove(s: string, cs: set<char>): (r: string)
    ensures |r| <= |s|
  {
    if |s| == 0 then ""
    else if s[0] in cs then Remove(s[1..], cs) else [s[0]] + Remove(s[1..], cs)
  }

  /** No character of `cs` survives the removal. */
  lemma {:induction false} RemoveGone(s: string, cs: set<char>, c: char)
    requires c in cs
    ensures c !in Remove(s, cs)
    decreases |s|
  {
    if |s| > 0 {
      RemoveGone(s[1..], cs, c);
    }
  }

  /** Every other character survives with its multiplicity. */
  lemma {:induction false} RemoveCount(s: string, cs: set<char>, c: char)
    requires c !in cs
    ensures Count(Remove(s, cs), c) == Count(s, c)
    decreases |s|
  {
    if |s| > 0 {
      assert s == [s[0]] + s[1..];
      RemoveCount(s[1..], cs, c);
    }
  }

  /** Removal distributes over concatenation. */
  lemma {:induction false} RemoveConcat(a: string, b: string, cs: set<char>)
    ensures Remove(a + b, cs) == Remove(a, cs) + Remove(b, cs)
    decreases |a|
  {
    if |a| > 0 {
      assert (a + b)[1..] == a[1..] + b;
      RemoveConcat(a[1..], b, cs);
    } else {
      assert a + b == b;
    }
  }

  lemma {:induction false} RemoveOne(x: char, cs: set<char>)
    requires x in cs
    ensures Remove([x], cs) == ""
  {
  }

  /** A character put in front of two texts that agree after removal
      keeps them agreeing. */
  lemma {:induction false} RemoveConsSame(x: char, t: string, u: string, cs: set<char>)
    requires Remove(t, cs) == Remove(u, cs)
    ensures Remove([x] + t, cs) == Remove([x] + u, cs)
  {
    assert ([x] + t)[1..] == t;
    assert ([x] + u)[1..] == u;
  }

  /** Text with nothing to remove passes through after any other text. */
  lemma {:induction false} RemoveKeepTail(a: string, b: string, cs: set<char>)
    requires forall k :: 0 <= k < |b| ==> b[k] !in cs
    ensures Remove(a + b, cs) == Remove(a, cs) + b
  {
    RemoveConcat(a, b, cs);
    RemoveNothing(b, cs);
  }

  /** A removed character between two texts vanishes. */
  lemma {:induction false} RemoveDrop(a: string, x: char, b: string, cs: set<char>)
    requires x in cs
    ensures Remove(a + [x] + b, cs) == Remove(a, cs) + Remove(b, cs)
  {
    RemoveOne(x, cs);
    RemoveConcat(a + [x], b, cs);
    RemoveConcat(a, [x], cs);
  }

  /** Removal changes nothing in a string that holds none of `cs`. */
  lemma {:induction false} RemoveNothing(s: string, cs: set<char>)
    requires forall k :: 0 <= k < |s| ==> s[k] !in cs
    ensures Remove(s, cs) == s
    decreases |s|
  {
    if |s| > 0 {
      RemoveNothing(s[1..], cs);
    }
  }

  /** `"` + v + `"`. */
  function Quote(v: string): string {
    "\"" + v + "\""
  }

  /** Drops at most one leading and at most one trailing double quote,
      without checking that the quotes pair up. */
  function Unquote(p: string): (r: string)
    ensures '"' !in p ==> r == p
    ensures |p| >= 2 && p[0] == '"' && p[|p| - 1] == '"' ==> r == p[1..|p| - 1]
    ensures |p| - 2 <= |r| <= |p|
  {
    var a := if |p| > 0 && p[0] == '"' then p[1..] else p;
    if |a| > 0 && a[|a| - 1] == '"' then a[..|a| - 1] else a
  }

  /** `a` is an order-preserving subsequence of `b` (greedy matching is
      complete for this). */
  predicate Subsequence<T(==)>(a: seq<T>, b: seq<T>)
    decreases |b|
  {
    |a| == 0 || (|b| > 0 && if a[0] == b[0] then Subsequence(a[1..], b[1..]) else Subsequence(a, b[1..]))
  }

  /** Every sequence is a subsequence of itself. */
  lemma {:induction false} SubsequenceRefl<T>(a: seq<T>)
    ensures Subsequence(a, a)
    decreases |a|
  {
    if |a| > 0 {
      SubsequenceRefl(a[1..]);
    }
  }

  /** Dropping the first element of the shorter sequence keeps it a
      subsequence. */
  lemma {:induction false} SubsequenceDropFirst<T>(a: seq<T>, b: seq<T>)
    requires |a| > 0 && Subsequence(a, b)
    ensures Subsequence(a[1..], b)
    decreases |b|, 1
  {
    if a[0] == b[0] {
      SubsequenceExtend(a[1..], b);
    } else {
      SubsequenceDropFirst(a, b[1..]);
      SubsequenceExtend(a[1..], b);
    }
  }

  /** A subsequence of the tail is a subsequence of the whole. */
  lemma {:induction false} SubsequenceExtend<T>(a: seq<T>, b: seq<T>)
    requires |b| > 0 && Subsequence(a, b[1..])
    ensures Subsequence(a, b)
    decreases |b|, 0
  {
    if |a| > 0 && a[0] == b[0] {
      SubsequenceDropFirst(a, b[1..]);
    }
  }

  lemma {:induction false} SubsequenceTrans<T>(a: seq<T>, b: seq<T>, c: seq<T>)
    requires Subsequence(a, b) && Subsequence(b, c)
    ensures Subsequence(a, c)
    decreases |c|
  {
    if |a| > 0 {
      if b[0] == c[0] {
        if a[0] == b[0] {
          SubsequenceTrans(a[1..], b[1..], c[1..]);
        } else {
          SubsequenceTrans(a, b[1..], c[1..]);
        }
      } else {
        SubsequenceTrans(a, b, c[1..]);
        if a[0] == c[0] {
          SubsequenceDropFirst(a, c[1..]);
        }
      }
    }
  }

  lemma {:induction false} SubsequenceLength<T>(a: seq<T>, b: seq<T>)
    requires Subsequence(a, b)
    ensures |a| <= |b|
    decreases |b|
  {
    if |a| > 0 {
      if a[0] == b[0] {
        SubsequenceLength(a[1..], b[1..]);
      } else {
        SubsequenceLength(a, b[1..]);
      }
    }
  }

  lemma {:induction false} SubsequenceMembers<T>(a: seq<T>, b: seq<T>)
    requires Subsequence(a, b)
    ensures forall x :: x in a ==> x in b
    decreases |b|
  {
    if |a| > 0 {
      if a[0] == b[0] {
        SubsequenceMembers(a[1..], b[1..]);
        assert a == [a[0]] + a[1..];
      } else {
        SubsequenceMembers(a, b[1..]);
      }
      assert b == [b[0]] + b[1..];
    }
  }

  /** Deleting one position leaves a subsequence. */
  lemma {:induction false} SubsequenceDelete<T>(s: seq<T>, j: nat)
    requires j < |s|
    ensures Subsequence(s[..j] + s[j + 1..], s)
    decreases j
  {
    if j == 0 {
      assert s[..0] + s[1..] == s[1..];
      SubsequenceRefl(s[1..]);
      SubsequenceExtend(s[1..], s);
    } else {
      SubsequenceDelete(s[1..], j - 1);
      var t := s[..j] + s[j + 1..];
      assert t[0] == s[0];
      assert t[1..] == s[1..][..j - 1] + s[1..][j..];
    }
  }

  /** A string made only of removed characters vanishes. */
  lemma {:induction false} RemoveAll(s: string, cs: set<char>)
    requires forall k :: 0 <= k < |s| ==> s[k] in cs
    ensures Remove(s, cs) == ""
    decreases |s|
  {
    if |s| > 0 {
      RemoveAll(s[1..], cs);
    }
  }

  /** Removing a subset first does not change a later, larger removal. */
  lemma {:induction false} RemoveRemove(s: string, small: set<char>, large: set<char>)
    requires small <= large
    ensures Remove(Remove(s, small), large) == Remove(s, large)
    decreases |s|
  {
    if |s| > 0 {
      RemoveRemove(s[1..], small, large);
      if s[0] !in small {
        assert Remove(s, small) == [s[0]] + Remove(s[1..], small);
        assert ([s[0]] + Remove(s[1..], small))[1..] == Remove(s[1..], small);
      }
    }
  }

  /** Counting splits off the first character. */
  lemma {:induction false} CountHead(s: string, c: char)
    requires |s| > 0
    ensures Count(s, c) == (if s[0] == c then 1 else 0) + Count(s[1..], c)
  {
    assert s == [s[0]] + s[1..];
    assert multiset(s) == multiset([s[0]]) + multiset(s[1..]);
  }

  /** A character occurs exactly when its count is positive. */
  lemma {:induction false} CountPositive(s: string, c: char)
    ensures Count(s, c) > 0 <==> c in s
  {
  }

  /** A character that is not removed survives removal. */
  lemma {:induction false} RemoveKeepsMember(s: string, cs: set<char>, c: char)
    requires c !in cs
    ensures c in Remove(s, cs) <==> c in s
  {
    RemoveCount(s, cs, c);
    CountPositive(s, c);
    CountPositive(Remove(s, cs), c);
  }

  /** Texts that agree once `cs` is removed hold the same other
      characters. */
  lemma {:induction false} RemoveSameKeeps(a: string, b: string, cs: set<char>, c: char)
    requires c !in cs && Remove(a, cs) == Remove(b, cs)
    ensures c in a <==> c in b
  {
    RemoveCount(a, cs, c);
    RemoveCount(b, cs, c);
    CountPositive(a, c);
    CountPositive(b, c);
  }

  /** A character that is in no piece and not in the separator is not in
      the joined text. */
  lemma {:induction false} JoinAvoids(parts: seq<string>, sep: string, c: char)
    requires c !in sep
    requires forall k :: 0 <= k < |parts| ==> c !in parts[k]
    ensures c !in Join(parts, sep)
    decreases |parts|
  {
    if |parts| > 1 {
      JoinAvoids(parts[1..], sep, c);
    }
  }

  /** A character in no piece is not in the pieces written one after
      another. */
  lemma {:induction false} ConcatAvoids(ss: seq<string>, c: char)
    requires forall k :: 0 <= k < |ss| ==> c !in ss[k]
    ensures c !in Concat(ss)
    decreases |ss|
  {
    if |ss| > 0 {
      ConcatAvoids(ss[1..], c);
    }
  }

  /** Every value wrapped in double quotes. */
  function QuoteAll(vs: seq<string>): (r: seq<string>)
    ensures |r| == |vs| && forall k :: 0 <= k < |vs| ==> r[k] == Quote(vs[k])
  {
    seq(|vs|, k requires 0 <= k < |vs| => Quote(vs[k]))
  }

  /** The pieces written one after another. */
  function Concat(ss: seq<string>): string {
    if |ss| == 0 then "" else ss[0] + Concat(ss[1..])
  }
}
