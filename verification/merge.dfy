/** `WPP.getMerged`: a left-biased union of two documents keyed on
    (type, name). */
module Merge {
  import opened Text
  import opened Results
  import opened Documents

  // ---------------------------------------------------------------------
  // First-occurrence deduplication: `filter((v, i, a) => a.indexOf(v) === i)`
  // ---------------------------------------------------------------------

  /** The values of `s` not in `seen`, each at its first occurrence. */
  function DedupFrom(s: seq<string>, seen: set<string>): seq<string>
    decreases |s|
  {
    if |s| == 0 then []
    else if s[0] in seen then DedupFrom(s[1..], seen)
    else [s[0]] + DedupFrom(s[1..], seen + {s[0]})
  }

  /** Exactly the values of `s` not seen survive. */
  lemma {:induction false} DedupFromMembers(s: seq<string>, seen: set<string>, v: string)
    ensures v in DedupFrom(s, seen) <==> v in s && v !in seen
    decreases |s|
  {
    if |s| > 0 {
      assert s == [s[0]] + s[1..];
      if s[0] in seen {
        DedupFromMembers(s[1..], seen, v);
      } else {
        DedupFromMembers(s[1..], seen + {s[0]}, v);
      }
    }
  }

  /** No value survives twice. */
  lemma {:induction false} DedupFromUnique(s: seq<string>, seen: set<string>)
    ensures forall i, j :: 0 <= i < j < |DedupFrom(s, seen)| ==> DedupFrom(s, seen)[i] != DedupFrom(s, seen)[j]
    decreases |s|
  {
    if |s| > 0 {
      if s[0] in seen {
        DedupFromUnique(s[1..], seen);
      } else {
        var rest := DedupFrom(s[1..], seen + {s[0]});
        DedupFromUnique(s[1..], seen + {s[0]});
        DedupFromMembers(s[1..], seen + {s[0]}, s[0]);
        assert forall j :: 1 <= j < |[s[0]] + rest| ==> ([s[0]] + rest)[j] == rest[j - 1];
      }
    }
  }

  /** The survivors keep their order. */
  lemma {:induction false} DedupFromOrder(s: seq<string>, seen: set<string>)
    ensures Subsequence(DedupFrom(s, seen), s)
    decreases |s|
  {
    if |s| > 0 {
      if s[0] in seen {
        DedupFromOrder(s[1..], seen);
        if |DedupFrom(s[1..], seen)| > 0 {
          SubsequenceExtend(DedupFrom(s[1..], seen), s);
        }
      } else {
        var rest := DedupFrom(s[1..], seen + {s[0]});
        DedupFromOrder(s[1..], seen + {s[0]});
        assert ([s[0]] + rest)[1..] == rest;
      }
    }
  }

  /** Every value once, at its first occurrence. */
  function Dedup(s: seq<string>): (r: seq<string>)
    ensures forall v :: v in r <==> v in s
    ensures forall i, j :: 0 <= i < j < |r| ==> r[i] != r[j]
    ensures Subsequence(r, s)
  {
    DedupFromUnique(s, {});
    DedupFromOrder(s, {});
    assert forall v :: v in DedupFrom(s, {}) <==> v in s by {
      forall v
        ensures v in DedupFrom(s, {}) <==> v in s
      {
        DedupFromMembers(s, {}, v);
      }
    }
    DedupFrom(s, {})
  }

  predicate Distinct(s: seq<string>) {
    forall i, j :: 0 <= i < j < |s| ==> s[i] != s[j]
  }

  /** The values occurring in a list. */
  function Values(s: seq<string>): set<string> {
    set v | v in s
  }

  /** One step of deduplication: the first value, unless already seen,
      then the rest with the first value seen. */
  lemma {:induction false} DedupFromStep(s: seq<string>, seen: set<string>)
    requires |s| > 0
    ensures DedupFrom(s, seen) == (if s[0] in seen then [] else [s[0]]) + DedupFrom(s[1..], seen + {s[0]})
  {
    if s[0] in seen {
      assert seen + {s[0]} == seen;
    }
  }

  lemma {:induction false} SeenStep(a: seq<string>, seen: set<string>)
    requires |a| > 0
    ensures seen + {a[0]} + Values(a[1..]) == seen + Values(a)
  {
    assert a == [a[0]] + a[1..];
  }

  /** Deduplicating a concatenation keeps the first part's deduplication
      and then only the values of the second part not seen in the first. */
  lemma {:induction false} DedupFromConcat(a: seq<string>, b: seq<string>, seen: set<string>)
    ensures DedupFrom(a + b, seen) == DedupFrom(a, seen) + DedupFrom(b, seen + Values(a))
    decreases |a|
  {
    if |a| == 0 {
      assert a + b == b;
      assert Values(a) == {};
      assert seen + {} == seen;
    } else {
      var seen' := seen + {a[0]};
      var head := if a[0] in seen then [] else [a[0]];
      calc {
        DedupFrom(a + b, seen);
        { DedupFromStep(a + b, seen); assert (a + b)[1..] == a[1..] + b; }
        head + DedupFrom(a[1..] + b, seen');
        { DedupFromConcat(a[1..], b, seen'); }
        head + (DedupFrom(a[1..], seen') + DedupFrom(b, seen' + Values(a[1..])));
        { SeenStep(a, seen); }
        head + (DedupFrom(a[1..], seen') + DedupFrom(b, seen + Values(a)));
        { DedupFromStep(a, seen); }
        DedupFrom(a, seen) + DedupFrom(b, seen + Values(a));
      }
    }
  }

  /** Deduplication grows one value at a time: appending a value adds it
      at the end exactly when it is new, and a list with no values has
      none. With `Dedup([]) == []` this defines `Dedup` independently of
      its implementation. */
  lemma {:induction false} DedupSnoc(s: seq<string>, x: string)
    ensures Dedup([]) == []
    ensures Dedup(s + [x]) == Dedup(s) + (if x in s then [] else [x])
  {
    DedupFromConcat(s, [x], {});
    assert {} + Values(s) == Values(s);
    assert x in Values(s) <==> x in s;
    assert [x][1..] == [];
  }

  /** A list without repeats and without seen values is its own
      deduplication. */
  lemma {:induction false} DedupFromDistinct(s: seq<string>, seen: set<string>)
    requires Distinct(s)
    requires forall k :: 0 <= k < |s| ==> s[k] !in seen
    ensures DedupFrom(s, seen) == s
    decreases |s|
  {
    if |s| > 0 {
      assert forall k :: 1 <= k < |s| ==> s[k] != s[0];
      DedupFromDistinct(s[1..], seen + {s[0]});
      assert s == [s[0]] + s[1..];
    }
  }

  /** Merging two value lists: the acceptor's values, repeats collapsed,
      then the donor's values not already present, each once. */
  lemma {:induction false} MergedValues(a: seq<string>, d: seq<string>)
    ensures Dedup(a + d) == Dedup(a) + DedupFrom(d, Values(a))
    ensures Distinct(a) ==> Dedup(a + d) == a + DedupFrom(d, Values(a))
  {
    DedupFromConcat(a, d, {});
    assert {} + Values(a) == Values(a);
    if Distinct(a) {
      DedupFromDistinct(a, {});
    }
  }

  // ---------------------------------------------------------------------
  // Property tables
  // ---------------------------------------------------------------------

  /** `props` with the values under `key` set to `vs`. */
  function Replace(props: seq<Property>, key: string, vs: seq<string>): (r: seq<Property>)
    ensures |r| == |props|
    ensures forall k :: 0 <= k < |r| ==> r[k].key == props[k].key
  {
    seq(|props|, k requires 0 <= k < |props| => if props[k].key == key then Property(key, vs) else props[k])
  }

  lemma {:induction false} LookupReplace(props: seq<Property>, key: string, vs: seq<string>, other: string)
    ensures Lookup(Replace(props, key, vs), other)
         == if other == key && HasKey(props, key) then Some(vs) else Lookup(props, other)
    decreases |props|
  {
    if |props| > 0 {
      var r := Replace(props, key, vs);
      assert r[1..] == Replace(props[1..], key, vs);
      LookupReplace(props[1..], key, vs, other);
      if props[0].key != key && HasKey(props, key) {
        var k :| 0 <= k < |props| && props[k].key == key;
        assert props[1..][k - 1].key == key;
      }
    }
  }

  lemma {:induction false} LookupAppend(props: seq<Property>, p: Property, key: string)
    ensures Lookup(props + [p], key)
         == if HasKey(props, key) then Lookup(props, key)
            else if p.key == key then Some(p.values) else None
    decreases |props|
  {
    if |props| == 0 {
      assert props + [p] == [p];
    } else {
      assert (props + [p])[1..] == props[1..] + [p];
      LookupAppend(props[1..], p, key);
      if props[0].key != key && HasKey(props, key) {
        var k :| 0 <= k < |props| && props[k].key == key;
        assert props[1..][k - 1].key == key;
      }
    }
  }

  /** One donor property folded into the acceptor's table: a key the
      acceptor has gets the deduplicated concatenation, a new key is
      appended with the donor's list as it is. */
  function AddProperty(acc: seq<Property>, p: Property): seq<Property> {
    match Lookup(acc, p.key)
    case Some(vs) => Replace(acc, p.key, Dedup(vs + p.values))
    case None => acc + [p]
  }

  /** The donor's properties folded in, in the donor's order. */
  function MergeProperties(acc: seq<Property>, donor: seq<Property>): seq<Property>
    decreases |donor|
  {
    if |donor| == 0 then acc
    else MergeProperties(AddProperty(acc, donor[0]), donor[1..])
  }

  /** What a merged table holds under one key, from what each side holds. */
  function Combined(a: Option<seq<string>>, d: Option<seq<string>>): Option<seq<string>> {
    match (a, d)
    case (Some(x), Some(y)) => Some(Dedup(x + y))
    case (Some(x), None) => Some(x)
    case (None, _) => d
  }

  lemma {:induction false} AddPropertyLookup(acc: seq<Property>, p: Property, key: string)
    ensures Lookup(AddProperty(acc, p), key)
         == if key == p.key then Combined(Lookup(acc, key), Some(p.values)) else Lookup(acc, key)
    ensures UniqueKeys(acc) ==> UniqueKeys(AddProperty(acc, p))
    ensures |AddProperty(acc, p)| >= |acc|
    ensures forall k :: 0 <= k < |acc| ==> AddProperty(acc, p)[k].key == acc[k].key
  {
    match Lookup(acc, p.key)
    case Some(vs) =>
      LookupReplace(acc, p.key, Dedup(vs + p.values), key);
    case None =>
      LookupAppend(acc, p, key);
      assert forall k :: 0 <= k < |acc| ==> acc[k].key != p.key;
  }

  /** Merging two tables key by key: keys of the acceptor keep their
      values, followed by the donor's values not already there; keys
      only the donor has take the donor's list; the acceptor's keys stay
      first, in their order. */
  lemma {:induction false} MergePropertiesLookup(acc: seq<Property>, donor: seq<Property>, key: string)
    requires UniqueKeys(donor)
    ensures Lookup(MergeProperties(acc, donor), key) == Combined(Lookup(acc, key), Lookup(donor, key))
    ensures UniqueKeys(acc) ==> UniqueKeys(MergeProperties(acc, donor))
    ensures |MergeProperties(acc, donor)| >= |acc|
    ensures forall k :: 0 <= k < |acc| ==> MergeProperties(acc, donor)[k].key == acc[k].key
    decreases |donor|
  {
    if |donor| > 0 {
      var p := donor[0];
      var acc' := AddProperty(acc, p);
      AddPropertyLookup(acc, p, key);
      assert UniqueKeys(donor[1..]);
      MergePropertiesLookup(acc', donor[1..], key);
      assert !HasKey(donor[1..], p.key) by {
        forall k | 0 <= k < |donor[1..]|
          ensures donor[1..][k].key != p.key
        {
          assert donor[1..][k] == donor[k + 1];
        }
      }
    }
  }

  // ---------------------------------------------------------------------
  // Documents
  // ---------------------------------------------------------------------

  /** An acceptor takes part only with a non-empty type and name. */
  predicate Addressable(n: Node) {
    n.kind != "" && n.name != ""
  }

  predicate SameId(a: Node, b: Node) {
    a.kind == b.kind && a.name == b.name
  }

  /** The first donor from position `i` on with the acceptor's type and name. */
  function FindDonor(donors: Document, a: Node, i: nat): (r: Option<nat>)
    requires i <= |donors|
    ensures r.Some? ==> i <= r.value < |donors| && SameId(donors[r.value], a)
    ensures r.Some? ==> forall k :: i <= k < r.value ==> !SameId(donors[k], a)
    ensures r.None? ==> forall k :: i <= k < |donors| ==> !SameId(donors[k], a)
    decreases |donors| - i
  {
    if i == |donors| then None
    else if SameId(donors[i], a) then Some(i)
    else FindDonor(donors, a, i + 1)
  }

  /** One acceptor against the donors still available: the merged
      acceptor and the donors left over. */
  function Absorb(a: Node, donors: Document): (Node, Document) {
    if !Addressable(a) then (a, donors)
    else match FindDonor(donors, a, 0)
      case None => (a, donors)
      case Some(j) =>
        (a.(props := MergeProperties(a.props, donors[j].props)), donors[..j] + donors[j + 1..])
  }

  /** The acceptors in order, each consuming at most one donor. */
  function MergeInto(acceptors: Document, donors: Document): (Document, Document)
    decreases |acceptors|
  {
    if |acceptors| == 0 then ([], donors)
    else
      var (head, left) := Absorb(acceptors[0], donors);
      var (rest, remaining) := MergeInto(acceptors[1..], left);
      ([head] + rest, remaining)
  }

  /** `WPP.getMerged`. */
  function GetMerged(w1: Document, w2: Document): Document {
    if |w1| == 0 && |w2| == 0 then []
    else if |w1| == 0 then w2
    else if |w2| == 0 then w1
    else
      var (merged, remaining) := MergeInto(w1, w2);
      merged + remaining
  }

  /** A merged acceptor: its own type and name, and its properties
      either untouched or merged with those of one donor of the same
      type and name. */
  predicate MergedFrom(m: Node, a: Node, donors: Document) {
    SameId(m, a)
    && (m == a
        || (Addressable(a)
            && exists d :: d in donors && SameId(d, a)
                           && m == a.(props := MergeProperties(a.props, d.props))))
  }

  lemma {:induction false} AbsorbShape(a: Node, donors: Document)
    ensures MergedFrom(Absorb(a, donors).0, a, donors)
    ensures !Addressable(a) ==> Absorb(a, donors) == (a, donors)
    ensures Subsequence(Absorb(a, donors).1, donors)
    ensures |Absorb(a, donors).1| + 1 >= |donors|
    ensures (forall k :: 0 <= k < |donors| ==> !SameId(donors[k], a)) ==> Absorb(a, donors) == (a, donors)
  {
    if Addressable(a) {
      match FindDonor(donors, a, 0)
      case None =>
        SubsequenceRefl(donors);
      case Some(j) =>
        SubsequenceDelete(donors, j);
    } else {
      SubsequenceRefl(donors);
    }
  }

  /** Acceptors in order: one merged node per acceptor with the same
      type and name, unaddressable acceptors untouched, each acceptor
      consuming at most one donor, and the donors left over in their
      original order. */
  lemma {:induction false} MergeIntoShape(acceptors: Document, donors: Document)
    ensures var (merged, remaining) := MergeInto(acceptors, donors);
      && |merged| == |acceptors|
      && (forall k :: 0 <= k < |acceptors| ==> MergedFrom(merged[k], acceptors[k], donors))
      && (forall k :: 0 <= k < |acceptors| && !Addressable(acceptors[k]) ==> merged[k] == acceptors[k])
      && Subsequence(remaining, donors)
      && |remaining| + |acceptors| >= |donors|
    decreases |acceptors|
  {
    if |acceptors| == 0 {
      SubsequenceRefl(donors);
    } else {
      AbsorbShape(acceptors[0], donors);
      var (head, left) := Absorb(acceptors[0], donors);
      MergeIntoShape(acceptors[1..], left);
      var (rest, remaining) := MergeInto(acceptors[1..], left);
      SubsequenceTrans(remaining, left, donors);
      SubsequenceMembers(left, donors);
      forall k | 1 <= k < |acceptors|
        ensures MergedFrom(rest[k - 1], acceptors[k], donors)
      {
        assert acceptors[1..][k - 1] == acceptors[k];
        assert MergedFrom(rest[k - 1], acceptors[k], left);
      }
    }
  }

  /** When no donor shares an addressable acceptor's type and name, the
      merge is the plain concatenation. */
  lemma {:induction false} MergeIntoDisjoint(acceptors: Document, donors: Document)
    requires forall i, j :: 0 <= i < |acceptors| && 0 <= j < |donors| && Addressable(acceptors[i])
               ==> !SameId(donors[j], acceptors[i])
    ensures MergeInto(acceptors, donors) == (acceptors, donors)
    decreases |acceptors|
  {
    if |acceptors| > 0 {
      AbsorbShape(acceptors[0], donors);
      MergeIntoDisjoint(acceptors[1..], donors);
      assert acceptors == [acceptors[0]] + acceptors[1..];
    }
  }

  /** The shortcuts for empty sides agree with the general merge, so
      the result is always the merged acceptors followed by the unused
      donors; it is at least as long as either side and at most as
      long as both together. */
  lemma {:induction false} GetMergedShape(w1: Document, w2: Document)
    ensures var (merged, remaining) := MergeInto(w1, w2);
      && GetMerged(w1, w2) == merged + remaining
      && Subsequence(remaining, w2)
    ensures |w1| <= |GetMerged(w1, w2)| <= |w1| + |w2|
    ensures |w2| <= |GetMerged(w1, w2)|
    ensures forall k :: 0 <= k < |w1| ==> MergedFrom(GetMerged(w1, w2)[k], w1[k], w2)
    ensures forall k :: 0 <= k < |w1| && !Addressable(w1[k]) ==> GetMerged(w1, w2)[k] == w1[k]
  {
    MergeIntoShape(w1, w2);
    if |w2| == 0 {
      MergeIntoDisjoint(w1, w2);
      assert w1 + [] == w1;
    }
    if |w1| == 0 {
      assert MergeInto(w1, w2) == ([], w2);
    }
    SubsequenceLength(MergeInto(w1, w2).1, w2);
  }

  /** With no shared addressable groups, merging is concatenation. */
  lemma {:induction false} GetMergedDisjoint(w1: Document, w2: Document)
    requires forall i, j :: 0 <= i < |w1| && 0 <= j < |w2| && Addressable(w1[i])
               ==> !SameId(w2[j], w1[i])
    ensures GetMerged(w1, w2) == w1 + w2
  {
    MergeIntoDisjoint(w1, w2);
    if |w1| == 0 { assert w1 + w2 == w2; }
    if |w2| == 0 { assert w1 + w2 == w1; }
  }

  // ---------------------------------------------------------------------
  // A reference for the merge, donor by donor
  // ---------------------------------------------------------------------

  /** The identity a group is matched on. */
  function Id(n: Node): (string, string) {
    (n.kind, n.name)
  }

  /** The donor of identity `id` after skipping `n` earlier ones. */
  function NthMatch(ds: Document, id: (string, string), n: nat): (r: Option<Node>)
    ensures r.Some? ==> Id(r.value) == id
    decreases |ds|
  {
    if |ds| == 0 then None
    else if Id(ds[0]) == id then (if n == 0 then Some(ds[0]) else NthMatch(ds[1..], id, n - 1))
    else NthMatch(ds[1..], id, n)
  }

  /** The donor found is one of the donors. */
  lemma {:induction false} NthMatchIn(ds: Document, id: (string, string), n: nat)
    ensures NthMatch(ds, id, n).Some? ==> exists j :: 0 <= j < |ds| && ds[j] == NthMatch(ds, id, n).value
    decreases |ds|
  {
    if |ds| > 0 && !(Id(ds[0]) == id && n == 0) {
      var m := if Id(ds[0]) == id then n - 1 else n;
      NthMatchIn(ds[1..], id, m);
      if NthMatch(ds[1..], id, m).Some? {
        var j :| 0 <= j < |ds[1..]| && ds[1..][j] == NthMatch(ds[1..], id, m).value;
        assert ds[j + 1] == ds[1..][j];
      }
    }
  }

  /** The donors without the first one of identity `id`. */
  function Drop(ds: Document, id: (string, string)): Document
    decreases |ds|
  {
    if |ds| == 0 then []
    else if Id(ds[0]) == id then ds[1..]
    else [ds[0]] + Drop(ds[1..], id)
  }

  /** The identities the addressable acceptors claim, with repeats. */
  function Claims(w: Document): multiset<(string, string)>
    decreases |w|
  {
    if |w| == 0 then multiset{}
    else (if Addressable(w[0]) then multiset{Id(w[0])} else multiset{}) + Claims(w[1..])
  }

  /** The donors no claim takes: each claimed identity takes the first
      donor of that identity not yet taken. */
  function Leftover(claims: multiset<(string, string)>, ds: Document): Document
    decreases |ds|
  {
    if |ds| == 0 then []
    else if Id(ds[0]) in claims then Leftover(claims - multiset{Id(ds[0])}, ds[1..])
    else [ds[0]] + Leftover(claims, ds[1..])
  }

  /** An acceptor merged with the donor it is paired with, if any. */
  function MergedWith(a: Node, d: Option<Node>): Node {
    match d
    case None => a
    case Some(dn) => a.(props := MergeProperties(a.props, dn.props))
  }

  /** The `k`-th acceptor after merging: an addressable one takes the
      donor of its identity that the acceptors before it with the same
      identity have not taken. */
  function MergedAt(w1: Document, w2: Document, k: nat): Node
    requires k < |w1|
  {
    if !Addressable(w1[k]) then w1[k]
    else MergedWith(w1[k], NthMatch(w2, Id(w1[k]), Claims(w1[..k])[Id(w1[k])]))
  }

  /** The merge as a reference: every acceptor merged with its own donor,
      then the donors nobody took, in their order. */
  function MergeReference(w1: Document, w2: Document): Document {
    seq(|w1|, k requires 0 <= k < |w1| => MergedAt(w1, w2, k)) + Leftover(Claims(w1), w2)
  }

  /** Scanning for a donor finds the first of the acceptor's identity. */
  lemma {:induction false} FindDonorNth(ds: Document, a: Node, i: nat)
    requires i <= |ds|
    ensures NthMatch(ds[i..], Id(a), 0) == if FindDonor(ds, a, i).Some? then Some(ds[FindDonor(ds, a, i).value]) else None
    decreases |ds| - i
  {
    if i < |ds| {
      assert ds[i..][0] == ds[i] && ds[i..][1..] == ds[i + 1..];
      if !SameId(ds[i], a) {
        FindDonorNth(ds, a, i + 1);
      }
    }
  }

  /** Removing the donor found is `Drop`. */
  lemma {:induction false} FindDonorDrop(ds: Document, a: Node, i: nat)
    requires i <= |ds|
    ensures FindDonor(ds, a, i).None? ==> Drop(ds[i..], Id(a)) == ds[i..]
    ensures FindDonor(ds, a, i).Some? ==>
      Drop(ds[i..], Id(a)) == ds[i..FindDonor(ds, a, i).value] + ds[FindDonor(ds, a, i).value + 1..]
    decreases |ds| - i
  {
    if i < |ds| {
      assert ds[i..][0] == ds[i] && ds[i..][1..] == ds[i + 1..];
      if SameId(ds[i], a) {
        assert ds[i..i] == [];
      } else {
        FindDonorDrop(ds, a, i + 1);
        if FindDonor(ds, a, i).Some? {
          var j := FindDonor(ds, a, i).value;
          assert ds[i..j] == [ds[i]] + ds[i + 1..j];
        } else {
          assert ds[i..] == [ds[i]] + ds[i + 1..];
        }
      }
    }
  }

  /** One acceptor against the donors: merged with the first donor of its
      identity, which is then dropped. */
  lemma {:induction false} AbsorbReference(a: Node, ds: Document)
    ensures Absorb(a, ds).0 == (if Addressable(a) then MergedWith(a, NthMatch(ds, Id(a), 0)) else a)
    ensures Absorb(a, ds).1 == (if Addressable(a) then Drop(ds, Id(a)) else ds)
  {
    FindDonorNth(ds, a, 0);
    FindDonorDrop(ds, a, 0);
    assert ds[0..] == ds;
  }

  /** Dropping the first donor of one identity shifts the count of that
      identity by one and leaves the others alone. */
  lemma {:induction false} NthMatchDrop(ds: Document, x: (string, string), y: (string, string), n: nat)
    ensures NthMatch(Drop(ds, x), y, n) == NthMatch(ds, y, if x == y then n + 1 else n)
    decreases |ds|
  {
    if |ds| > 0 {
      var h := Id(ds[0]);
      if h == x {
        assert Drop(ds, x) == ds[1..];
      } else {
        var t := Drop(ds[1..], x);
        var d := [ds[0]] + t;
        assert Drop(ds, x) == d;
        assert d[0] == ds[0] && d[1..] == t;
        if h != y {
          NthMatchDrop(ds[1..], x, y, n);
          assert NthMatch(d, y, n) == NthMatch(t, y, n);
        } else if n > 0 {
          NthMatchDrop(ds[1..], x, y, n - 1);
          assert NthMatch(d, y, n) == NthMatch(t, y, n - 1);
        } else {
          assert NthMatch(d, y, n) == Some(ds[0]);
        }
      }
    }
  }

  /** Dropping a donor first is the same as one more claim on its identity. */
  lemma {:induction false} LeftoverDrop(claims: multiset<(string, string)>, ds: Document, x: (string, string))
    ensures Leftover(claims, Drop(ds, x)) == Leftover(claims + multiset{x}, ds)
    decreases |ds|
  {
    if |ds| > 0 {
      var id := Id(ds[0]);
      if id == x {
        assert claims + multiset{x} - multiset{x} == claims;
      } else {
        assert ([ds[0]] + Drop(ds[1..], x))[1..] == Drop(ds[1..], x);
        if id in claims {
          LeftoverDrop(claims - multiset{id}, ds[1..], x);
          assert claims - multiset{id} + multiset{x} == claims + multiset{x} - multiset{id};
        } else {
          LeftoverDrop(claims, ds[1..], x);
        }
      }
    }
  }

  /** Nothing claimed leaves every donor. */
  lemma {:induction false} LeftoverNone(ds: Document)
    ensures Leftover(multiset{}, ds) == ds
    decreases |ds|
  {
    if |ds| > 0 {
      LeftoverNone(ds[1..]);
    }
  }

  /** The claims of the first `k + 1` acceptors, counted from the second. */
  lemma {:induction false} ClaimsPrefix(w: Document, k: nat)
    requires 0 < k < |w|
    ensures Claims(w[..k]) == (if Addressable(w[0]) then multiset{Id(w[0])} else multiset{}) + Claims(w[1..][..k - 1])
  {
    assert w[..k][0] == w[0];
    assert w[..k][1..] == w[1..][..k - 1];
  }

  /** The acceptor after the first, merged against what the first left. */
  lemma {:induction false} MergedAtTail(w: Document, ds: Document, k: nat)
    requires 0 < k < |w|
    ensures MergedAt(w[1..], Absorb(w[0], ds).1, k - 1) == MergedAt(w, ds, k)
  {
    var left := Absorb(w[0], ds).1;
    AbsorbReference(w[0], ds);
    assert w[1..][k - 1] == w[k];
    if Addressable(w[k]) {
      var y := Id(w[k]);
      var n := Claims(w[1..][..k - 1])[y];
      ClaimsPrefix(w, k);
      if Addressable(w[0]) {
        assert left == Drop(ds, Id(w[0]));
        assert Claims(w[..k])[y] == (if Id(w[0]) == y then n + 1 else n);
        NthMatchDrop(ds, Id(w[0]), y, n);
      } else {
        assert left == ds;
        assert Claims(w[..k])[y] == n;
      }
    }
  }

  /** The merge loop agrees with the reference: acceptor by acceptor, and
      the donors left over are those no acceptor claimed. */
  lemma {:induction false} MergeIntoReference(w: Document, ds: Document)
    ensures |MergeInto(w, ds).0| == |w|
    ensures forall k :: 0 <= k < |w| ==> MergeInto(w, ds).0[k] == MergedAt(w, ds, k)
    ensures MergeInto(w, ds).1 == Leftover(Claims(w), ds)
    decreases |w|
  {
    if |w| == 0 {
      LeftoverNone(ds);
    } else {
      AbsorbReference(w[0], ds);
      var (head, left) := Absorb(w[0], ds);
      MergeIntoReference(w[1..], left);
      var (rest, remaining) := MergeInto(w[1..], left);
      assert MergeInto(w, ds) == ([head] + rest, remaining);
      assert w[..0] == [];
      forall k | 0 < k < |w|
        ensures ([head] + rest)[k] == MergedAt(w, ds, k)
      {
        MergedAtTail(w, ds, k);
      }
      if Addressable(w[0]) {
        LeftoverDrop(Claims(w[1..]), ds, Id(w[0]));
        assert Claims(w) == Claims(w[1..]) + multiset{Id(w[0])};
      } else {
        assert Claims(w) == Claims(w[1..]);
      }
    }
  }

  /** `getMerged` is the reference merge: acceptor `k` merged with the
      donor its identity pairs it with, then the unclaimed donors, for
      every input, the shortcuts for empty sides included. */
  lemma {:induction false} GetMergedReference(w1: Document, w2: Document)
    ensures GetMerged(w1, w2) == MergeReference(w1, w2)
  {
    MergeIntoReference(w1, w2);
    var m := seq(|w1|, k requires 0 <= k < |w1| => MergedAt(w1, w2, k));
    assert MergeInto(w1, w2).0 == m;
    if |w1| == 0 {
      LeftoverNone(w2);
      assert Claims(w1) == multiset{};
      assert m + w2 == w2;
    }
  }

  /** Per key: with distinct donor keys, as every JavaScript object has,
      the `k`-th merged acceptor holds under each key the acceptor's values
      merged with those of the donor paired with it. */
  lemma {:induction false} GetMergedLookup(w1: Document, w2: Document, k: nat, key: string)
    requires k < |w1|
    requires forall j :: 0 <= j < |w2| ==> UniqueKeys(w2[j].props)
    ensures var a := w1[k];
      var d := if Addressable(a) then NthMatch(w2, Id(a), Claims(w1[..k])[Id(a)]) else None;
      && k < |GetMerged(w1, w2)|
      && Id(GetMerged(w1, w2)[k]) == Id(a)
      && Lookup(GetMerged(w1, w2)[k].props, key)
         == Combined(Lookup(a.props, key), if d.Some? then Lookup(d.value.props, key) else None)
  {
    GetMergedReference(w1, w2);
    var a := w1[k];
    assert GetMerged(w1, w2)[k] == MergedAt(w1, w2, k);
    if Addressable(a) {
      var d := NthMatch(w2, Id(a), Claims(w1[..k])[Id(a)]);
      if d.Some? {
        NthMatchIn(w2, Id(a), Claims(w1[..k])[Id(a)]);
        MergePropertiesLookup(a.props, d.value.props, key);
      }
    }
    match Lookup(a.props, key)
    case None =>
    case Some(_) =>
  }
}
