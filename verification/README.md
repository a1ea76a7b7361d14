# W++ in Dafny

A model of the `WPP` class of the W++ library. W++ is a small bracketed text
format for character descriptions:

```
[Character("Alice"){
Mind("kind"+"curious")
Age("20")
}]
```

The class reads this text into an array of groups. Each group has a type, a
name and a table of properties, each property holding a list of values. The
class also writes groups back as text in three modes, merges two arrays of
groups, drops nameless groups, and handles "extended" W++: groups embedded in
free text, which becomes the appendix.

The model is a set of pure functions over `string` (`seq<char>`) and
immutable datatypes:

* `Results` holds the error kinds of the library's thrown objects.
* `Text` holds trimming, splitting, joining and character removal.
* `Attribute` holds `breakAttribute` and its inverse, the rendering of an
  attribute.
* `Documents` holds the group datatypes and `trim`.
* `Normalizer` holds `removeExtraSpaces`: its regular expressions written
  out as scans.
* `Boundaries` states which spaces `removeExtraSpaces` keeps after a
  closing `)` and where its marking step does not respect quotes.
* `Parser` holds `parse`.
* `Serializer` holds `stringify` and `validate`.
* `Merge` holds `getMerged`.
* `Spans` holds the span scan and blank-line collapse of `parseExtended`.
* `Extended` holds the three extended operations.
* `RoundTrip` proves what `validate` returns.

A thrown error is an `Err` of the `Error` datatype:

* `NoGroups`, `NoType`, `TypeHasMultipleNames`, `BadAttribute` and
  `NotWPPExtended` mirror the library's error constants.
* A missing or falsy `type`, `name` or appendix is the empty string.
* An extended document's missing `wpp` field is `None`.

## Model

| member | source | states |
|---|---|---|
| Attribute.BreakAttribute | public/class/WPP.mjs:184-200 | an accepted attribute always has at least one value (`split` never returns an empty array); a refused one is a bad-attribute error |
| Attribute.BreakAttributeShape | public/class/WPP.mjs:185-188 | a token is accepted exactly when its trimmed text is `name(inner)`, with no '(' in the name and no ')' inside; every refusal is `BadAttribute` |
| Attribute.BreakAttributeParts | public/class/WPP.mjs:189-199 | for an accepted token, the name is the text before the first '(' and there is one value per '+'-separated piece of the inner text, each the piece with one leading and one trailing quote dropped, case unchanged |
| Attribute.UnquoteQuoteAll | public/class/WPP.mjs:194 | dropping the quotes undoes the quoting that stringify applies, for every list of values |
| Attribute.RenderShape | public/class/WPP.mjs:113-121 | a written attribute `key("v1"+"v2")` is already trimmed and has exactly the shape the reader's pattern at line 186 accepts |
| Attribute.BreakRender | public/class/WPP.mjs:184-199 | reading a written attribute gives it back, when the name has no '(' and the values hold no '+' or ')' |
| Documents.Lookup | public/class/WPP.mjs:53 | looking up a key in a property table finds nothing exactly when the key is absent, and otherwise returns the values stored under it |
| Documents.TrimNameless | public/class/WPP.mjs:284-298 | after trimming, every group has a non-empty name |
| Documents.TrimCount | public/class/WPP.mjs:289-297 | trimming keeps every named group as often as it occurs and drops every nameless one |
| Documents.TrimOrder | public/class/WPP.mjs:289-297 | the kept groups stay in their original order |
| Documents.TrimAllNameless | public/class/WPP.mjs:289-297 | a document with no named group trims to the empty array |
| Documents.TrimIdempotent | public/class/WPP.mjs:284-298 | trimming a trimmed document changes nothing |
| Normalizer.MatchAt | public/class/WPP.mjs:9 | at a ')' or '}', the boundary pattern `Reg` is matched: a returned match has the pattern's shape, and when none is returned no placement of the pattern fits there |
| Normalizer.MatchesInTail | public/class/WPP.mjs:168 | with no match at the first position, the text has a match exactly when its tail has one, so the search is leftmost |
| Normalizer.ReplaceAll | public/class/WPP.mjs:169 | one global replacement happens exactly when `Reg` matches somewhere; without a match the text is unchanged |
| Normalizer.ReplaceAllShrinks | public/class/WPP.mjs:169 | a replacement uses up at least one space, and ignoring spaces and `#` the text is unchanged |
| Normalizer.Mark | public/class/WPP.mjs:167-170 | the `exec` loop stops with no match left, and leaves text without a match alone |
| Normalizer.MarkLayout | public/class/WPP.mjs:167-170 | the loop only exchanges spaces and `#`: with both removed, the text is unchanged |
| Normalizer.ReplaceAllHashes | public/class/WPP.mjs:169 | a replacement never loses a `#`: group 2 is all spaces and becomes one `#` |
| Normalizer.MarkHashes | public/class/WPP.mjs:167-170 | the loop never loses a `#` |
| Normalizer.QuotesBalancedCount | public/class/WPP.mjs:174 | without backslashes, the lookahead of the stripping pattern holds exactly when an even number of quotes follows |
| Normalizer.StripWsContent | public/class/WPP.mjs:173-176 | the stripping replace deletes white space only: the other characters stay in order, and nothing new appears |
| Normalizer.StripKeepsQuotedSpan | public/class/WPP.mjs:174 | white space inside a quoted value that is followed by balanced quotes is kept |
| Normalizer.StripKeepsBeforeOddQuotes | public/class/WPP.mjs:174 | text free of quotes is kept whole when an odd number of quotes follows it |
| Normalizer.StripDropsUnquotedWs | public/class/WPP.mjs:174 | a white-space run followed by balanced quotes is deleted |
| Normalizer.NormalizeDropsBreaks | public/class/WPP.mjs:165-178 | the normalized text holds no carriage return, no line feed and no `#` |
| Normalizer.NormalizeKeepsText | public/class/WPP.mjs:165-178 | apart from white space and `#`, the normalized text is the input, character for character and in order |
| Normalizer.NormalizeKeepsChar | public/class/WPP.mjs:165-178 | a character that is neither white space nor `#` occurs in the output exactly when it occurs in the input |
| Normalizer.NormalizePlain | public/class/WPP.mjs:165-178 | text with no space, no other white space besides line breaks, and no `#` only loses its line breaks |
| Normalizer.NormalizeHashes | public/class/WPP.mjs:165-178 | in text with no white space besides line breaks, the line breaks go and every `#` becomes a space |
| Normalizer.HashToSpaceCount | public/class/WPP.mjs:177 | each `#` becomes exactly one more space |
| Normalizer.StripWsCount | public/class/WPP.mjs:173-176 | the strip keeps every character other than white space, as often as it occurs |
| Normalizer.FinishKeepsHashes | public/class/WPP.mjs:172-177 | after the loop, every `#` survives the `\r` removal and the strip and ends up as a space |
| Normalizer.NormalizeKeepsHashes | public/class/WPP.mjs:165-178 | for every input, no `#` is lost: the output has at least as many spaces as the input has `#`s |
| Boundaries.ReplaceAllFree | public/class/WPP.mjs:169 | text without a closing `)` or `}` is copied by the replacement |
| Boundaries.ReplaceAllInert | public/class/WPP.mjs:169 | `)` directly followed by a word without spaces and an opener is not a match |
| Boundaries.ReplaceAllGive | public/class/WPP.mjs:169 | in `)`, spaces, a word and an opener, one round turns the last space before the word into `#` |
| Boundaries.ReplaceAllRun | public/class/WPP.mjs:169 | in `)`, spaces, a word, a run of spaces, a word and an opener, one round turns the whole inner run into one `#` |
| Boundaries.MarkFree | public/class/WPP.mjs:167-170 | text without a closer ahead of the rest is left as it is by the loop |
| Boundaries.MarkInert | public/class/WPP.mjs:167-170 | `)` directly followed by a word and an opener is left as it is by the loop |
| Boundaries.MarkKeepsSpaces | public/class/WPP.mjs:167-170 | every space between `)` and a word followed by an opener becomes a `#`, one per round |
| Boundaries.MarkCollapses | public/class/WPP.mjs:167-170 | the spaces after `)` each become a `#`, and a run of spaces between the two words after them becomes a single `#` |
| Boundaries.NormalizeFree | public/class/WPP.mjs:165-178 | text without a closer or white space ahead of the rest is kept, with its `#` turned into spaces |
| Boundaries.NormalizeKeepsBoundary | public/class/WPP.mjs:165-178 | all the spaces between `)` and the next attribute name are kept, not just one |
| Boundaries.NormalizeCollapses | public/class/WPP.mjs:165-178 | spaces after `)` are kept, and a run of spaces between two words before the next `(` becomes exactly one space |
| Boundaries.CollapsesInsideQuotes | public/class/WPP.mjs:165-178 | inside a quoted value that holds `)`, a run of spaces between two words before a `(` is cut to one space: quotes do not protect against marking |
| Boundaries.NotIdempotent | public/class/WPP.mjs:165-178 | a `#` between two words becomes a space, and normalizing that result again deletes the space, so normalizing twice differs from normalizing once |
| Boundaries.SpaceFirst | public/class/WPP.mjs:174 | a leading space in front of a word without quotes is stripped |
| Parser.Fragments | public/class/WPP.mjs:21-24 | the group fragments are empty exactly when the normalized text has no '}' |
| Parser.FragmentEnd | public/class/WPP.mjs:21 | the first fragment runs through the first '}' and one ']' right after it, and is well formed |
| Parser.FragmentsWellFormed | public/class/WPP.mjs:21 | every fragment holds exactly one '}', which ends it or is followed only by ']' |
| Parser.FragmentsCover | public/class/WPP.mjs:21 | the fragments, concatenated, are a prefix of the text, and no '}' is left after them |
| Parser.TypeSegment | public/class/WPP.mjs:28-33 | the type segment is the text of the fragment before its first '{' (all of it when there is none), with one leading '[' skipped |
| Parser.BodyStart | public/class/WPP.mjs:42 | the property body starts at the leftmost '{' from which the closing '}' is reached without a line terminator |
| Parser.Tokens | public/class/WPP.mjs:45-48 | every attribute token found starts with neither ')' nor ',' and has its only ')' at its end |
| Parser.TokensCover | public/class/WPP.mjs:48 | the property text is the tokens with the skipped text around them: only ')' and ',' between tokens, and after the last token such a run followed by text with no ')' |
| Parser.SkipRun | public/class/WPP.mjs:48 | the run of ')' and ',' at the start of a text, which the token pattern cannot start in |
| Parser.MapAll | public/class/WPP.mjs:25-67 | a loop that throws on the first failing item: it succeeds exactly when every item succeeds, keeping the results in order, and otherwise fails with the first item's error |
| Parser.InsertLookup | public/class/WPP.mjs:53-59 | adding an attribute appends its values to those already under the key, or stores them when the key is new, and leaves other keys alone |
| Parser.InsertKeys | public/class/WPP.mjs:53-59 | adding an attribute adds its key and no other |
| Parser.InsertUnique | public/class/WPP.mjs:53-59 | adding an attribute keeps the keys of the table distinct |
| Parser.CollectLookup | public/class/WPP.mjs:50-63 | the table of a group holds, under each key, all values given under that key, in order and with repeats; a key never given is absent |
| Parser.CollectUnique | public/class/WPP.mjs:50-63 | the table of a group never holds a key twice |
| Parser.ParseFragment | public/class/WPP.mjs:25-66 | a group reads exactly when its type attribute reads with a single value and all its property tokens read; otherwise it fails with a bad attribute or with a type that has several names |
| Parser.AssembleShape | public/class/WPP.mjs:33-41 | a group fails as having several names exactly when its type attribute is accepted with more than one value; it succeeds exactly when the type attribute has a single value and the properties read, and then its type and name are that attribute's name and value and its table is the collected properties, with distinct keys |
| Parser.ParseFragmentShape | public/class/WPP.mjs:28-41 | the same, stated for a fragment's type segment and property text |
| Parser.ParseFragmentKeys | public/class/WPP.mjs:42-64 | an accepted group's table holds, under each key, the values of every property token given under that key, in order |
| Parser.Parse | public/class/WPP.mjs:16-69 | parsing fails with `NoGroups` exactly when the normalized text has no '}'; it never raises the missing-type error; it succeeds whenever every fragment reads, with one group per fragment, each the parse of its fragment; any other error is that of the first fragment that does not read |
| Parser.ParseAll | public/class/WPP.mjs:21-68 | the same, stated over the list of fragments |
| Serializer.NonEmpty | public/class/WPP.mjs:109 | the filter keeps every non-empty value as often as it occurs, in order, and drops the empty ones |
| Serializer.StringifyLine | public/class/WPP.mjs:127-128 | line mode is normal mode with its line feeds removed, and holds none |
| Serializer.StringifyCompactLine | public/class/WPP.mjs:129-130 | compact mode holds no line feed and no `#` |
| Serializer.StringifyCompactText | public/class/WPP.mjs:129-130 | apart from white space and `#`, compact mode writes the same characters as normal mode, in order |
| Merge.Dedup | public/class/WPP.mjs:242 | the filter keeps exactly the values of the list, each once and in the list's order |
| Merge.DedupSnoc | public/class/WPP.mjs:242 | appending a value to the list appends it to the result exactly when it is new, so each value stays at its first occurrence |
| Merge.DedupFromMembers | public/class/WPP.mjs:242 | with some values already seen, exactly the unseen values of the list survive |
| Merge.DedupFromUnique | public/class/WPP.mjs:242 | no value survives twice |
| Merge.DedupFromOrder | public/class/WPP.mjs:242 | the survivors keep the order of the list |
| Merge.DedupFromConcat | public/class/WPP.mjs:241-242 | deduplicating a concatenation deduplicates the first part, then keeps the second part's values not seen in the first |
| Merge.DedupFromDistinct | public/class/WPP.mjs:242 | a list without repeats and without seen values is its own deduplication |
| Merge.MergedValues | public/class/WPP.mjs:237-242 | the merged values under a shared key are the acceptor's values without repeats, then the donor's values not already present; an acceptor list without repeats is kept as it is |
| Merge.LookupReplace | public/class/WPP.mjs:238-242 | overwriting an existing key changes that key's values and no other key's |
| Merge.LookupAppend | public/class/WPP.mjs:244-245 | adding a new key makes only that key visible with the donor's list |
| Merge.AddPropertyLookup | public/class/WPP.mjs:236-246 | one donor property: a key the acceptor has gets the deduplicated concatenation, a new key gets the donor's list, other keys are untouched; the acceptor's keys stay first, distinct and in order |
| Merge.MergePropertiesLookup | public/class/WPP.mjs:236-247 | the merged table holds, for each key, the acceptor's values merged with the donor's; keys only one side has keep that side's list; the acceptor's keys stay first |
| Merge.FindDonor | public/class/WPP.mjs:230-235 | the donor found is the first with the acceptor's type and name; when none is found, no donor matches |
| Merge.AbsorbShape | public/class/WPP.mjs:223-252 | an acceptor keeps its type and name and is either untouched or merged with one matching donor; at most one donor goes; acceptors without a type or name, or without a match, are untouched |
| Merge.FindDonorNth | public/class/WPP.mjs:230-235 | the donor the loop stops at is the first of the acceptor's type and name |
| Merge.FindDonorDrop | public/class/WPP.mjs:230-249 | the `splice` removes exactly that first matching donor |
| Merge.AbsorbReference | public/class/WPP.mjs:223-252 | an addressable acceptor is merged with the first donor of its type and name, which is removed; an unaddressable one changes nothing |
| Merge.NthMatchIn | public/class/WPP.mjs:230-235 | the donor paired with an acceptor is one of the donors |
| Merge.NthMatchDrop | public/class/WPP.mjs:248 | removing the first donor of one identity makes the next one of that identity first and leaves other identities alone |
| Merge.LeftoverDrop | public/class/WPP.mjs:248 | removing a donor now is the same as one more claim on its identity at the end |
| Merge.MergeIntoShape | public/class/WPP.mjs:223-253 | each acceptor, in order, is merged from the donors or left as it is; the remaining donors are a subsequence of the donors, and at most one donor is used up per acceptor |
| Merge.MergeIntoDisjoint | public/class/WPP.mjs:223-253 | when no donor shares an acceptor's type and name, nothing changes |
| Merge.GetMergedShape | public/class/WPP.mjs:208-254 | the result is the merged acceptors followed by the unused donors, in their order; its length lies between that of each input and their sum |
| Merge.GetMergedDisjoint | public/class/WPP.mjs:208-254 | without shared identities, the merge is the concatenation of both arrays |
| Merge.MergeIntoReference | public/class/WPP.mjs:223-253 | the acceptor loop gives acceptor k merged with the donor of its identity that no earlier acceptor of that identity took, and leaves exactly the donors no acceptor claimed |
| Merge.GetMergedReference | public/class/WPP.mjs:208-254 | for every input, the empty-side shortcuts included, the result is every acceptor merged with its own donor, then the unclaimed donors in their order |
| Merge.GetMergedLookup | public/class/WPP.mjs:223-254 | merged acceptor k keeps its type and name and holds under each key its own values, then the new values of its donor under that key; keys only the donor has take the donor's list |
| Spans.FindFrom | public/class/WPP.mjs:76 | the first opener (or closer) of the span pattern from a position on: none comes before it, and when none is found, none is left |
| Spans.SpanAt | public/class/WPP.mjs:76 | an opener, then no closer, then a closer and an optional `]`, is a span |
| Spans.NextSpan | public/class/WPP.mjs:76 | the next span starts at the first opener that has a closer after it; when there is none, no span is left in the text |
| Spans.NoSpanNoMatch | public/class/WPP.mjs:76 | no further span is found exactly when no opener is followed by a closer |
| Spans.ScanInterleave | public/class/WPP.mjs:76-80 | the gaps and spans, interleaved, give back the text, with one more gap than spans |
| Spans.ScanSpans | public/class/WPP.mjs:80 | every span found matches the span pattern |
| Spans.ScanGaps | public/class/WPP.mjs:76 | no gap but the last holds an opener, and the last holds no span |
| Spans.WsEnd | public/class/WPP.mjs:78 | the white-space run at a position ends at the first character that is not white space |
| Spans.LastBreak | public/class/WPP.mjs:78 | the last carriage return or line feed of a run: none follows it within the run, and none is found only when the run has none |
| Spans.BlankRun | public/class/WPP.mjs:78 | a collapsed run consists of white space and ends at a carriage return or line feed |
| Spans.CollapseFromText | public/class/WPP.mjs:78 | collapsing blank lines removes only white space: the other characters stay, in order |
| Spans.CollapseFromEmpty | public/class/WPP.mjs:77-78 | the collapse of a non-empty text is non-empty, so an appendix is absent only when the gaps are empty |
| Spans.CollapseFromPlain | public/class/WPP.mjs:78 | text without carriage returns and line feeds is left alone |
| Spans.CollapseText | public/class/WPP.mjs:76-79 | the three collapse facts for a whole text |
| Extended.ParseExtendedShape | public/class/WPP.mjs:75-85 | the text is the gaps and spans interleaved; the groups, or the error, are what parsing the spans joined by line feeds gives; the appendix keeps every visible character of the gaps and is empty exactly when they are; text without spans gives no groups |
| Extended.ParsePlainAppendix | public/class/WPP.mjs:75-85 | text with no span and no line break is all appendix |
| Extended.StringifyExtendedShape | public/class/WPP.mjs:141-151 | writing is refused exactly when the groups are missing, with `NotWPPExtended`; otherwise it writes the named groups in the mode, then the appendix, and only the appendix when no group has a name |
| Extended.AppendixRoundTrip | public/class/WPP.mjs:141-151 | an appendix of plain text without groups survives writing and reading back |
| Extended.GetMergedExtendedShape | public/class/WPP.mjs:262-277 | merging is refused exactly when either side lacks groups; otherwise the groups are the reference merge of both sides, and the appendix is the non-empty appendices joined by line feeds, empty only when both are |
| Extended.AppendixFold | public/class/WPP.mjs:267-275 | merging documents one after another gives as appendix the non-empty appendices, in order, joined by line feeds |
| Extended.JoinAppendixAssociative | public/class/WPP.mjs:267-275 | joining appendices is associative |
| Extended.GetMergedExtendedNeutral | public/class/WPP.mjs:262-277 | an extended document with no groups and no appendix is neutral on either side |
| RoundTrip.BreakToken | public/class/WPP.mjs:113-121 | a written property token reads back as its key and its non-empty values |
| RoundTrip.BreakEmptyToken | public/class/WPP.mjs:113-121 | a property written with no value, `key()`, reads back with one empty value |
| RoundTrip.BreakTokens | public/class/WPP.mjs:106-122 | all written tokens of a group read back, in order |
| RoundTrip.TokensOfShape | public/class/WPP.mjs:106-122 | every written token has the shape the token pattern at line 48 finds |
| RoundTrip.TokensConcat | public/class/WPP.mjs:48 | the token pattern splits written tokens, concatenated, back into those tokens |
| RoundTrip.BreakHead | public/class/WPP.mjs:99-105 | a group's written head `type("name")` reads back as its type and its name |
| RoundTrip.ParseFlat | public/class/WPP.mjs:25-66 | a group written on one line parses to its canonical form |
| RoundTrip.RenderNodeFlat | public/class/WPP.mjs:97-124 | a written group without its line feeds is the one-line form the parser reads |
| RoundTrip.GroupsTextFlat | public/class/WPP.mjs:96-132 | normal-mode text without its line feeds is the one-line groups, concatenated |
| RoundTrip.NormalizeGroups | public/class/WPP.mjs:165-178 | the normalizer turns normal-mode text into the one-line groups, concatenated |
| RoundTrip.NormalFragments | public/class/WPP.mjs:21 | the fragments of the normalized text are the one-line groups |
| RoundTrip.ParseFlats | public/class/WPP.mjs:25-67 | every one-line group parses to its canonical form |
| RoundTrip.ValidatePlain | public/class/WPP.mjs:157-159 | validating a document whose text needs no escaping gives `NoGroups` for the empty array and otherwise every group in canonical form: properties read back, empty values gone, repeated keys combined |
| RoundTrip.InsertFresh | public/class/WPP.mjs:57-58 | a key not yet in a group's table is stored at the end |
| RoundTrip.CollectDistinct | public/class/WPP.mjs:50-63 | attributes with distinct keys build exactly the table they came from |
| RoundTrip.CanonFixed | public/class/WPP.mjs:50-63 | a group with distinct keys, each with at least one value and no empty value, is its own canonical form |
| RoundTrip.ValidateCanonical | public/class/WPP.mjs:157-159 | validate returns a non-empty canonical document whose text needs no escaping unchanged |

## Left out

- Exceptions are `Err` results carrying only the error kind. The `value` payload of the thrown objects is dropped: the offending text, the group index or the type match.
- `ErrorNotWPP` and the `Array.isArray` guards of `getMerged` and `trim` are left out. The model's types admit only arrays of groups. The source's duplicated `!Array.isArray(w1)` test therefore plays no part.
- The library's defensive copies (`JSON.parse(JSON.stringify(...))`) are left out. Dafny values are immutable, so no copy is needed.
- Property tables are sequences of distinct keys in insertion order, like a JavaScript object's own string keys. Keys that look like array indices, which `for...in` enumerates first, are not modelled.
- `Parser.Parse` and `Merge.GetMerged`: a key that names a member of `Object.prototype` is not modelled. Such keys include `constructor`, `toString`, `valueOf`, `hasOwnProperty` and `__proto__`. On a fresh `{}` such a key already holds a function or an object, so the truthiness tests at lines 53 and 237 succeed. The following `.concat` then throws a `TypeError` in the source. This happens in `parse` at the key's first occurrence in a group, and in `getMerged` when the acceptor does not hold the key itself. The model treats the key as new and succeeds. For example, `[a("b"){constructor("x")}]` throws in the source but parses in the model with a `constructor` property.
- Falsy `type`, `name` and values (`undefined`, `null`) are the empty string. A value that is not a string is not modelled.
- `stringify` accepts exactly the three modes `Normal`, `Line` and `Compact`. In the source, an unknown mode string falls back to normal mode.
- The `lastIndex` state of the global `Reg` is not modelled. The `exec` loop is modelled as "replace all matches while any match exists". A `replace` with a global pattern resets `lastIndex`, so each round searches from the start, as in the model.
- The missing-type error of `parse` (line 30) is never raised. The pattern `[^{]*` matches every string, possibly as the empty string. `Parser.Parse` states that this error never occurs.
- The upper-cased copy of the values at line 195 is computed and discarded by the source. It has no effect and is not modelled.
- `removeExtraSpaces` is not claimed to be idempotent, because it is not. A `#` in the input becomes a space after stripping, and a second pass strips that space: `Boundaries.NotIdempotent` shows `a#b` becoming `a b` and then `ab`.
- `Normalizer.NormalizeHashes`: the exact output, with each input `#` as a space in its place, is stated only for text with no white space besides line breaks. For every other text `Normalizer.NormalizeKeepsHashes` states only the count: the output has at least as many spaces as the input has `#`s.
- `Normalizer.ReplaceAll` and `Normalizer.Mark`: their contracts say when a round replaces something and that the loop ends with no match left. They do not say which spaces become `#` for every text. The `Boundaries` lemmas state it for the shapes that occur between attributes: `)`, spaces and a word before `(` (`Boundaries.MarkKeepsSpaces`), and `)`, spaces, a word, spaces and a word before `(` (`Boundaries.MarkCollapses`).
- `Boundaries.NormalizeKeepsBoundary`: the marking keeps every space between a closing `)` and the next attribute name, not just one. The ` *` of group 1 lets each round mark one more of them, so `)  key(` normalizes to `)  key(`.
- `Normalizer.StripKeepsQuotedSpan`: quoted values keep their white space through the stripping step only. The marking step before it ignores quotes, so a quoted value holding `)` can lose spaces (`Boundaries.CollapsesInsideQuotes`). `Normalize` therefore does not keep every quoted span verbatim.
- `Merge.MergePropertiesLookup`: requires the donor's keys to be distinct. They always are for a JavaScript object.
- `Merge.GetMergedLookup`: requires every donor's keys to be distinct, for the same reason.
- `RoundTrip.ValidatePlain` and `RoundTrip.ValidateCanonical`: cover documents whose types, names, keys and values hold no white space and none of `# ( ) { } + ,`. The lemmas say nothing about other documents, some of which may still validate unchanged. Some are rewritten: `Boundaries.CollapsesInsideQuotes` shows the normalizer changing a value that holds `)`.
- `Extended.ParseExtendedShape`: states the appendix only up to white space, which the blank-line collapse at line 78 may remove. `Spans.CollapseFromPlain` states the exact appendix for text without line breaks.
- `Extended.AppendixRoundTrip`: covers text without groups only. For text with groups, `Extended.ParseExtendedShape` states that the groups are the parse of the spans joined by line feeds, and `RoundTrip.ValidatePlain` states what that parse gives for written groups. The two are not combined into one round-trip lemma.
