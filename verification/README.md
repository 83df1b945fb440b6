# StringScanner in Dafny

A model of the tokenizer core of StringScanner. The tokenizer splits a
character stream into words and delimiters. Where several delimiters of
a collection match, the collection's match is the longest one. The
two-phase scanner does not always read that longest delimiter (see
"## Findings"). The model has three parts:

- **`DelimiterCollection<T>`** (`delimiter.dfy`, module `Delimiters`). A list
  of delimiters that is itself a delimiter. Its match is the longest member
  match, and on equal lengths the earliest member wins, because LINQ's
  `OrderByDescending` is a stable sort (`selection.dfy`, module
  `Selection`). It also has the list operations `Add`, `Remove`, `Clear`,
  `Contains` and `Count`.
- **The two-phase scanner** (`scanner.dfy`, module `Scanner`). This covers
  `src/Scanner.cs` and `src/StringScanner/Scanner.cs`, which hold the same
  code. A line of the licensed copy is the same line of `src/Scanner.cs`
  plus 18, so the citations below use either file. The stream is the input
  string plus a character cursor.
  `ReadUntil` is the read-and-rewind loop `Read(Func<string,int>)`.
  `Read` is `Read(IDelimiter)`: phase 1 returns the text before the next
  delimiter. If that text is empty or `null`, phase 2 grows the delimiter
  found at the cursor one character at a time, and stops at the first
  buffer whose match length is positive and shorter than the buffer.
  `MunchRead` is the same read with phase 2 taking the longest delimiter at
  the cursor instead (see "## Findings").
- **The stateful draft** (`draft.dfy`, module `Draft`). This is the earlier
  `Scanner.cs` at the top of the repository. It keeps a buffer across calls
  of `ReadNextWordOrDelim`, and grows delimiters one peeked character at a
  time.

Matchers are pure functions (`matching.dfy`). A `MatchResult` carries
success, index and length, as the .NET `Match` does, and a failed match is
`NoMatch` (all zero). A matcher is `WellFormed` when each answer lies inside
its probe. For the draft, a regex is the list of all its matches
(`Regex.Matches`).

`literal.dfy` gives a literal-string delimiter, used as a concrete instance.
`examples.dfy` works through four concrete runs:

- "a==b" with the delimiters `=` and `==`;
- "===" with the delimiters `=` and `===`, read by `Read` and by `MunchRead`;
- the draft on "xa=b" with `=` and `a=b`, next to the two-phase scanner on
  the same input;
- the draft on "b" with no delimiters.

## Model

| member | source | states |
|---|---|---|
| Delimiters.AnyMatches | src/Delimiter.cs:55 | true exactly when some member's match succeeds |
| Delimiters.IsMatch | src/Delimiter.cs:53-56 | the collection matches iff at least one member matches; an empty collection never matches |
| Delimiters.Match | src/Delimiter.cs:62-67 | no result exactly for an empty collection; otherwise the result is some member's result, no member's result is longer, and every earlier member's result is strictly shorter |
| Delimiters.MatchPicksEarliestLongest | src/Delimiter.cs:64-66 | tie-break law: the earliest member among those with the greatest length is the one whose result is returned |
| Delimiters.IsMatchAgreesWithMatch | src/Delimiter.cs:53-67 | for a non-empty collection whose members report no zero-length success, `IsMatch` holds iff the longest match succeeds |
| Delimiters.AsMatcherWellFormed | src/Scanner.cs:66-67 | if every member's answers lie inside the probe, so do the collection's |
| Delimiters.FirstIndexOf | src/Delimiter.cs:93-96 | the position of the first occurrence of the item, or the length of the list when there is none |
| Delimiters.Contains | src/Delimiter.cs:93-96 | true iff the item is a member |
| Delimiters.Add | src/Delimiter.cs:83-86 | the item is contained afterwards, the count grows by one, and the earlier members keep their places, with the item last |
| Delimiters.Clear | src/Delimiter.cs:88-91 | the count is zero afterwards |
| Delimiters.ClearedMatchesNothing | src/Delimiter.cs:88-91 | a cleared collection matches no content and has no longest match |
| Delimiters.Remove | src/Delimiter.cs:103-106 | reports whether the item was present; if so, exactly its first occurrence is deleted and the other members keep their order; otherwise nothing changes |
| Delimiters.RemoveUndoesAdd | src/Delimiter.cs:83-106 | removing an item just added to a collection without it gives the collection back and reports true |
| Selection.Insert | src/Delimiter.cs:65 | stable insertion keeps the multiset of elements |
| Selection.InsertKeepsDescending | src/Delimiter.cs:65 | inserting into a descending sequence keeps it descending |
| Selection.OrderByDescending | src/Delimiter.cs:65 | the result is a permutation of the input and is ordered by descending key |
| Selection.FirstLongest | src/Delimiter.cs:64-66 | reference choice: the earliest position holding a greatest key |
| Selection.FirstLongestUnique | src/Delimiter.cs:64-66 | only one position is the earliest one with a greatest key |
| Selection.SortHeadIsFirstLongest | src/Delimiter.cs:65-66 | the stable descending sort puts the reference choice first |
| Selection.LongestIsFirstLongest | src/Delimiter.cs:64-66 | sort-then-first yields nothing iff the input is empty, and otherwise the earliest element with the greatest key |
| Scanner.StopsHere | src/StringScanner/Scanner.cs:62-65 | the loop stops at the first buffer for which the stop function gives a non-negative index, and at no other |
| Scanner.ReadLoop | src/StringScanner/Scanner.cs:54-65 | `null` exactly when no character is left, with the cursor unchanged; at the first stopping buffer, the prefix up to the index, with the cursor moved there; when nothing stops it, the rest of the input, with the cursor at the end |
| Scanner.ReadUntil | src/Scanner.cs:30-48 | the same for a fresh buffer: a token is always the input slice from the old cursor to the new one |
| Scanner.UntilMatchBounded | src/Scanner.cs:46-47 | phase 1's index never exceeds the buffer, so the substring is defined |
| Scanner.UntilCutBounded | src/Scanner.cs:46-47 | phase 2's length never exceeds the buffer |
| Scanner.Phase1 | src/StringScanner/Scanner.cs:82-87 | `null` iff at end of input; a token is the input slice read |
| Scanner.Phase1FirstMatch | src/Scanner.cs:64-69 | at the first buffer with a match, phase 1 returns the text before the match index and leaves the cursor at that index |
| Scanner.Phase1NoMatch | src/Scanner.cs:38-41 | with no match before the end, phase 1 returns the rest of the input, or `null` when none is left |
| Scanner.Phase2 | src/StringScanner/Scanner.cs:90-96 | `null` iff at end of input; otherwise a non-empty slice from the cursor |
| Scanner.Phase2FirstCut | src/Scanner.cs:74-78 | at the first buffer whose match length is positive and shorter than the buffer, phase 2 returns that many characters |
| Scanner.Phase2NoCut | src/Scanner.cs:74-78 | if no buffer is cut before the end, phase 2 returns the rest of the input |
| Scanner.CutNotEmpty | src/Scanner.cs:77 | phase 2 moves the cursor forward unless it starts at the end |
| Scanner.StopCases | src/Scanner.cs:36-44 | either some buffer is the first one the stop function answers for, or none before the end is |
| Scanner.Read | src/Scanner.cs:61-81 | `null` iff at end of input with the cursor unchanged; otherwise a non-empty slice starting at the old cursor, and the cursor moves past it |
| Scanner.ReadWordBeforeDelimiter | src/Scanner.cs:64-69 | a match after some text: the token is that text, and the stream stops at the start of the match |
| Scanner.ReadLeadingDelimiter | src/Scanner.cs:72-79 | a match at the cursor: the token is the delimiter cut at the first buffer whose match length is positive and shorter than the buffer |
| Scanner.ReadLeadingDelimiterToEnd | src/Scanner.cs:72-79 | a match at the cursor that is never cut: the token is the rest of the input |
| Scanner.ReadWithoutDelimiter | src/Scanner.cs:38-41 | with no match ahead, the rest of the input is the token |
| Scanner.Peek | src/StringScanner/Scanner.cs:109-115 | the cursor is unchanged; `null` iff at end of input; otherwise a non-empty slice at the cursor |
| Scanner.LongestWhole | src/Scanner.cs:74-78 | the longest buffer of at most `k` characters that a match covers from its first character, and no longer one is covered; 0 when none is |
| Scanner.MunchPhase2 | src/Scanner.cs:74-78 | corrected phase 2: `null` iff at end of input; otherwise a non-empty slice from the cursor |
| Scanner.MunchTakesLongest | src/Scanner.cs:74-78 | when some buffer at the cursor is matched as a whole, corrected phase 2 returns such a buffer, and no longer buffer is matched as a whole |
| Scanner.MunchRead | src/Scanner.cs:61-81 | the read with corrected phase 2 keeps `Read`'s contract: `null` iff at end of input; otherwise a non-empty slice at the cursor |
| Scanner.MunchReadLeadingDelimiter | src/Scanner.cs:72-79 | with a delimiter at the cursor, the corrected read returns the longest delimiter there |
| Scanner.MunchReadLeadingDelimiterToEnd | src/Scanner.cs:72-79 | when the rest of the input is one delimiter, the corrected read returns all of it |
| Scanner.PeekAgreesWithRead | src/Scanner.cs:91-97 | a peek returns the token the next read returns, and peeking twice gives the same answer |
| Scanner.TokensStep | src/Scanner.cs:61-81 | the tokens from a cursor are the token read there, followed by the tokens from where the read stopped |
| Scanner.TokensRoundTrip | src/Scanner.cs:61-81 | round trip: successive reads, joined, give back the input from the cursor |
| Scanner.TokensNotEmpty | src/StringScanner/Scanner.cs:79-99 | no read returns "" |
| Scanner.TokensWithoutDelimiter | src/Scanner.cs:38-41 | with no match ahead, the input is a single token |
| Draft.Hits | Scanner.cs:100-101 | empty exactly when no regex matches |
| Draft.HitsAt | Scanner.cs:100-101 | the matches of each regex appear in order, after those of every earlier regex |
| Draft.FirstLongestHit | Scanner.cs:100-103 | the match the stable sort puts first is no shorter than any match, and every match of an earlier regex, or earlier in the same regex, is strictly shorter |
| Draft.GetDelimLocation | Scanner.cs:98-110 | `null` iff no regex matches the content |
| Draft.GetDelimLocationIsLongest | Scanner.cs:98-110 | the location is that of a match of maximal length, taking the earliest regex and then the earliest match on ties |
| Draft.LocationInside | Scanner.cs:123-124 | the location lies inside the content, so the substring is defined |
| Draft.JustTheDelim | Scanner.cs:117-127 | "" when nothing matches |
| Draft.JustTheDelimIsLongest | Scanner.cs:117-127 | the text is that of some match, no match is longer, and every match of an earlier regex, or earlier in the same regex, is strictly shorter |
| Draft.DelimNotEmpty | Scanner.cs:117-127 | when no regex reports an empty match, the delimiter text of a matching buffer is not empty |
| Draft.KeepReadingDelim | Scanner.cs:80-91 | false at end of input |
| Draft.KeepReadingDelimOutgrows | Scanner.cs:80-91 | keeps growing iff input remains and some match with the next character is longer than every match without it |
| Draft.ReadToAfterConsume | Scanner.cs:53 | reading one character and then on to a position is the same as reading on to it |
| Draft.ValidAfterReading | Scanner.cs:53 | invariant: the buffer stays equal to the characters read since it was last cleared |
| Draft.ReadNextWord | Scanner.cs:43-58 | the buffer grows by exactly the characters read, and at least one is read unless at end of input |
| Draft.ReadNextWordStopsAtFirstMatch | Scanner.cs:46-57 | stops at the first buffer that matches and returns the text before the longest match's start, keeping the buffer; with no match it reads to the end and returns the whole buffer |
| Draft.WordStopsAtMatch | Scanner.cs:54-57 | when the grown buffer matches, the word is the buffer up to the match start |
| Draft.WordReadsOn | Scanner.cs:46-54 | when the grown buffer does not match, reading goes on from the grown buffer |
| Draft.ReadNextDelim | Scanner.cs:64-71 | takes characters only while each one makes the longest match longer, leaves the first one that would not unread, and returns the longest match's text |
| Draft.PersistentCanReadDelim | Scanner.cs:76-78 | if matches survive reading on, every location that growing takes `.Value` of exists |
| Draft.ReadDelimAndClear | Scanner.cs:26-30 | the delimiter branch returns a non-empty delimiter, clears the buffer and keeps the invariant |
| Draft.ReadNextWordOrDelim | Scanner.cs:19-37 | keeps the buffer invariant; returns "" only at end of input; a matching buffer is read as a delimiter and then cleared |
| Draft.WordOrDelimReadsWord | Scanner.cs:31-35 | a buffer that does not match: the result is the word read, unless it is empty with input left |
| Draft.WordOrDelimReadsDelim | Scanner.cs:26-30 | a matching buffer: the result is the grown delimiter, with the buffer cleared |
| Draft.RepeatsAtEnd | Scanner.cs:48-52 | at end of input, a buffer without a match is returned again and the state does not change |
| Examples.LongerMemberWins | src/Delimiter.cs:62-67 | for `=` then `==` on "a==b", the collection answers with the match of `==` |
| Examples.EarlierMemberWinsTie | src/Delimiter.cs:64-66 | for `b` then `a` on "ab", both of length 1, the earlier member `b` wins |
| Examples.ScannerSplitsAEqEqB | src/Scanner.cs:61-81 | with `=` then `==`, "a==b" is read as "a", "==", "b": the delimiter at the cursor is grown from `=` to `==` and cut before the `b` |
| Examples.ScannerMissesTripleEq | src/Scanner.cs:72-79 | with `=` then `===`, the first read of "===" is "=": the buffer "==" is matched only in part, so phase 2 stops before reaching `===` |
| Examples.MunchReadsTripleEq | src/Scanner.cs:72-79 | with `=` then `===`, the corrected read of "===" is the whole "===" |
| Examples.ScannerSplitsXaEqB | src/Scanner.cs:61-81 | with `=` then `a=b`, the two-phase scanner reads "xa=b" as "xa", "=", "b" |
| Examples.DraftDuplicatesText | Scanner.cs:19-71 | with `=` then `a=b`, the draft returns "xa", "a=b", "" for "xa=b", which do not join back into the input |
| Examples.DraftRepeatsLastWord | Scanner.cs:43-52 | with no delimiters, every call of the draft on "b" returns "b", however many calls are made |

## Left out

- Stream plumbing (`StreamReader`, `MemoryStream`, `BaseStream.Position`, `DiscardBufferedData`) is left out. The stream is the input string with a character cursor.
- Multi-byte text is left out. The source rewinds by adding a character count to a byte position, which is exact only when each character is one byte, and the model assumes that.
- The .NET regular-expression engine is left out. A delimiter is an arbitrary pure matcher, or its list of matches for the draft. Literal strings are the only concrete delimiters.
- `GetEnumerator` and `CopyTo` of `DelimiterCollection<T>` are left out. They only forward to the backing list.
- `IsReadOnly` of `DelimiterCollection<T>` is left out. It is abstract, so the class gives it no behaviour.
- Backings other than the default `List<T>` are left out. The collection is a sequence in insertion order.
- Delimiters.Count: has no contract beyond its definition as the length of the member list.
- Runtime exceptions become preconditions. The null match of an empty collection becomes `Delimiters.AsMatcher` requiring a member. `ToString(0, readTo)` beyond the buffer becomes `WellFormed`/`Bounded`. The draft's `.Value` on a missing location becomes the requires of `Draft.KeepReadingDelim` and `Draft.CanReadDelim`.
- Draft.ReadNextWordOrDelim: requires that regexes never report an empty match and that a match survives reading on (`NoEmptyHits`, `Persistent`). Without these the source's loop need not end, and `ReadNextDelim` may take `.Value` of a missing location.
- Draft.ReadNextDelim: requires `CanReadDelim`, which states the source's assumption that every location it probes exists.
- Delimiters.IsMatch: a member's own `IsMatch` is taken to be the success of its `Match`. That holds for a `Regex` member. It does not hold for a member that is itself a collection whose members report zero-length matches: there `Any` over the members' `IsMatch` can be true while the nested `Match` has failed.
- Delimiters.IsMatchAgreesWithMatch: holds only when no member reports a successful match of length 0. Such a match sorts no higher than a failed one, so `IsMatch` can be true while the longest match has failed.

## Findings

| source | as written | input that shows it | evidently intended | confidence | as-written member | corrected member |
|---|---|---|---|---|---|---|
| Scanner.cs:43-52 | at end of input `ReadNextWord` returns the buffer without clearing it, so every further call of `ReadNextWordOrDelim` returns the same word again, and the end of the input is never reported | "b" with no delimiters: every call returns "b" | report the end once the input is used up (the rewrite returns `null` at end of input) | not executed | Examples.DraftRepeatsLastWord | Scanner.Read |
| Scanner.cs:56-71 | the word before a match is returned at once, but the delimiter grown on the next call may start inside that word, so characters come out twice | "xa=b" with delimiters `=` then `a=b`: the results are "xa", "a=b", "" | every character is returned exactly once, so the results join back into the input | not executed | Examples.DraftDuplicatesText | Scanner.TokensRoundTrip |
| src/Scanner.cs:72-79 | phase 2 stops at the first buffer whose longest match length is positive and shorter than the buffer, so a delimiter whose shorter prefixes are not delimiters is never reached | "===" with delimiters `=` then `===`: the buffer "==" is matched only as `=`, so the read returns "=" | the longest delimiter at the cursor, "===" | not executed | Examples.ScannerMissesTripleEq | Scanner.MunchReadLeadingDelimiter |
