# Code relevance scoring and a routing node's link set, in Dafny

This project models two programs and proves properties of the models.

**CodeCompareMR**, a Hadoop job, ranks forum posts by how much of their code resembles one reference source file.

- `tokenizeSource` reads the reference file with a `Scanner`. It builds a table that maps each token of at least `MIN_TOKEN_SIZE` (3) characters to its number of occurrences.
- `TokenizerMapper.map` reads one CSV record of a post with a hand-written quote scanner:
  - field 7 is taken as the body and field 14 as the title;
  - it cuts the body's `<code>…</code>` regions out with the lazy regular expression `<code>(.+?)</code>`;
  - it splits each region with a `StringTokenizer`;
  - it writes one (title, token) pair per token of at least 3 characters.
- The shuffle groups the pairs by title.
- `HashReducer.reduce` sums, over the tokens of one title, their counts in the reference table. A token seen X times in the reference file and Y times in the post so adds X·Y.

**The link set** (`ls.c`) of a routing node is a sentinel-headed circular list of link records. Each record holds two end nodes, two ports, a cost, a name and two socket descriptors.

- `create_ls` makes the empty set.
- `add_link` adds a record.
- `find_link` searches by name.
- `ud_link` overwrites a cost.
- `del_link` unlinks a record.

## Files

- `wrappers.dfy`: the `Option` type.
- `sequences.dfy`: generic sequence facts used by the proofs.
- `tokenize.dfy`: whitespace splitting with `StringTokenizer`'s and `Scanner`'s separator sets, and the length filter.
  - `Character.isWhitespace` is written out by code point.
  - `Split` yields the maximal separator-free runs of a string.
- `record_scanner.dfy`: the CSV quote scanner of `map`.
  - `ClosedFields` gives, as a function, the fields the scan loop closes.
  - It also holds one lemma per branch of the loop.
  - It proves a round trip: a record built from quoted, escaped fields reads back field by field.
- `code_regions.dfy`: `Matcher.find` for `<code>(.+?)</code>`, with java.util.regex semantics:
  - the leftmost start wins;
  - the group is the shortest non-empty run;
  - `.` does not match line terminators;
  - the next search resumes after the match.
- `scoring.dfy`: the score, the frequency table, and the grouping of emissions by title.
- `code_compare.dfy`: the mapper, the reference builder and the reducer, as imperative code.
  - `TokenizerMapper` is a class whose `title` and `body` fields persist across `map` calls.
  - `ReferenceIndex` holds the static `source` table.
  - `Reduce` keeps the reducer's nested scan over the table's keys.
- `link_set.dfy`: the link set as a class.
  - It has a sentinel record and the sequence of records in list order.
  - A pointer to a record is modelled as its position in that sequence.

## Model

| member | source | states |
|---|---|---|
| Tokenize.TokenizerDelimitersAreJavaWhitespace | CMSC433_Hadoop_Map_Reduce/CodeCompareMR.java:88 | Every `StringTokenizer` default delimiter (space, tab, newline, carriage return, form feed) is also a `Scanner` delimiter. |
| Tokenize.RunLength | CMSC433_Hadoop_Map_Reduce/CodeCompareMR.java:88-90 | A token is the longest separator-free prefix: it stops at the end or at a separator. |
| Tokenize.SplitTokensAreRuns | CMSC433_Hadoop_Map_Reduce/CodeCompareMR.java:88-90 | Every token `nextToken` returns is non-empty and holds no delimiter. |
| Tokenize.SplitKeepsText | CMSC433_Hadoop_Map_Reduce/CodeCompareMR.java:88-90 | The tokens, concatenated, are the input with its delimiters removed; no character is lost or invented. |
| Tokenize.SplitAtSeparator | CMSC433_Hadoop_Map_Reduce/CodeCompareMR.java:88-90 | A delimiter always ends a token: splitting `a + [c] + b` at a delimiter `c` gives the tokens of `a` followed by those of `b`. |
| Tokenize.SplitSkip | CMSC433_Hadoop_Map_Reduce/CodeCompareMR.java:88-90 | A leading delimiter is skipped. |
| Tokenize.SplitRun | CMSC433_Hadoop_Map_Reduce/CodeCompareMR.java:88-90 | A leading run of non-delimiters is the first token, and the rest is split after it. |
| Tokenize.SplitOfRun | CMSC433_Hadoop_Map_Reduce/CodeCompareMR.java:88-90 | A non-empty string without delimiters is exactly one token. |
| Tokenize.Qualifying | CMSC433_Hadoop_Map_Reduce/CodeCompareMR.java:91 | Every kept token has at least `MIN_TOKEN_SIZE` characters. |
| Tokenize.QualifyingAppend | CMSC433_Hadoop_Map_Reduce/CodeCompareMR.java:89-91 | Filtering by length commutes with concatenation, so filtering region by region equals filtering all tokens at once. |
| Tokenize.QualifyingCounts | CMSC433_Hadoop_Map_Reduce/CodeCompareMR.java:150 | A token of at least 3 characters keeps every one of its occurrences; a shorter token keeps none. |
| Tokenize.QualifyingMembers | CMSC433_Hadoop_Map_Reduce/CodeCompareMR.java:150 | A token survives the filter if and only if it was read and has at least 3 characters. |
| RecordScanner.ClosedFieldsShape | CMSC433_Hadoop_Map_Reduce/CodeCompareMR.java:64-81 | Each field the scan closes is well formed and ends at or after the scan position. Well formed: its closing `"` is followed by `,` or by the end of the record, and its text starts at 0 or just after a `"`. Successive closing quotes are at least 2 characters apart. |
| RecordScanner.ScanPlain | CMSC433_Hadoop_Map_Reduce/CodeCompareMR.java:64-65 | A character other than `"` leaves the field count, the open field and the quote state as they were. |
| RecordScanner.ScanClose | CMSC433_Hadoop_Map_Reduce/CodeCompareMR.java:66-73 | A `"` followed by `,` or by the end closes exactly one field, from `startIndex` to the quote. It also skips the next character and sets `escape`. |
| RecordScanner.ScanDoubled | CMSC433_Hadoop_Map_Reduce/CodeCompareMR.java:74-75 | Inside a field, `""` is skipped and closes nothing. |
| RecordScanner.ScanOpen | CMSC433_Hadoop_Map_Reduce/CodeCompareMR.java:76-79 | Any other `"` opens a field just after itself and clears `escape`. |
| RecordScanner.ScanDone | CMSC433_Hadoop_Map_Reduce/CodeCompareMR.java:64 | When the loop reaches the end of the record, the fields it closed are exactly `Fields(post)`. |
| RecordScanner.FieldTextIsSubstring | CMSC433_Hadoop_Map_Reduce/CodeCompareMR.java:68-70 | A stored field is a substring of the record ending just before one of its `"` characters, doubled quotes left in place. |
| RecordScanner.FieldTextAppend | CMSC433_Hadoop_Map_Reduce/CodeCompareMR.java:67-72 | Closing a field gives the new field its text and does not change an earlier field's text. |
| RecordScanner.EscapeStartsWithComma | CMSC433_Hadoop_Map_Reduce/CodeCompareMR.java:66 | Doubling quotes does not change whether a text begins with `,`, the one character that makes an opening quote look like a closing one. |
| RecordScanner.EscapedTextClosesNothing | CMSC433_Hadoop_Map_Reduce/CodeCompareMR.java:74-75 | Inside an open field, a run of text with doubled quotes closes no field. |
| RecordScanner.ScanQuotedField | CMSC433_Hadoop_Map_Reduce/CodeCompareMR.java:64-81 | Scanning a quoted, escaped field that does not begin with `,` and is followed by `,` or the end closes one field whose text is the escaped field. |
| RecordScanner.FieldsOfRecord | CMSC433_Hadoop_Map_Reduce/CodeCompareMR.java:57-81 | Round trip: a record of quoted, escaped fields, none beginning with `,`, yields exactly as many fields as it has. Field k reads back as the k-th escaped text. |
| RecordScanner.LeadingCommaSplitsField | CMSC433_Hadoop_Map_Reduce/CodeCompareMR.java:66 | The scanner as written splits the one-field record `",a"` into two fields: the empty field, then `",a`. |
| CodeRegions.MarkersAreTheLiterals | CMSC433_Hadoop_Map_Reduce/CodeCompareMR.java:46 | The character-wise marker tests agree with the literals `<code>` and `</code>`. |
| CodeRegions.LazyEnd | CMSC433_Hadoop_Map_Reduce/CodeCompareMR.java:46 | The lazy group, when it ends, ends at a `</code>` at or after the position it was extended to. |
| CodeRegions.LazyEndSpec | CMSC433_Hadoop_Map_Reduce/CodeCompareMR.java:46 | The lazy group ends at `e` if and only if `</code>` is at `e`, nothing before `e` is a line terminator, and no earlier `</code>` occurs. |
| CodeRegions.MatchAtSpec | CMSC433_Hadoop_Map_Reduce/CodeCompareMR.java:46 | A match at `p` has group `b[p+6..e]` if and only if all of these hold: `<code>` is at `p`; the group is non-empty and free of line terminators; `</code>` follows it; no shorter non-empty group is followed by `</code>`. |
| CodeRegions.NextMatch | CMSC433_Hadoop_Map_Reduce/CodeCompareMR.java:85 | `find` returns a match of the pattern that starts at or after the search position. |
| CodeRegions.NextMatchIsLeftmost | CMSC433_Hadoop_Map_Reduce/CodeCompareMR.java:85 | There is no match at an earlier start than the one `find` returns, and none at all when it returns nothing. |
| CodeRegions.MatchesFrom | CMSC433_Hadoop_Map_Reduce/CodeCompareMR.java:85-86 | Each successive match lies after the search start, with room for both markers. |
| CodeRegions.NextMatchBounds | CMSC433_Hadoop_Map_Reduce/CodeCompareMR.java:85-86 | A match `find` returns starts after the search position plus `<code>`, is non-empty, and leaves room for `</code>` before the end of the body. |
| CodeRegions.MatchesFromStep | CMSC433_Hadoop_Map_Reduce/CodeCompareMR.java:85-86 | A successful `find` yields the next match, and the following search resumes after its `</code>`. |
| CodeRegions.MatchesDoNotOverlap | CMSC433_Hadoop_Map_Reduce/CodeCompareMR.java:85 | Each match's `<code>` begins after the previous match's `</code>` has ended. |
| CodeRegions.MatchesFromAreMatches | CMSC433_Hadoop_Map_Reduce/CodeCompareMR.java:85-86 | Every region that the loop visits is a match of the pattern at its own position. |
| CodeRegions.MatchShape | CMSC433_Hadoop_Map_Reduce/CodeCompareMR.java:46 | A match at its own position has a non-empty group free of line terminators. `<code>` stands before it and `</code>` after it, with no `</code>` after a shorter non-empty prefix. |
| CodeRegions.RegionShape | CMSC433_Hadoop_Map_Reduce/CodeCompareMR.java:86 | Each `group(1)` is non-empty and free of line terminators. It stands between `<code>` and `</code>`, with no `</code>` after a shorter non-empty prefix. |
| CodeRegions.NoMarkersNoRegions | CMSC433_Hadoop_Map_Reduce/CodeCompareMR.java:82-86 | A body in which no `</code>` starts after a `<code>` with room for a group between them has no code regions. This covers a body lacking either marker and one such as `</code><code>` that has both but no pair. |
| Scoring.ScoreAppend | CMSC433_Hadoop_Map_Reduce/CodeCompareMR.java:121-131 | The accumulated score adds up over concatenated value streams; repeated tokens count again. |
| Scoring.ScorePermutation | CMSC433_Hadoop_Map_Reduce/CodeCompareMR.java:123-131 | The score depends only on the multiset of values, not on their order. |
| Scoring.TokenContribution | CMSC433_Hadoop_Map_Reduce/CodeCompareMR.java:106-110 | A token with table count X that occurs Y times among the values adds exactly X·Y to the score. |
| Scoring.ScoreNonNegative | CMSC433_Hadoop_Map_Reduce/CodeCompareMR.java:121-131 | With non-negative table counts, the score is never negative. |
| Scoring.HistogramAppend | CMSC433_Hadoop_Map_Reduce/CodeCompareMR.java:150-154 | Counting one more token raises its count by one; an absent token starts at 1. |
| Scoring.HistogramCount | CMSC433_Hadoop_Map_Reduce/CodeCompareMR.java:153-154 | The `putIfAbsent`/`put` update adds one occurrence of the token to the counted sequence. |
| Scoring.GroupCounts | CMSC433_Hadoop_Map_Reduce/CodeCompareMR.java:117-118 | A title's group of values holds a token exactly as often as that (title, token) pair was written. |
| Scoring.GroupAppend | CMSC433_Hadoop_Map_Reduce/CodeCompareMR.java:117-118 | Grouping by title commutes with concatenating emission streams, such as the output of two `map` calls. |
| Scoring.JobOrderIndependent | CMSC433_Hadoop_Map_Reduce/CodeCompareMR.java:117-135 | The job's (title, score) output does not depend on the order in which pairs reach the shuffle. |
| Scoring.SameTitles | CMSC433_Hadoop_Map_Reduce/CodeCompareMR.java:117-135 | The set of titles that get a reduce call depends only on the multiset of pairs written. |
| Scoring.SameGroupScore | CMSC433_Hadoop_Map_Reduce/CodeCompareMR.java:117-135 | A title's score is the same for any two orderings of the same pairs. |
| Scoring.JobAdditive | CMSC433_Hadoop_Map_Reduce/CodeCompareMR.java:117-135 | A title's score over two emission streams is the sum of its scores over each. |
| CodeCompareMR.TaggedShape | CMSC433_Hadoop_Map_Reduce/CodeCompareMR.java:92-97 | One pair is written per kept token, in token order, each carrying the title. |
| CodeCompareMR.TokensOfQualify | CMSC433_Hadoop_Map_Reduce/CodeCompareMR.java:88-91 | Every kept token has at least 3 characters and no delimiter. |
| CodeCompareMR.EmissionsQualify | CMSC433_Hadoop_Map_Reduce/CodeCompareMR.java:82-101 | Every written pair needs both a body and a title. It carries the held title and a token from the body's code regions; the token has at least 3 characters and no delimiter. |
| CodeCompareMR.NoCodeNoEmissions | CMSC433_Hadoop_Map_Reduce/CodeCompareMR.java:82-92 | Nothing is written without a body or a title, or when no `</code>` in the body starts after a `<code>` with room for a group between them. |
| CodeCompareMR.TokensOfFilters | CMSC433_Hadoop_Map_Reduce/CodeCompareMR.java:85-91 | The tokens kept from the regions are exactly the length-filtered tokens of all regions together. |
| CodeCompareMR.CodeTokenCounts | CMSC433_Hadoop_Map_Reduce/CodeCompareMR.java:85-97 | A token is written once per occurrence in the code regions if it has at least 3 characters, and never otherwise. |
| CodeCompareMR.FrequenciesSpec | CMSC433_Hadoop_Map_Reduce/CodeCompareMR.java:144-161 | The table has a key if and only if it is a `Scanner` token of at least 3 characters. Its value is that token's number of occurrences, which is at least 1. |
| CodeCompareMR.RelevanceIsXY | CMSC433_Hadoop_Map_Reduce/CodeCompareMR.java:106-110 | A token seen X times in the reference file (0 if it is too short) and Y times in the values adds X·Y. |
| CodeCompareMR.GroupOfTagged | CMSC433_Hadoop_Map_Reduce/CodeCompareMR.java:92-97 | The shuffle hands a post's tokens back to that post's title, in order, and to no other title. |
| CodeCompareMR.TitlesOfTagged | CMSC433_Hadoop_Map_Reduce/CodeCompareMR.java:92-97 | The pairs of one post with at least one token carry exactly one title, the post's. |
| CodeCompareMR.OnePostScore | CMSC433_Hadoop_Map_Reduce/CodeCompareMR.java:106-135 | A post scored alone with at least one token yields exactly one output line, for its title. That line's score is the sum of the table counts of its code tokens. |
| CodeCompareMR.FindStep | CMSC433_Hadoop_Map_Reduce/CodeCompareMR.java:85-86 | One `find` in the emitting loop moves on to the next region, and that region's kept tokens come next. |
| CodeCompareMR.TokenizerMapper.constructor | CMSC433_Hadoop_Map_Reduce/CodeCompareMR.java:51-52 | A new mapper holds no title and no body. |
| CodeCompareMR.TokenizerMapper.Map | CMSC433_Hadoop_Map_Reduce/CodeCompareMR.java:55-103 | `body` and `title` become fields 7 and 14 of the record when it has them, and otherwise keep their earlier values. The pairs written are exactly `Emissions(title, body)` for the new values. |
| CodeCompareMR.EmitTokens | CMSC433_Hadoop_Map_Reduce/CodeCompareMR.java:82-101 | The `find` loop writes, region after region, the title paired with every kept token. It writes nothing without a body or a title. |
| CodeCompareMR.EmitRegion | CMSC433_Hadoop_Map_Reduce/CodeCompareMR.java:88-100 | The tokenizer loop writes the title with each token of the region that has at least 3 characters, in order. |
| CodeCompareMR.ReferenceIndex.constructor | CMSC433_Hadoop_Map_Reduce/CodeCompareMR.java:39 | The table starts empty. |
| CodeCompareMR.ReferenceIndex.TokenizeSource | CMSC433_Hadoop_Map_Reduce/CodeCompareMR.java:144-161 | The table is cleared and then becomes exactly the frequency table of the file's tokens of at least 3 characters. |
| CodeCompareMR.Reduce | CMSC433_Hadoop_Map_Reduce/CodeCompareMR.java:117-135 | The nested scan over values and table keys writes the key with the score of the values. |
| LinkSet.FirstNamed | CMSC417_c_routing_table/ls.c:69-84 | The result is the position of a record with the name, none earlier has it, and None if and only if no record has it. |
| LinkSet.InsertCounts | CMSC417_c_routing_table/ls.c:54 | Inserting a record anywhere adds one to its name's count and leaves every other name's count alone. |
| LinkSet.RemoveCounts | CMSC417_c_routing_table/ls.c:90 | Unlinking a record takes one off its name's count and leaves every other name's count alone. |
| LinkSet.UpdateKeepsSearch | CMSC417_c_routing_table/ls.c:64 | Overwriting a cost changes the result of no search by name. |
| LinkSet.FindAfterInsert | CMSC417_c_routing_table/ls.c:54 | After a record named n is inserted, a search for n succeeds. If n was new, the search finds that record. |
| LinkSet.HasLinkIffCounted | CMSC417_c_routing_table/ls.c:69-84 | A name is present if and only if its count is positive. |
| LinkSet.AddedLinkFound | CMSC417_c_routing_table/ls.c:36-54 | When add_link's record lands in a set with no link of that name, the search by name finds it. It carries the given peers, ports and cost, and each end's socket is `bind_port(port)` when that end is this node, and -1 otherwise. |
| LinkSet.LinkTable.CreateLs | CMSC417_c_routing_table/ls.c:21-30 | The set is empty. The head has both peers and the cost at -1 and no name. |
| LinkSet.LinkTable.AddLink | CMSC417_c_routing_table/ls.c:32-56 | The set grows by exactly the new record, inserted somewhere with the others keeping their order. The head is unchanged, only the added name's count rises, and a search for it succeeds. When the name was new, the search finds a record whose socket for each end is `bind_port(port)` when that end is this node, and -1 otherwise. |
| LinkSet.LinkTable.FindLink | CMSC417_c_routing_table/ls.c:69-84 | The list walk returns the first record with the name, or None when there is none. |
| LinkSet.LinkTable.UdLink | CMSC417_c_routing_table/ls.c:59-66 | The cost of the first record named n becomes the new cost, and that updated record is returned. No other field, no other record and no search result changes. |
| LinkSet.LinkTable.DelLink | CMSC417_c_routing_table/ls.c:86-94 | Exactly the first record named n is removed and the others keep their order. The head is unchanged, and only n's count drops, by one. |

## Left out

- The Hadoop plumbing is not modelled: `evaluate`, `Job` configuration, input and output formats, `Text`/`IntWritable` wrapping and `context.write`. Written pairs are returned as a sequence, and the shuffle is modelled by `Scoring.Group` and `Scoring.Job`.
- File I/O in `tokenizeSource` is left out. The file's contents are a string parameter, and the `FileNotFoundException` path (a printed stack trace, with the table left cleared) is not modelled.
- `ConcurrentHashMap` concurrency is left out. The table is built serially before the job, as the source assumes.
- Scoring.Score: the reducer's `int` accumulator and the `Integer` counts are unbounded integers here, so 32-bit wrap-around on huge inputs is not modelled.
- Tokenize.Qualifying: Java string lengths count UTF-16 code units, while Dafny characters are Unicode scalar values. A token with supplementary characters therefore has a different length here, so the `length() >= MIN_TOKEN_SIZE` test can differ; the same holds for the `|t| >= 3` clauses of CodeCompareMR.TokensOfQualify, CodeCompareMR.CodeTokenCounts and CodeCompareMR.FrequenciesSpec.
- Tokenize.IsJavaWhitespace: U+180E is treated as whitespace, as in the Unicode tables of Java 7 and 8. Later Java versions differ.
- RecordScanner.FieldsOfRecord: the round trip excludes fields whose text begins with `,`, which the scanner as written misreads (see `RecordScanner.LeadingCommaSplitsField`).
- CodeCompareMR.TokenizerMapper.Map: the scan loop and the emission loops are kept, but the emission loops are separate methods (`EmitTokens`, `EmitRegion`) rather than inline. `key` is unused and dropped; `context.write` is modelled by the returned `emitted` sequence.
- CodeCompareMR.Reduce: only the result value is modelled, not the O(values × keys) cost of the nested scan. The static `source` table is passed as a parameter.
- In `ls.c`:
  - `get_myid` and `bind_port` are not part of this model; they are parameters of `AddLink` (`myId` and a function `bindPort`);
  - `getmem`, `malloc`, `strcpy` and `free` are not modelled, and names are values;
  - queue.h (`InitDQ`, `InsertDQ`, `DelDQ`) is not part of this model. `AddLink` therefore promises insertion "somewhere, the others in order", although the body inserts at the front.
- LinkSet.LinkTable.FindLink: the C code reads the sentinel's NULL name when no record matches, which is undefined behaviour. The model returns None there, while `UdLink` and `DelLink` require presence as the C `assert`s do.
- LinkSet.LinkTable.UdLink: the C code returns a pointer into the list, which aliases the stored record. The model returns a copy of the updated record.
- LinkSet.LinkTable.CreateLs: the head's ports and sockets, which `create_ls` leaves unset, are unspecified.
- The return values of `create_ls` and `add_link` (always 1) and of `del_link` (always 0) are dropped.
- `print_link`, `print_ls` and `gethostbynode` are left out; they only write to stdout.
- The list's pointer structure is represented by a sequence: the circular `next`/`prev` links and the splicing are not modelled.
