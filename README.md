# search-testbed word and item counter, in Dafny

This project models the core of `index.js` from the search-testbed repository. The program reads a directory of page documents. For each page it walks the `story`, a sequence of items, and feeds two counters:

- `items` counts every item's `type`, or `"type missing"` when the item has none.
- `words` counts the lower-cased words of every item's `text`.

At the end it writes four reports: `items.txt`, `words.txt`, `length.txt` and `frequency.txt`.

Modules, in the order the program uses them:

- `Chars`: the character classes the regular expressions use (`\s`, `\p{P}`, `[A-Z]`) and `toLowerCase`.
- `Text`: each step of the text pipeline as a left-to-right scanner over `seq<char>`.
  - `trim()`;
  - the bracket pattern `\[{2}|\[(?:[\S]+)|\]{1,2}`;
  - the tag pattern, replaced by a space;
  - `\p{P}` replaced by a space;
  - `split(/\s+/)` and `split(/\r\n?|\n/)`;
  - the header test `^[A-Z]+[ ].*`.

  Each step is related to an independent description: the language the tag pattern accepts, the string a split joins back to, and the pattern the header test matches.
- `Counting`: the `Counter` class.
  - It extends `Map`. Its fields hold the map's insertion order and its counts.
  - Its methods are proved against the value-level `Table` functions `Tally` and `TallyAll`.
  - The lemmas about those functions say what a sequence of `count` calls leaves in the map.
- `Classify`: `extractItemText`, `extractLineText` and `extractStoryText`.
  - These are methods with loops, like the `forEach` calls in the source, and they update the two counters.
  - The functions `StoryKeys` and `StoryWords` give the exact sequences of keys each method hands to `count`.
- `Sorting`: `Array.prototype.sort` with a comparator, as a stable insertion sort. It is proved to give a sorted permutation, and to be stable.
- `Reports`: the three comparators, the sorted sequences, the report line formats and the text of the four files.
  - `WriteReports` returns the file contents instead of writing them.

### Behaviour worth knowing

The model follows the code. These are the cases where what it does may not be what a reader of the repository expects.

- **Text pipeline.** There is no step for style blocks, markdown links, bare URLs, symbols or emoji. `extractItemText` strips only brackets, tags and `\p{P}`, and `extractLineText` only brackets.
- **Links.** A link `[here](http://x.com/y)` is one match of `\[(?:[\S]+)` and disappears whole, so `here` is not counted. `Text.LinkRunRemoved` and `Text.LinkExample` state this.
- **Which types take the line path.** Every item type other than `paragraph`, `markdown`, `html` and `reference` takes the line path, not only `audio`, `video` and `frame`.
- **Line handling.** A line is skipped when it matches `^[A-Z]+[ ]`. That means one or more ASCII capitals followed by a space; there is no `http` or `//` test. Surviving lines are counted one by one, not joined.
- **Frequency tie order.** For the counts `{"b": 2, "a": 2, "c": 1}` the frequency report lists `a`, `b`, `c`: equal counts go by ascending key, whatever order the keys were first counted in. See `Reports.FrequencyExample`.
- **Empty words.** `split(/\s+/)` can yield an empty first or last piece, for example when the text starts or ends with whitespace. `count` ignores these through its zero-length guard, so they never become keys. See `Text.SplitOnSpaceEmpties` and `Classify.WordKeysClean`.
- **Empty type.** An item whose `type` is the empty string is not tallied in `items`, by the same guard. See `Classify.ItemsTotal`.
- **Length ties.** The length report breaks equal lengths by the first character only. Words of equal length and equal first character keep the counter's insertion order, because `sort` is stable. See `Reports.RankByLengthStable` and `Reports.LengthTieExample`.

## Model

| member | source | states |
|---|---|---|
| Chars.IsSpace | index.js:24-27 | `\s` is the ECMAScript whitespace and line-terminator set; no whitespace character is punctuation or a capital |
| Chars.IsPunct | index.js:26 | `\p{P}` holds for no capital letter and for none of the ASCII symbols `` $ + < = > ^ ` \| ~ ``, which are category S |
| Chars.LowerChar | index.js:28 | `toLowerCase` on one character lowers ASCII and Latin-1 capitals by 32, leaves every other character alone, and keeps whitespace as whitespace and punctuation as punctuation |
| Chars.ToLower | index.js:28 | `toLowerCase` keeps the length, lowers each character in place, and leaves no capital |
| Chars.ToLowerIsLower | index.js:28 | a lower-cased word has no capitals left, and lower-casing it again changes nothing |
| Text.Trim | index.js:24 | `trim()` returns the middle of the input: what it drops in front is exactly the leading whitespace run, what it drops behind is all whitespace, and the result neither starts nor ends with whitespace |
| Text.TrimOfTrimmed | index.js:24 | a string that neither starts nor ends with whitespace is its own trim |
| Text.StripBrackets | index.js:24 | the bracket replacement never lengthens the text |
| Text.StripBracketsClean | index.js:24 | after the bracket replacement no `]` is left, every `[` is followed by whitespace or the end, and a leading whitespace character survives |
| Text.StripBracketsKeepsSpaces | index.js:24 | the bracket replacement removes only non-whitespace: the whitespace characters of the text are kept, in order |
| Text.StripBracketsFixpoint | index.js:24 | a text with no `]` and no `[` before a non-whitespace character is left unchanged |
| Text.StripBracketsIdempotent | index.js:24 | replacing brackets twice gives the same text as replacing them once |
| Text.DoubleOpenRemoved | index.js:24 | `[[` is removed on its own and the text after it is processed as if it started there |
| Text.LinkRunRemoved | index.js:24 | a `[` followed by a non-whitespace run is removed together with the whole run, up to the next whitespace |
| Text.LinkExample | index.js:24 | the markdown link `[here](http://x.com/y)` leaves nothing, so `here` is not counted |
| Text.CloseRemoved | index.js:24 | a `]` at the start is removed and the rest is processed as if it started there, so `a]b` gives `ab` |
| Text.CloseInWordExample | index.js:24 | `a]b` becomes `ab` |
| Text.DoubleCloseRemoved | index.js:24 | `]]` at the start is removed as one match |
| Text.OpenKept | index.js:24 | a `[` followed by whitespace or by the end of the text is kept |
| Text.CharKept | index.js:24 | a first character other than `[` and `]` is kept, in front of the processed rest |
| Text.BracketFreeKept | index.js:24 | a prefix without brackets is kept unchanged in front of the processed rest |
| Text.TagEnd | index.js:25 | a tag match starting at `<` has at least three characters and lies inside the text |
| Text.TagEndSound | index.js:25 | every stretch the tag scanner removes is a string of the tag language: `<`, one or more elements, `>` |
| Text.ElementEndSound | index.js:25 | each element the scanner reads is a double-quoted string followed by quote characters, a single-quoted one likewise, or one character other than a quote or `>` |
| Text.BodyEndSound | index.js:25 | the body scanner stops at a `>` and what it read before it is a non-empty sequence of elements |
| Text.PlainTagMatched | index.js:25 | a tag whose body holds no quote and no `>`, such as `<b>` or `</b>`, is matched whole |
| Text.ReplaceTags | index.js:25 | the tag replacement never lengthens the text, and a text without `<` is unchanged |
| Text.ReplaceTagsFromAgree | index.js:25 | the replacement scans left to right: from any position it depends only on the text from there on |
| Text.TagReplaced | index.js:25 | a tag matched at the start becomes one space, and the replacement goes on after the match |
| Text.NonTagKept | index.js:25 | where no tag matches at the start, the first character is kept and the replacement goes on after it |
| Text.PlainTagReplaced | index.js:25 | `<`, a body without quotes or `>`, and `>` at the start become one space |
| Text.TagFreeKept | index.js:25 | a prefix without `<` is kept unchanged in front of the processed rest |
| Text.TagExample | index.js:25 | `a<b>c` becomes `a c` |
| Text.ReplacePunct | index.js:26 | every punctuation character becomes a space and every other character is kept in place, so no punctuation is left |
| Text.PunctFreeKept | index.js:26 | a text without punctuation is unchanged |
| Text.SplitOnSpace | index.js:27 | `split(/\s+/)` gives at least one piece, and no piece contains whitespace |
| Text.SplitOnSpaceJoin | index.js:27 | joining the pieces with single spaces gives the text with each whitespace run collapsed to one space, so the split loses only whitespace |
| Text.SplitOnSpaceEmpties | index.js:27 | only the first and the last piece can be empty; the first is non-empty when the text starts with a non-whitespace character, the last when it ends with one |
| Text.SplitOfWord | index.js:27 | a text without whitespace splits into itself alone |
| Text.SplitAtSpace | index.js:27 | a word, a whitespace run and a rest that does not start with whitespace split into the word followed by the rest's pieces |
| Text.SplitLines | index.js:50 | `split(/\r\n?\|\n/)` gives at least one line, and no line contains `\r` or `\n` |
| Text.SplitLinesJoin | index.js:50 | joining the lines with `\n` gives the text with every `\r\n`, `\r` and `\n` turned into `\n` |
| Text.SplitLinesOfLine | index.js:50 | a text without a line break is one line |
| Text.SplitLinesAtNewline | index.js:50 | a line, `\n` and a rest split into the line followed by the rest's lines |
| Text.HeaderLineIff | index.js:51 | the header test holds exactly when the line has a non-empty prefix of ASCII capitals followed by a space |
| Text.IsHeaderLine | index.js:51 | a header line has at least two characters and starts with an ASCII capital |
| Text.ItemWords | index.js:23-29 | the words `extractItemText` passes to `count` contain no whitespace and no punctuation, and are lower-case |
| Text.ItemWordsExample | index.js:23-28 | `[[Hello World]] is [here](http://x.com/y) and <b>bold</b>` counts `hello`, `world`, `is`, `and`, `bold` and a final empty piece, which `count` then ignores |
| Text.LineWords | index.js:31-35 | the words `extractLineText` passes to `count` contain no whitespace and no `]`, are lower-case, and have `[` at most as their last character |
| Text.PlainLineWords | index.js:31-35 | a line with no link markers and no surrounding whitespace gives exactly its whitespace-separated words, lower-cased |
| Counting.Tally | index.js:14-20 | `count(key)` on a zero-length key changes nothing; otherwise the key's count becomes old count + 1, a missing key becomes 1, every other key keeps its count, a new key is appended to the insertion order, and a well-formed map stays well-formed |
| Counting.TallyAll | index.js:14-20 | counting a sequence of keys never shortens the insertion order and lengthens it by at most one key per counted key (that the old order stays a prefix is `Counting.TallyAllKeys`) |
| Counting.TallyAllAppend | index.js:14-20 | counting `a` then `b` equals counting `a + b` |
| Counting.TallyAllCounts | index.js:14-20 | after counting a sequence of keys, each non-empty key's count has grown by its number of occurrences, and the empty key is still absent |
| Counting.TallyAllKeys | index.js:14-20 | the keys after counting are the old keys plus the non-empty counted ones, and the old insertion order is a prefix of the new one |
| Counting.TallyAllWellFormed | index.js:14-20 | the map keeps every count at least 1, no empty key, and an insertion order holding each key once |
| Counting.CountRepeated | index.js:19 | counting a new non-empty key `n` times leaves it with count `n`, and absent when `n` is 0 |
| Counting.TallyTotal | index.js:14-20 | one `count` call raises the sum of all counts by one, or by zero for an empty key |
| Counting.TallyAllTotal | index.js:14-20 | counting a sequence raises the sum of all counts by the number of its non-empty keys |
| Counting.EntriesComplete | index.js:97 | `entries()` holds exactly the pairs (key, count) of the map, one per key |
| Counting.EntriesOf | index.js:97 | `entries()` has one pair per key of the insertion order |
| Counting.Counter.constructor | index.js:63-64 | a new counter is an empty, well-formed map |
| Counting.Counter.Count | index.js:14-20 | the counter's new state is `Tally` of its old state |
| Counting.Counter.Get | index.js:11-13 | `get` returns the key's count, or nothing for a missing key; a present count is at least 1 and its key non-empty |
| Counting.Counter.Size | index.js:93-94 | `size` is the number of keys, which equals the length of the insertion order |
| Counting.Counter.Entries | index.js:97 | `[...entries()]` lists the (key, count) pairs in insertion order |
| Counting.Counter.Keys | index.js:118 | `[...keys()]` lists the keys in insertion order |
| Counting.DistinctKeysCardinality | index.js:93-94 | a map whose keys are exactly the elements of a duplicate-free order has as many keys as the order has elements |
| Classify.IsRichText | index.js:42-48 | the four `case` labels of the rich-text path; `audio`, `video` and `frame` are not among them, so they take the line path |
| Classify.KeyOf | index.js:39-58 | the key of an item is empty exactly when its `type` is the empty string, the one case `count` ignores |
| Classify.StoryKeys | index.js:38-59 | one key per story item, in order: the item's `type` when it has one, `"type missing"` otherwise |
| Classify.LinesWords | index.js:50-54 | a text made only of header lines counts no words |
| Classify.TextWords | index.js:42-54 | the rich-text path always hands at least one piece to `count` |
| Classify.BlankTextWords | index.js:23-28 | a rich text made only of whitespace hands `count` exactly one empty piece, which the zero-length guard ignores |
| Classify.WordsOf | index.js:39-56 | words come only from an item with both a `type` and a `text`, and a rich-text item with a `text` always yields at least one piece |
| Classify.StoryWords | index.js:37-61 | a story none of whose items has a `text` counts no words |
| Classify.CountLowered | index.js:28 | the words counter ends as the old counter with every piece, lower-cased, counted in order; the same `forEach` ends `extractLineText` (index.js:34) |
| Classify.ExtractItemText | index.js:23-29 | the words counter ends as the old counter with every `ItemWords` word of the text counted, in order |
| Classify.ExtractLineText | index.js:31-35 | the words counter ends as the old counter with every `LineWords` word of the line counted, in order |
| Classify.ExtractLines | index.js:50-54 | the words counter ends as the old counter with the words of every line that is not a header line counted, in order |
| Classify.ExtractStoryText | index.js:37-61 | the items counter counts the story's keys and the words counter counts the story's words, each in story order, and both counters stay well-formed |
| Classify.ExtractItem | index.js:39-59 | one story item counts its key in the items counter and its words in the words counter, and both stay well-formed |
| Classify.ItemsTotal | index.js:38-59 | a story raises the sum of the item counts by its number of items, less those whose `type` is empty |
| Classify.ItemsCounted | index.js:38-59 | after a story, the count of each non-empty key has grown by the number of items whose key it is: their `type`, or `"type missing"` for an item without one |
| Classify.NoTextNoWords | index.js:39-41 | an item without a `type`, or without a `text`, counts no words |
| Classify.TextWordsClean | index.js:42-54 | words from the rich-text case have no whitespace, no capitals and no punctuation; words from the line case have no whitespace, no capitals and no `]` or inner `[` |
| Classify.StoryWordsClean | index.js:37-61 | every word a story hands to the words counter is whitespace-free and lower-case |
| Classify.WordKeysClean | index.js:37-61 | starting from an empty counter, every key of the words counter is a non-empty, whitespace-free, lower-case word of the story |
| Classify.WordKeysCleanFrom | index.js:37-61 | from any counter whose keys are non-empty and clean, a story leaves every key non-empty and clean, so the words counter stays clean across all pages |
| Classify.LinesWordsAppend | index.js:50-54 | the words of a sequence of lines are the words of its parts, concatenated |
| Classify.HeaderLineSkipped | index.js:51-53 | a header line contributes no words, wherever it occurs |
| Classify.HeaderThenCaption | index.js:49-54 | a line-path item whose text is a header line, `\n` and a caption counts exactly the caption line's words |
| Classify.MetadataLineIsHeader | index.js:51 | `HTTP METADATA LINE` is a header line |
| Classify.CaptionLineIsPlain | index.js:51 | `Actual caption text` is not a header line and has no brackets or surrounding whitespace |
| Classify.VideoExample | index.js:49-54 | a `video` item with text `HTTP METADATA LINE\nActual caption text` counts exactly `actual`, `caption`, `text` |
| Sorting.Insert | index.js:97 | inserting into a sequence adds exactly the one element |
| Sorting.SortBy | index.js:97 | sorting returns a permutation of its input |
| Sorting.SortBySorted | index.js:97 | with a consistent comparator, every pair of positions in the result is in comparator order |
| Sorting.SortedUnique | index.js:97 | with a consistent comparator that ties only equal values, two sorted permutations of the same elements are equal |
| Sorting.SortByStable | index.js:126-139 | elements the comparator ties keep their input order, as `sort` guarantees |
| Reports.StringLess | index.js:104-107 | a proper prefix is less than the longer string, and no string is less than one of its own prefixes |
| Reports.StringLessIrreflexive | index.js:104 | no string is less than itself under JavaScript `<` |
| Reports.StringLessAsymmetric | index.js:104-107 | `a < b` and `b < a` never both hold |
| Reports.StringLessConnected | index.js:104-107 | of two different strings, one is less than the other |
| Reports.StringLessTransitive | index.js:104-107 | `<` on strings is transitive |
| Reports.CompareByFrequency | index.js:97-110 | the comparator returns -1, 0 or 1, returns 0 only for equal entries, and puts an entry first only when its count is at least the other's |
| Reports.CompareStrings | index.js:118 | the default comparison returns -1, 0 or 1, and 0 only for equal strings |
| Reports.CompareByLength | index.js:126-139 | the comparator returns -1, 0 or 1; it returns 0 exactly for equal lengths with the same first character (or two empty strings), and puts a word first only when it is at least as long |
| Reports.FrequencyConsistent | index.js:97-110 | the frequency comparator is a consistent comparator that ties only equal entries |
| Reports.StringsConsistent | index.js:118 | the default string comparison is consistent and ties only equal strings |
| Reports.LengthConsistent | index.js:126-139 | the length comparator is consistent |
| Reports.FrequencyOrderMeaning | index.js:97-110 | a sequence sorted by the frequency comparator has descending counts, and ascending keys among equal counts |
| Reports.RankByFrequency | index.js:147-160 | `freqWords` (and `freqItems`) is a permutation of the entries by descending count, equal counts by ascending key |
| Reports.Alphabetical | index.js:118 | `sortedWords` is a permutation of the keys in ascending order |
| Reports.RankByLength | index.js:126-139 | `lenWords` is a permutation of the keys by descending length, equal lengths by ascending first character |
| Reports.RankByLengthStable | index.js:132-138 | words of equal length and equal first character keep the counter's insertion order |
| Reports.LengthTieExample | index.js:132-138 | `"ab"` stays ahead of `"aa"`: the length tie-break is not alphabetical |
| Reports.RankByFrequencyUnique | index.js:97-110 | the frequency ranking depends only on the entries, not on the order the map lists them in |
| Reports.AlphabeticalUnique | index.js:118 | the alphabetical list depends only on the keys, not on their insertion order |
| Reports.RankOfRanked | index.js:147-160 | entries already in frequency order are left as they are |
| Reports.FrequencyExample | index.js:147-160 | counts `{"b": 2, "a": 2, "c": 1}` rank as `a`, `b`, `c` |
| Reports.RankedTable | index.js:147-163 | the ranking of a counter lists every key once with its count, by descending count and strictly ascending key on equal counts |
| Reports.EntryMultiplicity | index.js:97 | entries with distinct keys contain each entry at most once |
| Reports.NatToString | index.js:112 | a count is written as a non-empty run of decimal digits |
| Reports.NatToStringRoundTrip | index.js:112 | reading the decimal digits back gives the count |
| Reports.CountLine | index.js:112 | a count line is decimal digits, a tab and then the key |
| Reports.LengthLine | index.js:141 | a length line is decimal digits, a tab and then the word |
| Reports.CountLineRoundTrip | index.js:112 | a `count<TAB>key` line reads back as the entry it was written from |
| Reports.LengthLineRoundTrip | index.js:141 | a `length<TAB>word` line reads back as the word and its length |
| Reports.FindAfterDigits | index.js:112 | the first tab of a report line is the one after the count |
| Reports.FileText | index.js:119-121 | a file is empty exactly when it has no lines, and otherwise ends with `\n` |
| Reports.FrequencyReport | index.js:146-164 | `frequency.txt` (and `items.txt`) is empty exactly when the counter is |
| Reports.WordsReport | index.js:117-122 | `words.txt` is empty exactly when the counter is |
| Reports.LengthReport | index.js:125-143 | `length.txt` is empty exactly when the counter is |
| Reports.FileTextLines | index.js:119-121 | a file written one line plus `\n` at a time splits back into its lines, with an empty piece after the final newline |
| Reports.CountLineNoBreak | index.js:112 | a count line holds a line break only if its key does |
| Reports.FrequencyReportLines | index.js:146-164 | when no key holds a line break, `frequency.txt` (and `items.txt`) splits back into the count lines of the frequency ranking, then an empty piece |
| Reports.WordsReportLines | index.js:117-122 | when no key holds a line break, `words.txt` splits back into the keys in alphabetical order, then an empty piece |
| Reports.LengthReportLines | index.js:125-143 | when no key holds a line break, `length.txt` splits back into the length lines of the length ranking, then an empty piece |
| Reports.WriteReports | index.js:92-164 | the texts of `items.txt`, `words.txt`, `length.txt` and `frequency.txt` are the four report functions of the two counters |

## Left out

- Directory listing, file reading, `JSON.parse`, the per-page `try`/`catch` and its log line (index.js:66-91) are I/O. A story is given to `ExtractStoryText` as a value, and a page that fails to parse is not modelled.
- The promise barrier that starts reporting after the last file (index.js:68-92) is concurrency. Each call of `ExtractStoryText` is one page, and pages are processed in sequence, so the order in which reads complete is not modelled.
- The write streams and `console.log` calls (index.js:8, 93-94, 96-164) are output. `WriteReports` returns the texts of the files instead, and the two `size` lines are `Counter.Size`.
- Items are records with an optional string `type` and an optional string `text`. A non-string `type` or `text`, and a `text` property inherited rather than own, are not modelled.
- A `null` key passed to `count` would throw in JavaScript. Keys here are always strings.
- Chars.IsPunct: holds for every code point of Unicode category P in the Basic Latin, Latin-1 Supplement, General Punctuation and CJK Symbols and Punctuation blocks, and for none outside them (the fullwidth forms from U+FF01 or the Arabic comma, for example), because the full property table is Unicode data the model does not carry.
- Chars.LowerChar: lower-cases ASCII and Latin-1 capitals only, not the full Unicode case mapping (and not multi-character mappings), for the same reason.
- Text.TagEnd: takes the first path the regular expression engine tries and does not backtrack. It can therefore miss a match that only backtracking finds, such as `<a "x"'y'>` where the quote run after a quoted string has to be given back. Its soundness against the tag language is proved; completeness is not claimed.
- Strings are sequences of code points. JavaScript's `length`, `at(0)` and `<` work on UTF-16 code units, so characters outside the Basic Multilingual Plane are measured and ordered differently.
- Counts are unbounded natural numbers. JavaScript numbers are doubles, exact only up to 2^53.
- Reports.RankByLength: does not fix the order within a tie as one function of the keys. That order is stated instead by `Reports.RankByLengthStable`, relative to the keys' insertion order.
