# Hot-word miner

The project models the hot-word miner `caculate_hotwords` of `hotwords.py`. The miner finds
recurring phrases in Chinese text in five stages:

1. **Scope index.** It reads the text one code point at a time. For every qualifying
   character (non-ASCII and not in the exclusion tuple) it records the *scope*, the next
   `depth` characters. It peeks at them and then seeks back.
2. **Frequent characters.** Only characters seen more than twice go on. They are ordered by
   descending count (`char_rank_sort`).
3. **Suffix search.** `iterate_search` starts from a character as its prefix and looks at
   the first character of each scope. A scope that is empty, or whose first character does
   not qualify, emits the prefix, but only when the prefix is at least two characters long.
   The other scopes are grouped by their first character, with that character dropped. A
   group with a single member emits the prefix when the prefix is longer than one
   character. Every other group is searched again with the group's character appended to
   the prefix. At the top level the prefix is one character, so nothing is emitted
   there directly, and every group is searched again. Every emitted word is counted across
   all searches. Words emitted only once are dropped.
4. **Redundancy stripping.** `strip_redundants` tags each candidate with its last two
   characters reversed. It sorts by (tag ascending, frequency descending, length descending)
   and walks the list. It drops a word when one of the first `min(depth, len(result))` kept
   words ends with it.
5. **Ranking and output.** `hotword_rank_sort` orders ascending by (frequency, length,
   text). The loop prints the last `MAX_RESULT_NUM` entries, or all of them when that
   number is not positive.

## How the model is built

Each stage has a pure specification function. The source's loops are methods proved equal
to those functions, and the properties are lemmas about the functions:

| stage | module |
|---|---|
| text buffer | `StringIO` |
| characters and the candidate record | `Text` |
| generic sequence facts | `Seqs` |
| 1 and 2 | `ScopeIndex` |
| 3, the search | `SuffixSearch` |
| 3, counting | `Aggregate` |
| 4 | `Redundancy` |
| 5 | `Rank` |
| the whole pipeline | `Hotwords` |

Python dictionaries keep insertion order. A dictionary the source iterates over is therefore
a `map` plus a sequence of its keys in first-insertion order. The continuation map of
`iterate_search` is a sequence of `Group` values with distinct characters.

The global knobs `HOTWORD_SEARCH_DEPTH` and `MAX_RESULT_NUM` are parameters (`depth`,
`limit`). Printing is modelled as the returned list of `(word, frequency)` entries, in
printing order.

The main results:

- `Hotwords.CalculateHotwords` prints exactly `HotwordsIn(text, start, depth, limit)`.
  This pure function composes the stage functions on the text: the character map
  `IndexOf`, the frequent characters, their searches (`Emissions`), the candidates
  (`CandidatesIn`), `Strip`, `Ranked` and `Top`. The method's list of emitted words is
  `Emissions` of the text, and its kept list is `Strip` of the text's candidates.
- `Hotwords.HotwordsInSound` proves what that output is. Every printed word is a piece of
  the text of length at least two, made of qualifying characters, whose first character
  occurs there more than twice. It is emitted at least twice and printed with its emission
  count. Kept words are the candidates that no kept word *dominates*; a word dominates
  another when it is different, ends with it and is at least as frequent. The printed list
  is in ranking order, has no repeats, holds at most `limit` entries and outranks every
  kept word left out.
- `Hotwords.PrintedDeterminedByEmissions` proves that the output depends only on how often
  each word is emitted, so the order in which the characters are searched does not change
  what is printed (`Aggregate.EmittedPermutation`: any order of the characters emits the
  same words as a multiset). `Hotwords.TieOrderIrrelevant` proves the same for the tag sort
  of `strip_redundants`: walking any sorted arrangement of the tagged candidates, whatever
  order it gives tied entries, prints exactly `HotwordsIn` of the text.

## Model

| member | source | states |
|---|---|---|
| `StringIO.Span` | hotwords.py:20-25 | `read(n)` at a position gives the next `n` characters, or everything left when `n` is negative or fewer remain; at or past the end it gives nothing |
| `StringIO.StringBuffer.constructor` | hotwords.py:147 | a new in-memory stream holds the text and starts at position 0 |
| `StringIO.StringBuffer.Read` | hotwords.py:20-25 | returns the span at the position and advances the position by its length |
| `StringIO.StringBuffer.Tell` | hotwords.py:24 | returns the current position without changing it |
| `StringIO.StringBuffer.Seek` | hotwords.py:26 | sets the position |
| `Text.Excludes` | hotwords.py:5 | the exclusion tuple: the CJK punctuation marks and brackets, the square brackets, the degree sign, and the characters 的 and 个 |
| `Text.Qualifies` | hotwords.py:22 | a character may be part of a hot word exactly when its code point is above 0x7F and it is not in `Excludes`; the search applies the same test at line 104 |
| `Text.EndsWith` | hotwords.py:88 | Python's `u.endswith(w)`: `w` is a suffix of `u`, the empty word included |
| `Text.LexLess` | hotwords.py:60 | Python's `<` on strings: by code point, a proper prefix first. The ranking's last tie-break uses it, and so does the tag comparison at line 76 |
| `Text.Tag` | hotwords.py:74 | `w[-1:-3:-1]` is the last character followed by the one before it, or the whole word when it has fewer than two characters |
| `Text.EndsWithSameTag` | hotwords.py:74-88 | a word of length at least two that ends another word has the same tag, so suffixes meet only inside one tag run |
| `Text.LexLessStrictTotalOrder` | hotwords.py:60 | Python's string comparison is irreflexive, asymmetric, transitive and total |
| `Seqs.Dedup` | hotwords.py:23-50 | dictionary keys in first-insertion order hold each element seen exactly once |
| `Seqs.DedupSnoc` | hotwords.py:23-46 | a new key is appended to the key order and a repeated one leaves it alone |
| `Seqs.SortBy` | hotwords.py:38-79 | `list.sort` with a total comparator gives a permutation of its input, sorted by the comparator |
| `Seqs.SortedAllPairs` | hotwords.py:61-79 | in a list sorted by a transitive order, every earlier entry is ordered before every later one |
| `ScopeIndex.QualifyingIn` | hotwords.py:19-22 | the characters read from `t[lo..hi]` that pass the test at line 22, in text order, one per occurrence |
| `ScopeIndex.ScopesOf` | hotwords.py:24-28 | the scopes recorded for `c` while reading `t[lo..hi]`: one `Scope` per occurrence of `c`, in text order |
| `ScopeIndex.IndexedUpTo` | hotwords.py:17-29 | the loop's state after reading `t[lo..hi]`: the keys are the characters of `order`, and `order` is the qualifying characters read, first-seen first. Each entry holds `ScopesOf` its character, and its counter is their number |
| `ScopeIndex.ByCount` | hotwords.py:36-37 | `char_rank_sort` as a sort order: `a` may come before `b` when its counter is at least `b`'s |
| `ScopeIndex.Scope` | hotwords.py:24-26 | the scope of position `i` is the text right after `i`, `depth` long unless the text ends first |
| `ScopeIndex.ScopesOfCount` | hotwords.py:27-29 | a character's scope list has one entry per occurrence in the text read |
| `ScopeIndex.ScopesOfSound` | hotwords.py:24-28 | every recorded scope is the scope of an occurrence of its character |
| `ScopeIndex.QualifyingInMembers` | hotwords.py:22 | the characters recorded are exactly the qualifying characters read |
| `ScopeIndex.IndexSkip` | hotwords.py:22 | a non-qualifying character leaves the character map as it was |
| `ScopeIndex.RecordOrder` | hotwords.py:23 | a qualifying character seen for the first time becomes a key at the end of the first-seen order, and the keys stay exactly the characters of the order |
| `ScopeIndex.EnterThenUpdate` | hotwords.py:23-29 | entering a missing character with an empty entry and then updating the entry is a single update of the map |
| `ScopeIndex.IndexRecord` | hotwords.py:23-29 | a qualifying character adds its key in first-seen order, appends one scope and increments its counter |
| `ScopeIndex.IndexChar` | hotwords.py:22-29 | one character just read: a non-qualifying one leaves the map and order unchanged; a qualifying one gets its key (appended to the order when new), the scope that follows it and one more count; the position is where it was, and the map describes the text one character further |
| `ScopeIndex.IndexFinal` | hotwords.py:17-29 | the finished character map has the qualifying characters read as keys, in first-seen order, each with the scopes of its occurrences and their number, and it is `IndexOf` of the text |
| `ScopeIndex.IndexComplete` | hotwords.py:17-29 | after the whole text, the keys are the qualifying characters read and each counter is that character's number of occurrences |
| `ScopeIndex.IndexOf` | hotwords.py:17-29 | the character map of a text has exactly the qualifying characters of the text as keys |
| `ScopeIndex.IndexOfEntry` | hotwords.py:23-29 | each entry of that map holds the scopes of its character's occurrences, and its counter is the number of occurrences |
| `ScopeIndex.BuildScopeIndex` | hotwords.py:17-29 | reads to the end of the buffer and returns `IndexOf` of the text read: every qualifying character, in first-seen order, with one scope per occurrence and its count |
| `ScopeIndex.Frequent` | hotwords.py:31-35 | the characters kept are exactly those with a counter above two; the result is a subsequence of the map order, and holds no character twice when the map order does not |
| `ScopeIndex.FrequentChars` | hotwords.py:31-35 | the filter loop computes `Frequent` |
| `ScopeIndex.ByCountIsOrder` | hotwords.py:36-37 | `char_rank_sort` induces a total preorder, so the sort is well defined |
| `ScopeIndex.ByFrequency` | hotwords.py:36-38 | the sorted character list holds the same characters with their multiplicities, and the counters never rise along it |
| `SuffixSearch.Continues` | hotwords.py:100-104 | a scope goes into the continuation map exactly when it is not empty and its first character qualifies |
| `SuffixSearch.Stopped` | hotwords.py:99-106 | the number of scopes that stop the search here: the empty ones, and those whose first character does not qualify |
| `SuffixSearch.AddRest` | hotwords.py:107-109 | files a scope's remainder `scope[1:]` under its first character: it is appended to that character's group, or starts a new group at the end of the map |
| `SuffixSearch.Partition` | hotwords.py:98-109 | the continuation map after the first loop: the remainders of the scopes that go on, grouped by their first character, groups in first-seen order |
| `SuffixSearch.Repeat` | hotwords.py:101 | `n` copies of a word; the prefix is emitted once for each scope that stops, at line 101 or line 105 |
| `SuffixSearch.Expand` | hotwords.py:110-115 | the second loop over the first `n` groups, in map order. A one-member group gives the prefix when the prefix is longer than one character; any other group gives the search one character deeper |
| `SuffixSearch.Search` | hotwords.py:95-116 | `iterate_search`: the prefix once per stopping scope when it has at least two characters, followed by `Expand` over the whole continuation map |
| `SuffixSearch.Find` | hotwords.py:107 | dictionary lookup: the group for a character, or proof that none exists |
| `SuffixSearch.PartitionSound` | hotwords.py:98-109 | every group of the continuation map is non-empty, its character qualifies, and each remainder is a scope minus that character |
| `SuffixSearch.GroupsShorter` | hotwords.py:109 | remainders are shorter than the longest scope, so the recursion terminates |
| `SuffixSearch.PartitionCount` | hotwords.py:98-109 | every scope either stops the search at this prefix or is filed in exactly one group |
| `SuffixSearch.ExtendsDeeper` | hotwords.py:109-115 | a word extending `hotword + char` by a remainder extends `hotword` by the full scope |
| `SuffixSearch.SearchShape` | hotwords.py:95-116 | every emitted word has at least two characters and is the prefix followed by the start of one of the scopes, all added characters qualifying |
| `SuffixSearch.ExpandShape` | hotwords.py:110-115 | the same for the words emitted by the second loop |
| `SuffixSearch.SearchLength` | hotwords.py:95-116 | the search emits at most one word per scope |
| `SuffixSearch.ExpandLength` | hotwords.py:110-115 | the second loop emits at most one word per remainder it visits |
| `SuffixSearch.IterateSearch` | hotwords.py:95-116 | the two loops and the recursion compute `Search`: emitted words are shaped and at most one per scope |
| `SuffixSearch.ExpandGroups` | hotwords.py:110-115 | the loop over the continuation map computes `Expand` |
| `Aggregate.Emitted` | hotwords.py:41-44 | the words of all searches, one search per frequent character in list order, each started from that character's scopes with the character as prefix, concatenated |
| `Aggregate.Tallied` | hotwords.py:45-47 | the word counter after the words `seen`: its keys in first-seen order, each count the number of occurrences |
| `Aggregate.EmittedShape` | hotwords.py:41-44 | every word emitted from the frequent characters starts with one of them, is at least two long, qualifies throughout and extends one of its first character's scopes |
| `Aggregate.EmittedJoined` | hotwords.py:41-44 | the emitted words are the per-character search results joined in character order |
| `Aggregate.EmittedPermutation` | hotwords.py:36-44 | searching the characters in any other order emits the same words the same number of times |
| `Aggregate.EnterThenIncrement` | hotwords.py:46-47 | entering a missing word with 0 and then adding one is a single update: the word's old count, or 0, plus one |
| `Aggregate.TallyStep` | hotwords.py:46-47 | one counted word keeps the counter equal to the occurrence counts, with keys in first-seen order |
| `Aggregate.TallyWords` | hotwords.py:45-47 | the inner loop adds one search result to the counter |
| `Aggregate.CountEmissions` | hotwords.py:40-47 | the counter's keys are the emitted words, in first-emitted order, each mapped to its number of emissions |
| `Aggregate.Recurring` | hotwords.py:50-53 | the candidate list holds exactly the counted words whose count is not one, with their counts |
| `Aggregate.RecurringDistinct` | hotwords.py:50-53 | no word is a candidate twice |
| `Aggregate.Candidates` | hotwords.py:48-53 | the loop building `word_list` computes `Recurring` |
| `Redundancy.TagOf` | hotwords.py:74 | the working-list entry of a candidate: its tag, its word and its frequency |
| `Redundancy.Precedes` | hotwords.py:75-78 | `reverse_rank_sort(a, b) < 0`: `a` has the smaller tag; or the tags are equal and `a` is more frequent; or both are equal and `a` is longer |
| `Redundancy.Before` | hotwords.py:79 | the order the sort leaves between neighbours: `b` does not precede `a` |
| `Redundancy.NextDepth` | hotwords.py:83-84 | the run counter after an entry: reset to 0 when its tag differs from the current one, then incremented |
| `Redundancy.Window` | hotwords.py:86 | the number of kept words compared with the entry: `min(depth, len(result))` |
| `Redundancy.Covered` | hotwords.py:86-90 | the entry is redundant: one of the first `window` kept words ends with its word |
| `Redundancy.Step` | hotwords.py:82-92 | one iteration of the walk: the run tag and counter are updated, and the entry is inserted at the front of the result unless it is covered |
| `Redundancy.Walk` | hotwords.py:80-92 | the state after the first `n` sorted entries, starting from an empty result, no tag and depth 0 |
| `Redundancy.Strip` | hotwords.py:71-93 | `strip_redundants`: the result of the walk over the tagged candidates sorted by `Before` |
| `Redundancy.Dominates` | hotwords.py:88 | `y` makes `x` redundant: it is a different word that ends with `x`'s word and is at least as frequent |
| `Redundancy.Tagging` | hotwords.py:72-74 | the working list pairs every candidate, in order, with its tag |
| `Redundancy.TagAll` | hotwords.py:72-74 | the first loop computes `Tagging` |
| `Redundancy.BeforeIsOrder` | hotwords.py:75-79 | `reverse_rank_sort` induces a total preorder (tag ascending, frequency descending, length descending) |
| `Redundancy.SortedGrouped` | hotwords.py:79-83 | after the sort, equal tags form contiguous runs |
| `Redundancy.SortedRunOrdered` | hotwords.py:75-79 | within a run, frequency never rises, and at equal frequency length never rises |
| `Redundancy.SortedTags` | hotwords.py:79 | the sorted working list is a permutation of the tagged candidates, sorted by the comparator |
| `Redundancy.WindowCovers` | hotwords.py:83-90 | the bounded window sees every kept word of the current tag, so it finds a kept word ending with the entry whenever one exists |
| `Redundancy.EarlierDominates` | hotwords.py:86-90 | a kept word that ends with the entry came earlier in the run, so it is at least as frequent |
| `Redundancy.StepInv` | hotwords.py:81-92 | one step preserves the walk invariant: kept words come from the input, are distinct, never form a redundant pair, every entry seen is kept or dominated, and the current run is at the front |
| `Redundancy.WalkInvariant` | hotwords.py:81-92 | the walk invariant holds after every prefix of the sorted list |
| `Redundancy.ScanWindow` | hotwords.py:86-90 | the inner loop reports whether one of the first `window` kept words ends with the word |
| `Redundancy.StripRedundants` | hotwords.py:71-93 | the method computes `Strip` |
| `Redundancy.SortedPrepared` | hotwords.py:72-79 | any sorted arrangement of the tagged candidates, whatever order it gives ties, has its equal tags in contiguous runs ordered by frequency and length, each entry the tag of a candidate, and no word twice |
| `Redundancy.SortedWalkSound` | hotwords.py:71-93 | the walk over any sorted arrangement of the tagged candidates keeps a subset of them with no word twice, keeps or dominates every candidate, leaves no redundant pair, and keeps a candidate exactly when no kept word dominates it |
| `Redundancy.StripSound` | hotwords.py:71-93 | for distinct candidates of length at least two, the result is a subset of the candidates with no word twice; every dropped candidate is dominated by a kept word; no kept word ends another kept word that is at least as frequent |
| `Redundancy.StripFixpoint` | hotwords.py:71-93 | a candidate is kept if and only if no kept word dominates it |
| `Redundancy.WalkKeepsFirst` | hotwords.py:80-92 | the first sorted entry is kept by the first step, whose window is empty, and stays kept because later steps only insert at the front |
| `Redundancy.StripKeepsFirst` | hotwords.py:71-93 | the first entry of the sorted working list is never stripped |
| `Redundancy.DominatesLonger` | hotwords.py:88 | a dominating word is strictly longer than the word it dominates |
| `Redundancy.FixpointUnique` | hotwords.py:71-93 | two kept lists that both satisfy the fixpoint over the same candidates hold the same entries |
| `Rank.RankLe` | hotwords.py:57-60 | `hotword_rank_sort`'s order: lower frequency first, then the shorter word, then the smaller word by `LexLess` |
| `Rank.PrintRange` | hotwords.py:66-68 | printing `s[lo]` to `s[hi - 1]` with Python indexing: the entries in order, or `None` once an index raises IndexError |
| `Rank.AsWrittenOutput` | hotwords.py:63-69 | the output loop as written: the indices from `length - output_limit` up to `length`, where `output_limit` is `MAX_RESULT_NUM` when positive and `length` otherwise |
| `Rank.RankCompare` | hotwords.py:57-60 | the comparator returns 1 or -1 only |
| `Rank.RankLeMatchesCompare` | hotwords.py:57-60 | on different words the comparator is antisymmetric, and it puts `a` first exactly when `a` is below `b` in (frequency, length, text) |
| `Rank.RankLeTransitive` | hotwords.py:57-60 | the ranking order is transitive |
| `Rank.RankLeIsOrder` | hotwords.py:57-61 | the ranking order is total and transitive |
| `Rank.RankLeAntisymmetric` | hotwords.py:57-60 | entries that each may precede the other are equal |
| `Rank.Ranked` | hotwords.py:61 | the ranking is a permutation of the kept words, sorted ascending |
| `Rank.SortedPairLe` | hotwords.py:61 | in the ranking every entry is at or below every later one |
| `Rank.RankedUnique` | hotwords.py:61 | two sorted arrangements of the same entries are equal, so the ranking is unique |
| `Rank.PyIndex` | hotwords.py:67 | Python indexing: a negative index counts from the end, anything else outside the list raises IndexError |
| `Rank.PrintRangeFails` | hotwords.py:66-68 | one out-of-range index makes the loop raise |
| `Rank.PrintRangeSlice` | hotwords.py:66-68 | a range inside the list prints that slice |
| `Rank.PrintRangeWrapped` | hotwords.py:66-68 | a range of negative indices prints the slice counted from the end |
| `Rank.PrintRangeSplit` | hotwords.py:66-68 | a range printed in two parts prints them one after the other |
| `Rank.PrintAsWritten` | hotwords.py:63-69 | the output loop, including its `break` and the IndexError, produces `AsWrittenOutput` |
| `Rank.AsWrittenWithinLength` | hotwords.py:63-69 | with a limit of at most the number of entries, the loop prints the last `limit` entries, or all of them for a limit that is not positive |
| `Rank.AsWrittenWraps` | hotwords.py:63-69 | with `len < limit <= 2*len` the loop prints a wrapped-around tail followed by the whole list |
| `Rank.AsWrittenFails` | hotwords.py:63-69 | with `limit > 2*len`, an empty list included, the loop raises IndexError |
| `Rank.AsWrittenDuplicates` | hotwords.py:63-69 | three entries with a limit of five print five lines, two of them repeated |
| `Rank.Top` | hotwords.py:63-69 | the intended output is the last `min(limit, len)` entries, or all of them for a limit that is not positive |
| `Rank.TopOutranksRest` | hotwords.py:63-69 | the printed entries are in ranking order, never repeat a word, and rank at or above every entry left out |
| `Rank.AsWrittenAgreesWithTop` | hotwords.py:63-69 | wherever the loop as written is right, it prints exactly `Top` |
| `Rank.PrintTop` | hotwords.py:63-69 | the corrected output loop prints `Top` |
| `Hotwords.Emissions` | hotwords.py:17-47 | the words emitted on `t[lo..]`: the searches from the frequent characters of `IndexOf` the text, sorted by `ByFrequency` and taken in that order |
| `Hotwords.Tally` | hotwords.py:45-47 | the counter after counting a word list: its keys are the list's words, each mapped to its number of occurrences |
| `Hotwords.CandidatesIn` | hotwords.py:48-53 | the candidates of `t[lo..]`: the counted words with their counts, first-emitted first, dropping those emitted once |
| `Hotwords.HotwordsIn` | hotwords.py:17-69 | what the miner prints for `t[lo..]`: `Top` of the ranking of `Strip` of its candidates |
| `Hotwords.Start` | hotwords.py:20 | reading starts at the buffer's position, clamped to the text |
| `Hotwords.ScopePiece` | hotwords.py:24-28 | a character followed by the start of its scope is a piece of the text at that position |
| `Hotwords.ScopeWordInText` | hotwords.py:24-28 | a word that extends a character by the start of one of its scopes occurs in the text |
| `Hotwords.PermutedDistinctWords` | hotwords.py:61 | sorting keeps the words distinct |
| `Hotwords.EmittedFound` | hotwords.py:17-47 | every emitted word is at least two qualifying characters, occurs in the text read, and starts with a character occurring there more than twice |
| `Hotwords.CandidatesOfEmitted` | hotwords.py:40-53 | the candidates are exactly the words emitted at least twice, each with its number of emissions, none twice |
| `Hotwords.KeptOfEmitted` | hotwords.py:55 | the kept words are exactly the candidates no kept word dominates, distinct, with no redundant pair |
| `Hotwords.RankedMembers` | hotwords.py:61 | every entry of the ranking is a kept word |
| `Hotwords.RankedRest` | hotwords.py:61-69 | a kept word that is not printed lies below the printed part of the ranking |
| `Hotwords.PrintedOfKept` | hotwords.py:61-69 | the printed entries number at most `limit` for a positive limit, come in ranking order, are distinct kept words, and outrank every kept word not printed |
| `Hotwords.CandidateSet` | hotwords.py:48-53 | the candidates as a set: each word emitted at least twice with its emission count |
| `Hotwords.PrintedDeterminedByEmissions` | hotwords.py:36-61 | two runs whose emissions agree as multisets, and whose kept lists are the undominated candidates of those emissions, print the same entries |
| `Hotwords.TieOrderIrrelevant` | hotwords.py:72-93 | walking any sorted arrangement of a text's tagged candidates, whatever order it gives tied entries, and then ranking gives exactly `HotwordsIn` of the text |
| `Hotwords.CandidatesInEmitted` | hotwords.py:40-53 | the candidates of a text are exactly its words emitted at least twice, each with its emission count, none twice |
| `Hotwords.EmissionsFound` | hotwords.py:17-47 | every word the searches emit on a text is at least two qualifying characters, occurs in that text, and starts with a character occurring there more than twice |
| `Hotwords.HotwordsInSound` | hotwords.py:17-69 | the output for a text holds at most `limit` entries for a positive limit. It is in ranking order, with no repeats. Each entry is a kept word found in the text, emitted at least twice, with its emission count, and dominated by no kept word. Each entry outranks every kept word not printed. A candidate is kept exactly when no kept word dominates it, and no kept pair is redundant |
| `Hotwords.MineCandidates` | hotwords.py:17-53 | stages 1 to 3 read the buffer to its end. The emitted words are `Emissions` of the text read, and the list is `CandidatesIn` of it. Every emitted word is found in the text, and the list holds exactly the words emitted at least twice, with their counts, none twice |
| `Hotwords.CalculateHotwords` | hotwords.py:17-69 | the whole miner. The emitted words are `Emissions` of the text read, the kept list is `Strip` of its candidates, and the printed list is `HotwordsIn` of the text. Kept words are the undominated candidates, distinct, with no redundant pair. The printed list holds at most `limit` entries for a positive limit; it is sorted, distinct, drawn from the kept words and outranks the rest |

## Left out

- The command line, the web page fetch with `requests` and `pyquery`, and file reading (hotwords.py:118-155) are left out. They are I/O outside the miner. The text reaches the model as the buffer's contents.
- The timing logger `elapse_dubugger` and its calls are left out. They only print wall-clock times.
- `print` becomes the returned list of `(word, frequency)` entries, in printing order.
- `Seqs.SortBy`: Python's `list.sort` is stable, but the model's sort is only proved to return a sorted permutation. Stability is not proved. The ranking sort never has ties, so its output is unique (`Rank.RankedUnique`). Ties in the other two sorts can change the order, but not the printed output: `Aggregate.EmittedPermutation` and `Hotwords.PrintedDeterminedByEmissions` cover the character sort, and `Redundancy.SortedWalkSound` and `Hotwords.TieOrderIrrelevant` cover the tag sort.
- `Hotwords.CalculateHotwords` uses the corrected output loop `Rank.PrintTop`, not the loop as written. The as-written loop is modelled by `Rank.PrintAsWritten` (see Findings).
- `SuffixSearch.Search`, `SuffixSearch.IterateSearch`: Python's recursion limit is not modelled. `iterate_search` recurses once per shared character (hotwords.py:115), so a text with a long enough repeated run of qualifying characters raises RecursionError. A depth of about 1000 or more, or a negative depth, which reads the rest of the text, makes such a run possible. The model's search always returns.
- The search depth is not validated, as in the code. A depth of 0 gives empty scopes, and a negative depth reads the rest of the text, like `read(-1)`.
- The emptiness of the one-character string read in the main loop, and the `not char` test in `iterate_search`, are represented by the empty sequence. Python strings have no other falsy value.

Behaviour of the code worth noting:

- The tag is the last two characters of the word, reversed (hotwords.py:74).
- A depth of 0 or below is accepted. A negative depth reads the rest of the text (hotwords.py:25).
- Output is printed in ascending ranking order, so the most frequent word comes last (hotwords.py:57-69).
- A limit above the number of results wraps around, so entries print twice, or the loop raises IndexError (hotwords.py:63-69, see Findings).

## Findings

| source | as written | input that shows it | evidently intended | confidence | as-written member | corrected member |
|---|---|---|---|---|---|---|
| hotwords.py:63-69 | the offset `length - output_limit` goes negative when `MAX_RESULT_NUM` exceeds the number of results. Python's negative indexing then wraps around: entries print twice, or `word_list[n]` raises IndexError once `MAX_RESULT_NUM > 2*length` | three ranked words with `--max-num 5` print the list `[r1, r2, r0, r1, r2]`. Any positive `--max-num` on a text with no hot words raises IndexError | print the last `min(MAX_RESULT_NUM, length)` entries, each once | not executed | `Rank.PrintAsWritten`, with `Rank.AsWrittenWraps`, `Rank.AsWrittenFails` and `Rank.AsWrittenDuplicates` | `Rank.PrintTop`, with `Rank.Top`, `Rank.TopOutranksRest` and `Rank.AsWrittenAgreesWithTop` |
