# Word count by map/reduce, modelled in Dafny

`mapreduce_wordcount.py` fetches a text, tokenizes it, cuts the tokens into one
slice per CPU, counts each slice in a process pool, merges the partial counts
and draws a bar chart of the most common words. This project models the
sequential core of that pipeline and proves what each stage promises:

- **Tokenizer** (`Tokenizer`, module in `tokenizer.dfy`): `preprocess` is
  `LowerAll` (ASCII lowercasing), `Collapse` (the `re.sub` that turns every
  maximal run outside `[a-z0-9]` into one space) and `Split` (`str.split()`),
  all as functions. The tokens are proved equal to a reference splitter on
  runs outside `[a-z0-9]`, and that splitter is pinned down by two lemmas: a
  non-empty text of letters and digits is one token, and a character that is
  not a letter or digit cuts the text into two parts whose tokens are listed
  one after the other (with "the empty text gives no tokens", this fixes
  `preprocess` on every text, so a word is never split in two). Each token is
  non-empty and made of `[a-z0-9]` only; joined they are the text's word
  characters; the list is empty exactly when the text has no ASCII letter or
  digit.
- **Partitioner** (`Partitioner`): `size = len(words) // W + 1` and the list
  comprehension of `W` slices, with Python's clamping slice bounds. There are
  exactly `W` slices, they join back to `words`, none is longer than `size`,
  every slice that ends inside `words` is full, and a slice is empty exactly
  when it starts at or past the end. The chunk size is the code's
  `len // W + 1`, not the rounded-up quotient `ceil(len / W)` a balanced
  split would use; the two differ when `W` divides `len` (4 words on 2 workers
  give slices of 3 and 1). The model follows the code.
- **Map stage** (`Counting.Count`): `Counter(slice)` as a map from token to
  count; a word is a key exactly when it occurs, and its value is its number
  of occurrences (the multiset count).
- **Reduce stage** (`Counting.ReduceCounters`): a method whose loop merges
  each partial table into a running total with `Merge`, the model of
  `Counter.update`. Its loop invariant is the left fold `Total` of the tables
  processed so far; the result holds, for every word, the sum of its counts
  over all tables, and its keys are the words of any table. Merging in any
  order gives the same total.
- **Ranker** (`Ranker.MostCommon`): `most_common(n)` as a selection loop. The
  result has `min(n, distinct words)` pairs (none for `n <= 0`), each a word
  with its total count, no word twice, counts non-increasing, and no word
  left out counts more than one taken. Any two such answers agree on the
  count in every position.
- **Driver** (`Pipeline`): `WordCountAsWritten` follows `main` from the
  fetched text on; `WordCount` is the corrected driver (see Findings). The
  pipeline stops with `NoWordsFound` (the "No words found." exit) before any
  slicing exactly when the token list is empty, and the ranking it hands to
  the chart is a `most_common` answer for the single-pass count of all
  tokens, whatever the worker count: the central property
  `WorkerCountInvariance` says `reduce(map(count, slices(words, W)))` equals
  `count(words)` for every `W >= 1`.

Files: `seqs.dfy` (shared helpers), `tokenizer.dfy`, `partitioner.dfy`,
`counting.dfy`, `ranker.dfy`, `pipeline.dfy`. Every `.dfy` file is verified
together; no file includes another.

## Model

| member | source | states |
|---|---|---|
| Tokenizer.Lower | mapreduce_wordcount.py:21 | a lowered character is in `[a-z0-9]` exactly when the original is an ASCII letter or digit; upper-case letters move to their lower-case partner, every other character is unchanged |
| Tokenizer.LowerAll | mapreduce_wordcount.py:21 | `text.lower()` keeps the length and lowers every character in place |
| Tokenizer.CollapseFrom | mapreduce_wordcount.py:22 | the `re.sub` scan emits only `[a-z0-9]` and spaces, never two non-word characters in a row, no space right after a replaced run, keeps the word characters in order, and leaves a text of word characters only unchanged |
| Tokenizer.Collapse | mapreduce_wordcount.py:22 | `re.sub(r'[^a-z0-9]+', ' ', s)` holds only `[a-z0-9]` and single spaces, keeps the word characters of `s` in order, and is empty exactly when `s` is |
| Tokenizer.Split | mapreduce_wordcount.py:23 | `str.split()` gives non-empty fields without whitespace that, joined, are the text's non-whitespace characters in order |
| Tokenizer.Preprocess | mapreduce_wordcount.py:20-23 | `preprocess(text)` equals the reference splitter on runs outside `[a-z0-9]` of the lowered text, and every token is non-empty and made of `a-z` and `0-9` only |
| Tokenizer.CollapseThenSplit | mapreduce_wordcount.py:22-23 | splitting the collapsed text on whitespace gives the same list as splitting the original on runs outside `[a-z0-9]` |
| Tokenizer.RunsShape | mapreduce_wordcount.py:23 | every field of a split is non-empty and free of separators |
| Tokenizer.RunsFlatten | mapreduce_wordcount.py:23 | the fields of a split, joined, are the text's non-separator characters in order |
| Tokenizer.RunsWhole | mapreduce_wordcount.py:23 | a text without separators closes, after the pending run, as a single field |
| Tokenizer.RunsCut | mapreduce_wordcount.py:23 | a separator ends the pending field: the fields of `a + [c] + b` are those of `a` followed by those of `b` |
| Tokenizer.PreprocessWord | mapreduce_wordcount.py:20-23 | a non-empty text of ASCII letters and digits only is exactly one token, the text lowercased (its run is maximal, never split) |
| Tokenizer.PreprocessCut | mapreduce_wordcount.py:20-23 | a character that is not an ASCII letter or digit separates tokens: the tokens of `a + [c] + b` are those of `a` followed by those of `b` |
| Tokenizer.TokensKeepWordChars | mapreduce_wordcount.py:20-23 | the tokens joined are exactly the `[a-z0-9]` characters of the lowered text: none lost, none added, order kept |
| Tokenizer.NoTokensIffNoAlnum | mapreduce_wordcount.py:20-23 | the token list is empty if and only if the text has no ASCII letter or digit (so empty text gives no tokens) |
| Partitioner.ChunkSize | mapreduce_wordcount.py:65 | `len(words) // W + 1` is at least 1 and `W` slices of that size reach past the end of `words` |
| Partitioner.PySlice | mapreduce_wordcount.py:66 | `s[lo:hi]` has length `min(hi, len) - min(lo, len)`, or 0, and never more than `hi - lo` |
| Partitioner.Partition | mapreduce_wordcount.py:64-66 | the comprehension builds exactly `W` slices |
| Partitioner.PrefixFlatten | mapreduce_wordcount.py:66 | the first `k` slices joined are the first `min(k * size, len)` words |
| Partitioner.PartitionFlatten | mapreduce_wordcount.py:64-66 | the `W` slices joined in order are `words`: no loss, duplication or reordering |
| Partitioner.PartitionShape | mapreduce_wordcount.py:65-66 | each slice has at most `size` words; a slice ending inside `words` has exactly `size`; a slice is empty exactly when it starts at or past the end |
| Counting.Increment | mapreduce_wordcount.py:26 | one counting step adds 1 to one word's count, adds that word as a key, and changes no other count |
| Counting.Count | mapreduce_wordcount.py:25-26 | `map_worker(s)` has as keys exactly the words of `s`, each mapped to its number of occurrences in `s` (an empty slice gives an empty table) |
| Counting.Merge | mapreduce_wordcount.py:31 | `total.update(c)` keeps every key of either table and adds the counts word by word, a missing word counting 0 |
| Counting.MapStage | mapreduce_wordcount.py:68-69 | `pool.map(map_worker, slices)` gives one table per slice, in slice order |
| Counting.TotalIsPointwiseSum | mapreduce_wordcount.py:28-32 | the merged total holds, for every word, the sum of its counts over all tables; a word is a key exactly when some table has it |
| Counting.ReduceCounters | mapreduce_wordcount.py:28-32 | the loop yields the left fold of `update` over the tables, i.e. the word-by-word sum with the union of keys; no tables give the empty table |
| Counting.SumAtConcat | mapreduce_wordcount.py:29-31 | a word's summed count over two lists of tables is the sum of its counts over each |
| Counting.SumAtPermutation | mapreduce_wordcount.py:29-31 | a word's summed count does not depend on the order of the tables |
| Counting.ReduceOrderIndependent | mapreduce_wordcount.py:29-31 | reducing the same tables in any order gives the same total |
| Counting.MergeCounts | mapreduce_wordcount.py:25-31 | updating the count of one word list with the count of another gives the count of their concatenation |
| Counting.ReduceOfCounts | mapreduce_wordcount.py:69-71 | reducing the partial counts of a list of slices gives the count of the slices joined |
| Ranker.MaxKey | mapreduce_wordcount.py:35 | a non-empty table has a word whose count no other word exceeds |
| Ranker.Extend | mapreduce_wordcount.py:35 | appending a word not yet listed, with its count, whose count no listed entry is below, keeps the list ranked |
| Ranker.SelectOne | mapreduce_wordcount.py:35 | taking a largest remaining word keeps the selection invariant: entries exact, distinct, non-increasing, above everything not yet taken |
| Ranker.SelectDone | mapreduce_wordcount.py:35 | when `n` pairs are taken or no word remains, the selection is a `most_common(n)` answer |
| Ranker.MostCommon | mapreduce_wordcount.py:35 | `most_common(n)` returns `min(n, distinct words)` pairs (none for `n <= 0`), each `(w, total[w])`, no word twice, counts non-increasing, and no word left out has a larger count than any one returned |
| Ranker.OutsidePrefixBound | mapreduce_wordcount.py:35 | in a `most_common` answer, a word outside the first `i` entries does not count more than the `i`-th entry |
| Ranker.CountAtMost | mapreduce_wordcount.py:35 | the `i`-th count of one `most_common` answer is at most the `i`-th count of any other |
| Ranker.MostCommonCountsAgree | mapreduce_wordcount.py:35 | any two `most_common(n)` answers on one table have the same length and the same count at every position; only the order among equal counts is open |
| Pipeline.WorkerCountInvariance | mapreduce_wordcount.py:64-71 | slicing over `W` workers, counting each slice and reducing gives the single-pass count of all words, for every `W >= 1` |
| Pipeline.SameTotalForAnyWorkers | mapreduce_wordcount.py:64-71 | two runs with different worker counts merge to the same table |
| Pipeline.CountNonEmpty | mapreduce_wordcount.py:59-61 | a non-empty token list has at least one distinct word |
| Pipeline.CountAndRank | mapreduce_wordcount.py:64-72 | slicing, the pool map, the reduce and `most_common(top)` yield a `most_common` answer for the single-pass count of the tokens |
| Pipeline.WordCountAsWritten | mapreduce_wordcount.py:58-72 | `main` after the fetch: stops with "No words found." exactly when the token list is empty; fails at the chart's unpack exactly when there are tokens and `top <= 0`; otherwise shows a `most_common(top)` answer of the single-pass count |
| Pipeline.TopZeroFails | mapreduce_wordcount.py:36 | the text `"a"` with `--top 0` reaches the failing `zip(*most_common)` unpack |
| Pipeline.WordCount | mapreduce_wordcount.py:53-72 | the corrected driver refuses `top < 1`, stops before slicing exactly when the text has no ASCII letter or digit, never reaches the failing unpack, and shows between 1 and `top` pairs forming a `most_common(top)` answer of the single-pass count |

## Left out

- `fetch_text` (lines 15-18): an HTTP request with a timeout; the model starts from the fetched text.
- Argument parsing and the `__main__` wiring (lines 45-57, 74-75): the URL is not modelled; `top` and the worker count are parameters.
- `mp.cpu_count()` and `mp.Pool` (lines 64, 68-69): the worker count is a parameter `W >= 1`, and the pool's order-preserving map is a sequential map over the slices; process start-up, worker failure and cancellation are not modelled.
- The plotting in `visualize_top_words` (lines 37-43): matplotlib rendering. Only the unpack at line 36, which can fail, is modelled, as the `UnpackFailed` outcome.
- The "No words found." message (line 60) is output; the model returns the `NoWordsFound` outcome instead.
- Tokenizer.Lower: lowercases ASCII letters only; `str.lower()` also maps some non-ASCII characters onto ASCII letters (U+0130 becomes `i` and a combining dot, U+212A KELVIN SIGN becomes `k`), which the model does not capture.
- Tokenizer.Split: treats only ASCII whitespace as separators, where `str.split()` also splits on Unicode spaces; after the collapse step the text holds only `[a-z0-9]` and plain spaces, so this never changes `preprocess`.
- Ranker.MostCommon: leaves the order among equal counts open, where `Counter.most_common` lists them in first-insertion order; the length, the entries, their counts and the count order are fully stated.

## Findings

| source | as written | input that shows it | evidently intended | confidence | as-written member | corrected member |
|---|---|---|---|---|---|---|
| mapreduce_wordcount.py:36 | `words, freqs = zip(*most_common)` runs for every `--top`; `main` guards only against an empty token list | any text with a letter or digit and `--top 0` (or a negative value): `most_common` returns `[]`, `zip(*[])` yields nothing and the unpack into two names raises `ValueError` | `--top` is a positive count; a value below 1 is refused before any counting, and the chart always gets at least one pair | not executed | Pipeline.WordCountAsWritten (example: Pipeline.TopZeroFails) | Pipeline.WordCount |
