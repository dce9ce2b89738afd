# Patent classification diversity: a verified model

This project models the per-row scoring step of a patent-diversity pipeline.
A row of a firm-year table holds up to eight category cells (A to H). Their
concatenated text is a series of `{...}` blocks, one per patent. Each block
holds `;`-separated IPC classification tokens such as `G06Q40/00(2012.01)I`.

The model covers two functions of `251102/temp.py`:

- `extract_patent_parts` turns one token into its main group (`G06Q40`) and
  its subclass (`G06Q`), or into nothing. It tries a fixed order of cases:
  1. a `/` inside the first parenthesised group;
  2. a `/` anywhere in the token;
  3. no `/` at all.
- `process_row` concatenates the present cells, finds every `{...}` block and
  parses each token of each block. It keeps the blocks that yield at least one
  code, and for each kept block it records:
  - method 1: `1 - Σ (t/p)²` over the main-group counts `t`, with `p` codes in the block;
  - method 2: N (distinct subclasses), n (distinct main groups) and `N + 1 - 1/n`.

  It also counts the main groups of the whole row (method 3).

## How the model is organised

| Module | File | Contents |
|---|---|---|
| `Text` | `text.dfy` | Python's `str.strip()` (with Python's whitespace set), "text before the first stop" (`s.split(c)[0]`, `re.split(r'[...]', s)[0]`), and `s.split(c)` with its inverse `join` |
| `Patterns` | `patterns.dfy` | The two regular expressions as plain string functions: `re.search(r'\((.*?)\)')` and `re.findall(r'\{(.*?)\}')`. Both are leftmost and lazy, and `.` does not match a newline, so a group whose closing character comes only after a `'\n'` is not matched. |
| `ClassCode` | `classcode.dfy` | `extract_patent_parts` as the functions `MainGroupOf` and `ExtractPatentParts`, with lemmas for each case, the case order and the documented examples |
| `Counting` | `counting.dfy` | `collections.Counter`: `Tally` is the count map; `Distinct` is its keys in first-occurrence order |
| `Diversity` | `diversity.dfy` | Methods 1 and 2 over exact rationals (`real`), with their bounds |
| `RowProcessing` | `rowprocessing.dfy` | `process_row` as imperative methods with loops (`ProcessRow`, `ScoreBlocks`, `ParseBlock`, `ConcentrationComplement`, `ConcatenateCells`), each proved equal to its functional counterpart (`ConcatenateCells` to `RowText`, `ParseBlock` to `BlockCodes`, `ConcentrationComplement` to `Method1Quality`, `ScoreBlocks` to `Metrics` of the kept blocks), and `ProcessRow` to `RowSpec` |
| `RowProperties` | `rowprocessing.dfy` | The row-level promises, stated over `RowSpec` |
| `RowExample` | `rowexample.dfy` | A worked row whose two blocks get method 1 values 4/9 and 1/2 |

A row is a `map<char, Option<string>>` keyed by category letter:

- a letter that is not a key is a column the table lacks;
- `None` is a missing (NaN) cell.

`extract_patent_parts` returns `None` for `(None, None)`. `process_row`'s
five new fields become the datatype `RowMetrics`, which holds the four lists
and the method 3 count map.

## Model

| member | source | states |
|---|---|---|
| Text.IsSpace | 251102/temp.py:19 | the whitespace that `strip()` removes includes space, tab, newline and carriage return, and excludes the digits, letters and `/(),;:{}.` that classification codes are written with |
| Text.TrimStart | 251102/temp.py:19 | the result is a suffix of the input, everything dropped is whitespace, and the result does not start with whitespace |
| Text.TrimEnd | 251102/temp.py:19 | the result is a prefix of the input, everything dropped is whitespace, and the result does not end with whitespace |
| Text.Strip | 251102/temp.py:19 | `strip()` is no longer than its input and leaves no whitespace at either end |
| Text.StripContents | 251102/temp.py:19-21 | `strip()` keeps only characters of the input, and is empty exactly when the input is all whitespace (the `if not s` test) |
| Text.StripUnchanged | 251102/temp.py:90-92 | a string with no whitespace at either end is its own `strip()` |
| Text.StripIdempotent | 251102/temp.py:90-92 | stripping twice is stripping once, so the second `strip()` inside `extract_patent_parts` changes nothing |
| Text.PrefixBefore | 251102/temp.py:31-43 | `split(c)[0]` / `re.split('[...]')[0]` is a prefix of the input that holds no stop character and ends just before the first stop, if there is one |
| Text.PrefixBeforeAt | 251102/temp.py:31-43 | the text before the first stop of `a + b` is `a` when `a` holds no stop and `b` starts with one |
| Text.Split | 251102/temp.py:86 | `split(';')` yields at least one piece and no piece contains the separator |
| Text.JoinSplit | 251102/temp.py:86 | joining the pieces of `split(';')` with `';'` gives back the block content, so splitting loses no text |
| Text.SplitJoin | 251102/temp.py:86 | splitting the join of separator-free pieces gives back the pieces |
| Patterns.CloseAt | 251102/temp.py:26 | a lazy group closes at the first closing character, which must not be preceded by a newline; otherwise every closing character comes after a newline |
| Patterns.FirstGroup | 251102/temp.py:26 | the content of the first `(...)` holds neither `)` nor a newline, consists of characters of the token, and is absent when the token has no `(` |
| Patterns.FirstGroupAt | 251102/temp.py:26 | with no `(` before it, the first group is the one that opens at the first `(` and closes at the next `)` |
| Patterns.CloseAtEnd | 251102/temp.py:26 | content free of the closing character and of newlines closes exactly at its end |
| Patterns.FindAll | 251102/temp.py:75 | no `{...}` block found contains `}` or a newline, and a text without `{` has no blocks |
| Patterns.NoCloseNoGroup | 251102/temp.py:26 | a text without a closing delimiter has no group, so an unclosed `(` (as in `G06Q40/00(2012`) matches nothing |
| Patterns.FirstGroupSkip | 251102/temp.py:26 | leading text without `(` holds no group: `re.search` finds the same match in the text after it |
| Patterns.FirstGroupUnclosed | 251102/temp.py:26 | a first `(` with no `)` after it matches nothing, even when a `)` comes before it |
| Patterns.NoCloseNoBlocks | 251102/temp.py:75 | a text without `}` has no blocks, whatever `{` it holds |
| Patterns.CloseAtNewline | 251102/temp.py:26 | a group opened before text free of the closing character cannot close past the newline after that text |
| Patterns.UnclosedLineSkipGroup | 251102/temp.py:26 | text free of `)` up to a newline opens no group: the search resumes after the newline |
| Patterns.UnclosedLineSkip | 251102/temp.py:75 | text free of `}` up to a newline adds no block, even when it holds `{` (a `{` whose `}` lies past a line break is not matched) |
| Patterns.FindAllSkip | 251102/temp.py:75 | text without `{` in front of the rest adds no block |
| Patterns.FindAllGroup | 251102/temp.py:75 | a complete block at the front is found whole, followed by the blocks of the rest |
| Patterns.FindAllEnclose | 251102/temp.py:75 | `findall` gives back exactly the contents of a text made of enclosed contents (a nested `{` stays part of its content) |
| ClassCode.SubClassOf | 251102/temp.py:49 | `main_group[:4]` is the prefix of the main group of length `min(4, len)` |
| ClassCode.ParenGroup | 251102/temp.py:26 | the first `(...)` group holds neither `)` nor a newline, is made of characters of the token, and is absent when the token has no `(` or no `)` |
| ClassCode.UnclosedParenthesis | 251102/temp.py:26-39 | a token whose first `(` has no `)` after it has no group, so it falls through to the cases of lines 35-39 |
| ClassCode.ExampleUnclosedParenthesis | 251102/temp.py:26 | `A)B(C/D`, with its only `)` before the `(`, has no group |
| ClassCode.MainGroupOf | 251102/temp.py:23-43 | whichever of the three cases applies, the main group holds no `/` and no `(`, has no whitespace at either end, and is made of characters of the token |
| ClassCode.ExtractPatentParts | 251102/temp.py:9-51 | a token that is empty after stripping yields `(None, None)`, and any code returned is well formed: a non-empty main group with its `[:4]` as subclass |
| ClassCode.CleanPiece | 251102/temp.py:31-43 | a piece cut at the first stop and stripped holds only characters of the text, none of them a stop, and has no whitespace at either end |
| ClassCode.BeforeSlash | 251102/temp.py:31-38 | the text before the first `/` holds no `/` |
| ClassCode.ExtractedShape | 251102/temp.py:19-51 | an empty or all-whitespace token yields `(None, None)`; on success the main group is non-empty and free of `/`, `(` and surrounding whitespace, and the subclass is its prefix of length `min(4, len)` |
| ClassCode.ExtractAfterStrip | 251102/temp.py:19 | the parser strips first, so parsing a stripped token is the same as parsing the raw token |
| ClassCode.SlashInParenthesesWins | 251102/temp.py:26-33 | case order: when the first group holds `/`, the main group comes from inside it (before `/`, cut at `,;:(`, stripped), whatever slashes stand outside |
| ClassCode.SlashOutsideParentheses | 251102/temp.py:35-39 | when the first group holds no `/` but the token does, the main group is the text before the first `/`, cut at `(`, stripped |
| ClassCode.SlashCase | 251102/temp.py:37-39 | the second case on a token that starts with a clean main group followed by `/` yields that main group |
| ClassCode.GroupAfterSlash | 251102/temp.py:26 | in `<main>/<suffix>(<group>)<tail>` the first group is `<group>` |
| ClassCode.SlashToken | 251102/temp.py:37-51 | `<main>/<suffix>` without parentheses yields `<main>` and its first four characters |
| ClassCode.NoSlashToken | 251102/temp.py:41-51 | a token without `/` yields the text before its first `(` |
| ClassCode.SlashInParenthesesToken | 251102/temp.py:26-51 | `<pre>(<main>/<rest>)<post>` yields `<main>` |
| ClassCode.SlashBeforeParenthesesToken | 251102/temp.py:35-51 | `<main>/<suffix>(<group>)<tail>` whose group has no `/` yields `<main>` |
| ClassCode.ExampleSlashInsideParentheses | 251102/temp.py:14 | `//(A61K31/546,31:43)` yields `A61K31` with subclass `A61K` |
| ClassCode.ExampleSlashBeforeParentheses | 251102/temp.py:15 | `G06Q40/00(2012.01)I` yields `G06Q40` with subclass `G06Q` |
| ClassCode.ExampleSlashOnly | 251102/temp.py:16 | `G06Q11/10` yields `G06Q11` with subclass `G06Q` |
| ClassCode.ExampleNoSlash | 251102/temp.py:17 | `G06Q10(2012.01)I` yields `G06Q10` with subclass `G06Q` |
| Counting.ToSet | 251102/temp.py:116-117 | `set(xs)` holds exactly the elements of `xs` |
| Counting.Distinct | 251102/temp.py:105-107 | the keys of `Counter(xs)`: exactly the elements of `xs`, each once, no more of them than elements |
| Counting.FirstIndex | 251102/temp.py:105 | the index of the first occurrence of an element: it holds the element and no earlier position does |
| Counting.DistinctOrder | 251102/temp.py:105-107 | the keys of `Counter(xs)` come in the order of their first occurrence in `xs`, the order in which the dictionary keeps them |
| Counting.Tally | 251102/temp.py:105 | `Counter(xs)` has exactly the elements of `xs` as keys, each mapped to its number of occurrences |
| Counting.NoDuplicatesSize | 251102/temp.py:116-117 | a list without repetitions has as many elements as its set |
| Counting.DistinctSize | 251102/temp.py:116-117 | `len(set(xs))` is the number of keys of `Counter(xs)`, at most `len(xs)` |
| Counting.SumCountsAdd | 251102/temp.py:105-108 | one more occurrence of `x` adds one to the total over the keys exactly when `x` is a key |
| Counting.CountsAddUp | 251102/temp.py:102-108 | the counts of `Counter(xs)` add up to `p = len(xs)` |
| Diversity.Mains | 251102/temp.py:101 | `main_groups_in_block` lists each code's main group in order |
| Diversity.Subs | 251102/temp.py:115 | `sub_classes_in_block` lists each code's subclass in order |
| Diversity.SumSquaredShares | 251102/temp.py:106-108 | `sum_sq_ratio`, the sum of `(t / p) ** 2` over the keys, is never negative |
| Diversity.Method1Quality | 251102/temp.py:100-109 | method 1, `1 - Σ (t/p)²` over the keys of `Counter(mains)`, equals `1 - Σ t² / p²` in integer counts |
| Diversity.SubclassCount | 251102/temp.py:116 | N is at most the number of codes, and at least 1 for a block with a code |
| Diversity.GroupCount | 251102/temp.py:117 | n is at most the number of codes, and at least 1 for a block with a code |
| Diversity.Method2Quality | 251102/temp.py:119-121 | for a block with a code, n ≥ 1 so `1/n` is defined, and `N + 1 - 1/n` lies in [N, N+1) |
| Diversity.SharesAreSquares | 251102/temp.py:106-108 | `Σ (t/p)²` equals `Σ t²` divided by `p²` |
| Diversity.SquaresBelowSquaredSum | 251102/temp.py:105-108 | for positive counts, `1 ≤ Σ t² ≤ (Σ t)²`, with equality exactly when there is a single count |
| Diversity.Method1Bounds | 251102/temp.py:100-110 | method 1 lies in [0, 1), and is 0 exactly when the block has one distinct main group |
| Diversity.SubclassImageSize | 251102/temp.py:115-117 | taking subclasses of distinct main groups never gives more distinct values |
| Diversity.SubclassesOfGroups | 251102/temp.py:115-117 | for well-formed codes, the set of subclasses is the image of the set of main groups under `[:4]` |
| Diversity.Method2Bounds | 251102/temp.py:114-125 | `1 ≤ N ≤ n ≤ p`, so `1/n` is defined; method 2 lies in [N, N+1), and equals N exactly when n = 1 |
| RowProcessing.CellText | 251102/temp.py:60-62 | a present, non-missing cell contributes its text, and any text contributed is that cell's |
| RowProcessing.RowText | 251102/temp.py:58-62 | the concatenation of the cells of a list of categories, with no text for no categories |
| RowProcessing.ParsedCodes | 251102/temp.py:89-94 | a block yields at most one code per token, each of them well formed |
| RowProcessing.BlockCodes | 251102/temp.py:86-94 | a block's content yields at most one code per `;`-separated token, each of them well formed |
| RowProcessing.Kept | 251102/temp.py:84-98 | every kept block has at least one code, all well formed, and there are no more kept blocks than blocks |
| RowProcessing.Method1s | 251102/temp.py:110 | one method 1 entry per kept block |
| RowProcessing.SubclassCounts | 251102/temp.py:123 | one N entry per kept block |
| RowProcessing.GroupCounts | 251102/temp.py:124 | one n entry per kept block |
| RowProcessing.Method2s | 251102/temp.py:125 | one method 2 entry per kept block |
| RowProcessing.AllMains | 251102/temp.py:128 | `all_main_groups.extend(...)` over the kept blocks collects one main group per parsed code |
| RowProcessing.TotalCodes | 251102/temp.py:128-133 | the number of parsed codes of the kept blocks, at least one per kept block |
| RowProcessing.Metrics | 251102/temp.py:110-139 | the five results built per kept block: four lists of one entry per kept block, and the empty result for no kept block |
| RowProcessing.RowBlocks | 251102/temp.py:75-98 | the `findall` blocks of the row's text that yield a code, at most one per block |
| RowProcessing.RowSpec | 251102/temp.py:53-142 | what `process_row` computes: four lists of one equal length, the number of kept blocks, and the empty result for a row without text |
| RowProcessing.ConcatenateCells | 251102/temp.py:58-62 | the loop over categories A..H builds exactly the concatenation of the present, non-missing cells, in order |
| RowProcessing.ParseBlock | 251102/temp.py:86-94 | the token loop builds exactly the block's codes, `BlockCodes`, in token order: empty and unparsable tokens are dropped |
| RowProcessing.ConcentrationComplement | 251102/temp.py:100-110 | the accumulation loop over the counts computes method 1, which lies in [0, 1) and is 0 exactly when there is one distinct main group |
| RowProcessing.ScoreBlock | 251102/temp.py:100-125 | the scores of one non-empty block are its method 1, N, n and method 2 |
| RowProcessing.SharesAppend | 251102/temp.py:106-108 | one more key adds its squared share `(t/p)²` to the running sum |
| RowProcessing.ParsedAppend | 251102/temp.py:89-94 | one more token appends its code exactly when it is non-empty after stripping and parses |
| RowProcessing.KeptAppend | 251102/temp.py:84-98 | one more block is appended to the kept blocks exactly when it yields a code |
| RowProcessing.MetricsAppend | 251102/temp.py:100-128 | a kept block appends its own scores to each list and its main groups to the method 3 collection |
| RowProcessing.ScoreBlocks | 251102/temp.py:84-140 | the block loop produces exactly the lists and counts of the specification for the kept blocks |
| RowProcessing.ProcessRow | 251102/temp.py:53-142 | `process_row`, including its early return for an empty row, computes exactly `RowSpec(row)` |
| RowProperties.NoCellsNoText | 251102/temp.py:58-62 | categories whose cells are all absent or missing contribute no text |
| RowProperties.RowTextEmpty | 251102/temp.py:58-64 | the concatenated text is empty (the `if not full_patent_string` test) exactly when no category contributes any text |
| RowProperties.MissingLikeAbsent | 251102/temp.py:61 | a missing (NaN) cell and an absent column contribute the same (nothing) |
| RowProperties.RowTextConcat | 251102/temp.py:58-62 | the text of a run of categories is the text of its first part followed by that of the rest: cells appear in category order |
| RowProperties.EmptyRow | 251102/temp.py:64-71 | a row with no text yields four empty lists and an empty count map |
| RowProperties.NoCellsEmptyRow | 251102/temp.py:58-71 | if no cell among A..H is present, the result is four empty lists and an empty count map |
| RowProperties.ListsAt | 251102/temp.py:110-125 | the i-th entry of each list is the score of the i-th kept block |
| RowProperties.KeptFromBlocks | 251102/temp.py:84-98 | every kept entry is the codes of some `{...}` block |
| RowProperties.BlocksKept | 251102/temp.py:84-98 | every block that yields a code is kept |
| RowProperties.RowListsAligned | 251102/temp.py:75-125 | the four lists have equal length, the number of kept blocks, which is at most the number of `{...}` blocks |
| RowProperties.SkippedToken | 251102/temp.py:89-94 | a token that is empty after stripping, or does not parse, adds no code |
| RowProperties.SkippedBlock | 251102/temp.py:96-98 | a block that yields no code adds nothing to the kept blocks |
| RowProperties.TextBeforeBlocks | 251102/temp.py:75 | text before the first `{` contributes no block and no list entry |
| RowProperties.BlockThenRest | 251102/temp.py:75 | a complete `{...}` block is found whole, ahead of the blocks after it |
| RowProperties.RowMethod1 | 251102/temp.py:100-110 | each method 1 entry is `1 - Σ (t/p)²` of its block, lies in [0, 1), and is 0 exactly when the block has one distinct main group |
| RowProperties.RowMethod2 | 251102/temp.py:114-125 | each method 2 entry is `N + 1 - 1/n` with `1 ≤ N ≤ n ≤ p`, lies in [N, N+1), and equals N exactly when n = 1 |
| RowProperties.AllMainsMembers | 251102/temp.py:128 | the collected main groups are exactly the main groups of the kept blocks' codes |
| RowProperties.AllMainsCounts | 251102/temp.py:128-133 | collecting block by block counts each main group over all kept blocks and keeps every code |
| RowProperties.RowMethod3 | 251102/temp.py:128-140 | the count map's keys are exactly the main groups of kept blocks, each mapped to its number of occurrences; the counts add up to the number of parsed codes in the row |
| RowExample.ParsedSlashTokens | 251102/temp.py:86-94 | tokens `<group>/<suffix>` parse, in order, to exactly their groups |
| RowExample.DistinctRepeatedPair | 251102/temp.py:105 | the keys of `Counter([a, a, b])` are `a, b`, in that order |
| RowExample.DistinctPair | 251102/temp.py:105 | the keys of `Counter([a, b])` are `a, b`, in that order |
| RowExample.RepeatedPairShares | 251102/temp.py:106-108 | the squared shares of counts 2 and 1 among 3 add up to 5/9 |
| RowExample.DistinctPairShares | 251102/temp.py:106-108 | the squared shares of counts 1 and 1 among 2 add up to 1/2 |
| RowExample.PlainBlock | 251102/temp.py:86-94 | the content of a block of such tokens yields codes whose main groups are exactly the groups, and holds no `}` or newline |
| RowExample.EnclosedRowBlocks | 251102/temp.py:75-98 | a row whose text is a series of `{...}` blocks keeps the blocks that yield codes, in order |
| RowExample.RepeatedPairQuality | 251102/temp.py:100-109 | main groups `a, a, b` (with a ≠ b) give method 1 = 4/9 |
| RowExample.DistinctPairQuality | 251102/temp.py:100-109 | main groups `a, b` (with a ≠ b) give method 1 = 1/2 |
| RowExample.TwoBlocksRow | 251102/temp.py:75-110 | a row of two blocks of plain tokens gets the method 1 values of the two blocks' main groups, in order |
| RowExample.ExampleRowText | 251102/temp.py:83 | the enclosed joins of the example's tokens spell `{G06Q11/10;G06Q11/11;G06Q13/10}{G06Q10/10;G06Q12/10}` |
| RowExample.ExampleRowFromPieces | 251102/temp.py:83-110 | the example row, with its text given as the enclosed joins of its tokens, gets method 1 values `[4/9, 1/2]` |
| RowExample.ExampleRowMethod1 | 251102/temp.py:83-110 | the row `{G06Q11/10;G06Q11/11;G06Q13/10}{G06Q10/10;G06Q12/10}` gets method 1 values `[4/9, 1/2]` |

## Left out

- `main()` and all I/O (`251102/temp.py:144-198`): loading Excel/CSV with fallback, saving, timing prints and the `tqdm` progress bar. The hard-coded `root_dir` (`251102/temp.py:7`) is left out as well.
- pandas rows: a row is a map from category letter to an optional cell text, not a DataFrame row. The full column names (`发明申请A类` and so on) become their letters. `process_row` writes five fields onto `row`; the model returns them as a `RowMetrics` value.
- `str(row[col])` of a non-string cell (a number, say): cells are modelled as text already.
- Floating point: `(t / p) ** 2` and `1 / n` are exact rationals (`real`), so no claim is made about IEEE rounding.
- RowProcessing.ScoreBlocks: the method 3 count map is a Dafny `map`, which has no order. The insertion order of Python's `dict(Counter(...))` is the order of `Distinct` of the collected main groups, which `Counting.DistinctOrder` proves to be the order of first occurrence.
- Regular expressions: only the two patterns the code uses are modelled (`\((.*?)\)` and `\{(.*?)\}`), not a general regex engine.
- Cohort medians and per-year normalisation are not part of this model. No file of the modelled core contains them.
- RowProcessing.ProcessRow: the later variant `251108/01数据处理.py:99-102` guards method 2 with `if n > 0` and appends `N + 1` otherwise. `251102/temp.py` has no such guard and divides by `n` directly (line 121). The model follows the code and proves `n ≥ 1` for every kept block, so the division is always defined and the default could never apply.
