# TFBS signatures across tissues: a verified model

This project models the two computational cores of a small visualisation of
transcription-factor binding-site (TFBS) signatures across tissues.

1. The preprocessor `preprocess.py` reads a tab-separated table. Each row holds a cell type, a
   tissue and a list of TF tokens such as `CTCF+`, `SP1-` or `YY1`.
   - Tokens are cleaned and their trailing strand sign is split off.
   - Signed occurrences are counted per (tissue, TF) pair, and tissues and TFs are ranked by frequency.
   - It writes a summary document: the tissue × top-40-TF matrix of counts with
     each cell's signed proportion `(plus - minus) / total` and `imputed` flag,
     the largest cell total, and the per-tissue and per-TF sums.
2. The browser view `app.js` works on that document. It derives the subset
   of the first `tfCount` TFs, the bar series of one TF across tissues, the
   direction label, and the colour-scale parameter. It also keeps a small
   hover/pin selection state, changed by the cell and control event handlers.

How the project is laid out:
- The preprocessor is modelled in `text.dfy`, `tokens.dfy`, `rows.dfy`,
  `counters.dfy`, `ranking.dfy`, `aggregate.dfy`, `summary.dfy` and
  `pipeline.dfy`.
- The view is modelled in `view.dfy`.
- The event handlers are modelled in `interaction.dfy`.
- `records.dfy` holds the records shared by both halves. `seqs.dfy` holds
  generic sequence helpers.

The loops of `main` are `method`s proved against the functions that specify
them. `Rows.ReadRows`, `Aggregate.Aggregate`, `Summary.BuildMatrix`,
`Summary.BuildPerTissue` and `Summary.BuildPerTf` end in
`Pipeline.Preprocess`, whose result is `Pipeline.SummaryOf(lines)`. The
properties of the document are then lemmas about those functions.

The global `state` object of `app.js` is the class `Interaction.State`, with
one method per event. Ghost fields record what the drawing shows: the subset
drawn, the details panel, the highlighted cell and the TF of the bar chart.
`State.Valid` is the invariant tying them to the selection.

Where the written design description and the code disagree, the model follows the code:
- Clicking the pinned cell shows the hovered record again, if any, rather than an empty panel.
- The clear-pin button leaves the bar chart on the TF it was showing.
- The resize listener does not clear the pin; see "## Findings".

## Model

| member | source | states |
|---|---|---|
| Text.Strip | preprocess.py:13 | `str.strip()`: the result is empty exactly when the input is all whitespace, and otherwise neither starts nor ends with whitespace |
| Text.Trim | preprocess.py:13 | `strip(chars)`: the result neither starts nor ends with a dropped character, is empty exactly when every character is dropped, and holds only characters of the input |
| Text.TrimSlice | preprocess.py:13 | what `strip(chars)` removes is a run of dropped characters at each end: the result is the slice `s[a..b]` of the input |
| Text.Split | preprocess.py:28 | `split(sep)` yields at least one piece and no piece contains a separator |
| Text.JoinSplit | preprocess.py:28 | joining the pieces of a split with the separator gives the line back |
| Text.SplitJoin | preprocess.py:28 | splitting a join of separator-free pieces gives the pieces back |
| Text.Words | preprocess.py:30 | the whitespace fallback split yields non-empty pieces without whitespace |
| Text.RemoveSpace | preprocess.py:49 | `re.sub(r'\s+', '', tf)`: the result has no whitespace, keeps every other character of the input and adds none |
| Tokens.RemoveBackslashes | preprocess.py:13 | a character is in the result exactly when it is in the input and is not a backslash |
| Tokens.RemoveBackslashesCount | preprocess.py:13 | `replace('\\', '')` shortens the token by exactly its number of backslashes |
| Tokens.RemoveBackslashesAppend | preprocess.py:13 | characters are handled one by one: removing from a concatenation removes from each part, a backslash becomes nothing and any other character stays |
| Tokens.Clean | preprocess.py:13 | the cleaned token is empty exactly when the stripped token holds only backslashes, commas and semicolons; it never holds a backslash |
| Tokens.ParseTokenNone | preprocess.py:12-15 | `parse_token` answers `None` exactly when the stripped token holds nothing but backslashes, commas and semicolons |
| Tokens.ParseTokenName | preprocess.py:13-18 | a parsed name is stripped and free of backslashes; the sign is unknown exactly when the cleaned token ends in neither `+` nor `-`; a signed token is the cleaned token minus its last character (that sign), stripped; an unsigned token's name is the stripped cleaned token |
| Tokens.UnsignedNameStripped | preprocess.py:13-18 | an unsigned name can differ from the cleaned token: `\ a` cleans to ` a` and parses to the name `a` with the unknown sign |
| Tokens.ParseRenderedToken | preprocess.py:12-18 | round trip: a clean TF name written with its sign (or bare for the unknown sign) parses back to that name and sign |
| Rows.Fields | preprocess.py:28-30 | a line with at least two tab-separated fields is split on tabs; a line with fewer is split by the whitespace fallback instead |
| Rows.KeepTokens | preprocess.py:35 | the kept tokens are no more than the fields and each is non-empty and stripped |
| Rows.KeepTokensHas | preprocess.py:35 | every non-blank field is kept, stripped, and every kept token is a stripped field |
| Rows.KeepTokensAppend | preprocess.py:35 | fields are kept in order: keeping from a concatenation keeps from each part, one after the other |
| Rows.KeepTokensOne | preprocess.py:35 | one field is kept, stripped, exactly when it is not blank |
| Rows.ParseRow | preprocess.py:26-36 | a line gives a row exactly when it is not blank and has at least two fields; the row's cell type, tissue and tokens are stripped, with no empty token |
| Rows.RowOfFields | preprocess.py:33-36 | a row is read from its fields: the first two stripped as cell type and tissue, the kept remaining fields as tokens |
| Rows.ReadRows | preprocess.py:22-36 | the reading loop returns exactly the rows of the lines that yield one, in input order |
| Rows.RowsOfAppend | preprocess.py:24-36 | lines are read independently: the rows of two stretches of lines are the rows of each, one after the other |
| Rows.ParseJoinedRow | preprocess.py:25-36 | round trip: a line written as tab-joined stripped, tab-free fields is read back as exactly that row |
| Counters.Inc | preprocess.py:43 | `counter[k] += 1` adds one to `k`, leaves every other key alone, keeps the counter well-formed, and appends a new key to the key order |
| Counters.CounterOfSpec | preprocess.py:39-43 | counting a sequence gives a well-formed counter whose count of every key is its number of occurrences |
| Counters.CounterOfKeys | preprocess.py:39-43 | the keys of a counted sequence are exactly its elements |
| Counters.CounterOfOrderSize | preprocess.py:39-43 | a counted sequence has one key for each of its different elements |
| Counters.CounterOfAppend | preprocess.py:42-53 | counting two stretches one after the other adds their counts |
| Ranking.SortByCount | preprocess.py:55 | the ranking is a permutation of the keys (same multiset, same length) |
| Ranking.SortOrdered | preprocess.py:55 | the ranking is ordered by non-increasing count |
| Ranking.MostCommonSpec | preprocess.py:55 | `most_common()` lists every counted key once (a permutation of the key order) by non-increasing count |
| Ranking.MostCommonTopSpec | preprocess.py:56 | `most_common(TOP_N)` keeps `min(TOP_N, keys)` distinct keys by non-increasing count, and no key left out was counted more often than one kept |
| Ranking.MostCommonOf | preprocess.py:43-55 | ranking a counted sequence lists each element once, by non-increasing number of occurrences |
| Ranking.MostCommonTopOf | preprocess.py:53-56 | the top of the ranking of a counted sequence: exactly `min(TOP_N, different elements)` elements, distinct, by non-increasing occurrences, none left out more frequent than one kept |
| Aggregate.TokenObsSpec | preprocess.py:45-50 | a token yields an occurrence exactly when it parses, and the occurrence carries the row's tissue, the parsed sign and a TF name without whitespace or backslashes |
| Aggregate.TallySpec | preprocess.py:38-53 | after counting, every key's buckets are its numbers of occurrences with each sign, and a key is present exactly when it occurred |
| Aggregate.TallyBalanced | preprocess.py:50-52 | every key holds `total = + + - + 0` and at least one occurrence |
| Aggregate.OccurrenceCounted | preprocess.py:50-53 | one more occurrence raises its key's `total` and its sign's bucket by one, leaves the other two buckets and every other key unchanged, and raises its TF's count by one and no other TF's |
| Aggregate.Aggregate | preprocess.py:38-53 | the counting loops give the tally of all occurrences, the row count per tissue and the occurrence count per TF |
| Aggregate.CountTokens | preprocess.py:44-53 | the token loop of one row continues the tally and TF counts by that row's occurrences |
| Aggregate.CountToken | preprocess.py:45-53 | one token: an unparsable token changes nothing, a parsed one is counted once for its key and sign and once for its TF |
| Aggregate.TissueCounts | preprocess.py:31-43 | every kept row adds exactly one to its tissue's count, however many tokens it has, and the counted tissues are those of the rows |
| Aggregate.TfCounts | preprocess.py:53 | every TF is counted once per occurrence, and the counted TFs are those read |
| Summary.CellOfSpec | preprocess.py:62-74 | a cell carries its key and its counts, is imputed exactly when its total is 0 and then scores 0, and with balanced counts is well-formed with a score in [-1, 1] |
| Summary.MatrixRowAt | preprocess.py:61-62 | cell `j` of a tissue's row is the entry of TF `j`, with zero counts for a key never counted |
| Summary.MatrixSize | preprocess.py:60-61 | the matrix has exactly `|tissues| * |top_tfs|` cells |
| Summary.MatrixBlock | preprocess.py:60-74 | block `i` of `|top_tfs|` consecutive cells is the row of tissue `i` (tissue-major order) |
| Summary.MatrixAt | preprocess.py:60-74 | the cell at `i * |top_tfs| + j` is the entry for tissue `i` and TF `j` |
| Summary.MatrixCells | preprocess.py:60-74 | every cell is the entry of its own key, with a listed tissue and TF, and is well-formed |
| Summary.MaxTotalSpec | preprocess.py:59-75 | `max_total` bounds every cell's total and equals one of them, or is 0 for an empty matrix |
| Summary.BuildMatrix | preprocess.py:58-75 | the nested loop builds exactly the tissue-major matrix and its largest total |
| Summary.AppendRow | preprocess.py:61-75 | the inner loop appends one tissue's row and keeps the running maximum |
| Summary.SumBalanced | preprocess.py:79-82 | a sum of balanced counts is balanced |
| Summary.PerTissueAt | preprocess.py:77-82 | `per_tissue` holds one entry per tissue, in order, summing its counts over the top TFs |
| Summary.PerTfAt | preprocess.py:84-91 | `per_tf` holds one entry per top TF, in order, summing its counts over the tissues |
| Summary.PerTissueSumsMatrix | preprocess.py:77-82 | each `per_tissue` entry's buckets are the sums of the buckets of its block of matrix cells, and its total is the sum of their totals |
| Summary.ColumnOfMatrix | preprocess.py:84-88 | the counts `per_tf` adds for TF `j` and tissue `i` are those of matrix cell `i * |top_tfs| + j` |
| Summary.PerTfSumsColumn | preprocess.py:84-91 | each `per_tf` entry sums its column, its total is `plus + minus + unknown`, and its score lies in [-1, 1] |
| Summary.BuildPerTissue | preprocess.py:77-82 | the loop builds exactly the per-tissue sums |
| Summary.BuildPerTf | preprocess.py:84-91 | the loop builds exactly the per-TF sums |
| Pipeline.Preprocess | preprocess.py:21-91 | the whole of `main` from lines to document computes `SummaryOf(lines)` |
| Pipeline.SummaryTissues | preprocess.py:43-55 | the document's tissues are those of the kept rows, each once, by non-increasing row count |
| Pipeline.TopTfs | preprocess.py:53-56 | the top TFs are exactly `min(TOP_N, different TFs)` TFs read from tokens, each once, by non-increasing count, none left out more frequent than one kept |
| Pipeline.SummaryCells | preprocess.py:58-75 | every cell carries the numbers of `+`, `-` and unsigned tokens read for its pair, is well-formed and pairs a listed tissue with a top TF; `max_total` is present, bounds every total and is attained (0 when empty) |
| View.SubsetSpec | app.js:71-91 | the subset keeps the first `min(tfCount, |tfs|)` TFs in order, exactly the cells and per-TF rows of those TFs, the tissues and per-tissue rows unchanged, and a maximum that is absent for no cells, otherwise bounds and is attained by the kept cells, and never exceeds the full maximum |
| View.SubsetTwice | app.js:71-91 | taking a subset of a subset is taking the smaller subset |
| View.MatrixFilter | app.js:76 | filtering the matrix by TF is building the tissue-major matrix over the kept TFs, so order is preserved |
| View.PerTfFilter | app.js:82 | filtering `per_tf` by TF is summing over the kept TFs |
| View.SubsetOfDocument | app.js:71-91 | the subset of a preprocessed document is the matrix and `per_tf` the preprocessor would have written for only the first `tfCount` TFs |
| View.FindCellSpec | app.js:332 | `find` answers the first cell of the pair, and nothing exactly when no cell has that pair |
| View.SeriesOver | app.js:331-342 | the series has one bar per tissue |
| View.SeriesAt | app.js:331-342 | bar `i` belongs to tissue `i` and copies the first record of its pair; with no record it is the all-zero bar flagged imputed with score 0 |
| View.SeriesOfMatrix | app.js:331-342 | over a built matrix, the bar of a tissue for a listed TF is that pair's cell |
| View.SeriesOfDocument | app.js:331-342 | for a preprocessed document and a listed TF, bar `i` shows the counts read for tissue `i` and that TF, imputed exactly when there are none, with their signed proportion |
| View.DirectionOfCell | app.js:100 | for a well-formed cell the label is enriched, depleted or balanced exactly when `plus > minus`, `plus < minus` or `plus == minus` |
| View.ColorParamSpec | app.js:19-22 | `1 - (score + 1) / 2` maps [-1, 1] onto [0, 1] reversed: strictly decreasing, endpoints swapped, 0 to 1/2, every point reached |
| View.LegendStop | app.js:39-44 | the legend stop at offset `d` takes the scale at `1 - d` |
| Interaction.State.constructor | app.js:4-9 | initial state: TF count 40, nothing pinned or hovered, first render drawn, invariant established |
| Interaction.State.Render | app.js:171-179 | redraws the current subset with the bars on its first TF and empty details; removes the highlight; selection fields unchanged |
| Interaction.State.MouseMove | app.js:275-279 | hover always records the cell, and the details follow it only while nothing is pinned; the invariant is kept |
| Interaction.State.MouseLeave | app.js:290-296 | leaving clears the hover, and empties the details only while nothing is pinned; the invariant is kept |
| Interaction.State.Click | app.js:297-311 | clicking the pinned cell unpins it, shows the hovered record (or nothing) and resets the bars to the first TF; clicking another cell pins and highlights only it and puts its TF on the bars; the invariant is kept |
| Interaction.State.ClickTwice | app.js:297-311 | two clicks on a cell not pinned return to unpinned with the bars on the first TF |
| Interaction.State.ChangeTfCount | app.js:439-444 | a new TF count unpins and re-renders the new subset with empty details; the invariant holds afterwards from any state |
| Interaction.State.ClearPin | app.js:446-450 | clear-pin unpins, removes the highlight and empties the details, leaving the TF count and the bars alone; the invariant is kept |
| Interaction.State.Resize | app.js:452-455 | the resize listener as written re-renders but keeps the pin, so the invariant holds afterwards exactly when nothing was pinned |
| Interaction.State.ResizeClearingPin | app.js:452-455 | the corrected listener clears the pin before re-rendering, so the invariant always holds afterwards |
| Interaction.StalePinAfterResize | app.js:452-455 | pin a cell, resize, hover it: the pin is still set but not highlighted, and the hover is ignored, so the details stay empty |
| Interaction.HoverAfterResizeClearingPin | app.js:452-455 | the same steps with the corrected listener: nothing pinned, and the hovered cell is shown |

## Left out

- Drawing. The d3/SVG drawing is not modelled: legend, heatmap geometry, mini chart, axes, scales, the tooltip and CSS classes. What the drawing shows is kept as ghost fields of `Interaction.State`.
- Colours and formatting. `d3.interpolateRdBu` colours and the `fmt`/`fmt2` number formatting are library output; only the argument passed to the colour scale is modelled.
- Loading and the data guard. `loadData` and its promise are not modelled. `Interaction.State.constructor` takes the loaded document, and the `!state.data` guard of the resize listener is always passed.
- File I/O. Reading the input file is modelled by the sequence of its lines. Writing the JSON and CSV files, `meta`, `os.makedirs`, `datetime` and `print` (preprocess.py:93-135) are not modelled.
- `line.rstrip('')` (preprocess.py:25) strips nothing and is omitted.
- Whitespace. The regular-expression class `\s` and `str.isspace()` are taken to be the same character set (`Text.IsSpace`).
- Decoding. Characters are Unicode code points; the `errors='replace'` decoding of invalid bytes is not modelled.
- Ranking.MostCommonSpec: ties. Python's stable order for keys with equal counts is not claimed; the model sorts stably, but only non-increasing counts and the permutation are proved.
- Summary.CellOfSpec: floating point. `score` is an exact real ratio, with no floating-point rounding.
- View.SubsetSpec: negative counts. `tfCount` is a natural number, because the selector offers positive values. JavaScript's `slice` with a negative end is not modelled.
- Interaction.State.MouseMove: staleness. The hovered record is the cell object passed in. It is not re-resolved after a redraw, and hover after a resize keeps a record of the old subset, as the code does.
- Tooltip. Its visibility and position are not modelled.

## Findings

| source | as written | input that shows it | evidently intended | confidence | as-written member | corrected member |
|---|---|---|---|---|---|---|
| app.js:452-455 | the resize listener only calls `render()`, which removes the `pinned` highlight and empties the details but leaves `state.pinned` set, so afterwards hover is ignored and nothing shows the pin | pin any cell by clicking it, resize the window, then hover a cell: the details stay "No selection yet." while a pin is still recorded | a resize clears the pin along with the redraw, as the TF-count selector does (the design lists resize with the TF-count change as clearing the pin) | medium, not executed | Interaction.StalePinAfterResize | Interaction.State.ResizeClearingPin |
