# Netflix titles analysis — a Dafny model

`netflix_analysis.py` loads a table of Netflix titles and cleans it. It drops
rows missing `type`, `country` or `date_added`, trims and parses the date,
drops the rows whose date does not parse (warning how many), and adds
`year_added`. It then computes five aggregates and plots them. This project
models the cleaning and the four aggregates the program computes itself from
the cleaned table, and proves what each one delivers:

- the ten most frequent countries, after splitting `country` on `", "`;
- the number of titles added per year, in ascending year order;
- the genre by type grid, after splitting `listed_in` on `", "`;
- the ten most common genres, after splitting `listed_in` on `","` and
  stripping each piece, ties in order of first appearance, and the unpacking
  `zip(*...)` that fails when there are none.

Modules:

- `Wrappers`: `Option`.
- `Text`: Python's `str.strip` (the `str.isspace` characters), `str.find`,
  `str.split` with an explicit separator, and `str.join`, with their algebra:
  strip is idempotent and removes exactly the surrounding whitespace;
  join undoes split; split undoes join when no piece holds the separator's
  first character.
- `Counting`: occurrence counts, first appearance, distinct values in order
  of first appearance, and `Counter.most_common(k)`: repeatedly take the most
  frequent remaining value, the earliest one on a tie.
- `Ordering`: strict total orders on `int` and on `str` (code-point
  order, as Python compares strings), and the ascending list of distinct keys
  that `groupby` and `sort_index` produce.
- `Cleaning`: the rows, the date parser as a parameter, a reference definition
  of the cleaned table, the five steps of lines 21-39 as one pass each, and the
  method `Clean` that runs them.
- `Aggregates`: the four aggregates and the lemmas about them, including where
  the two splits of `listed_in` (lines 119 and 139) agree and where they differ.

pandas `value_counts()` does not define the order of equal counts.
`TopCountries` breaks ties by first appearance, like `most_common`, and
`TopCountriesSpec` claims no tie order.

## Model

| member | source | states |
|---|---|---|
| Cleaning.Clean | netflix_analysis.py:21-39 | The table left after the five cleaning statements is the reference table: keyed rows whose trimmed date parses, in input order, each with its year. `dropped` is the number of keyed rows whose date did not parse, and the warning is printed exactly when that number is positive. |
| Cleaning.DropMissingKeys | netflix_analysis.py:21 | The pass keeps the rows having `type`, `country` and `date_added`, in order. |
| Cleaning.StripDateColumn | netflix_analysis.py:24 | The pass replaces every date text by its stripped form and changes nothing else. |
| Cleaning.ParseDateColumn | netflix_analysis.py:25-29 | The pass replaces every date text by the parser's result, None standing for NaT. |
| Cleaning.DropNaT | netflix_analysis.py:33 | The pass keeps the rows whose date parsed, in order. |
| Cleaning.AddYearColumn | netflix_analysis.py:39 | The pass adds to every row the year of its date. |
| Cleaning.KeyRows | netflix_analysis.py:21 | Every row left has all three key columns. |
| Cleaning.DropUnparsed | netflix_analysis.py:33 | The table does not grow, and every row left has a parsed date. |
| Cleaning.StepsAgree | netflix_analysis.py:21-36 | The five steps, one after the other, give the reference table. `initial_count - len(df)` equals the number of keyed rows whose trimmed date does not parse. |
| Cleaning.CleanedIsSubsequence | netflix_analysis.py:21-33 | The cleaned table is an order-preserving selection of the input. Output row k is the derived form of input row idx[k], with increasing indices. A row is selected exactly when its keys are present and its trimmed date parses. |
| Cleaning.CleanedRowsAreDerived | netflix_analysis.py:21-39 | Each cleaned row's `year_added` is the year of its date. Its type, country, genres and date come from one keyed input row whose trimmed date parses to that date. |
| Cleaning.DroppedIsKeyedMinusCleaned | netflix_analysis.py:32-34 | The dropped count is the number of keyed rows minus the number of cleaned rows. |
| Cleaning.MissingGenresAreKept | netflix_analysis.py:21 | A row missing only `listed_in` survives cleaning, with `listed_in` still missing. |
| Aggregates.ExplodedCountriesSize | netflix_analysis.py:74-76 | The exploded column has one entry per piece of every row's split. |
| Aggregates.CountryRowContribution | netflix_analysis.py:74-77 | A further row adds its own pieces to each country's count, and nothing else. |
| Aggregates.CountryListOfJoin | netflix_analysis.py:75-77 | A row listing distinct countries joined by ", ", none with a comma, splits back into those countries and adds one to each of them and nothing to any other. |
| Aggregates.CountryExamples | netflix_analysis.py:75-77 | "A, B, C" adds one to each of A, B and C; "A" adds one to A only. |
| Aggregates.TopCountriesSpec | netflix_analysis.py:73-79 | At most ten countries, min(10, number of distinct countries). Each comes with its true count in the exploded column, none appears twice, and counts do not increase. No country left out occurs more often than any kept. |
| Aggregates.YearCountsSpec | netflix_analysis.py:106 | One entry per year that occurs and no other, in strictly ascending order. Each count is the positive number of rows added that year, and the counts add up to the number of rows. |
| Aggregates.MissingGenresContributeNothing | netflix_analysis.py:118 | A title without `listed_in` adds no (genre, type) row. |
| Aggregates.GridLabels | netflix_analysis.py:118-123 | The grid's rows are exactly the genres observed and its columns exactly the types observed, both in ascending string order. |
| Aggregates.GridCells | netflix_analysis.py:123 | Each cell is the number of exploded rows with that genre and type. It is 0 exactly when the pair never occurs, which is the `fill_value=0` case. |
| Aggregates.GridTotal | netflix_analysis.py:120-123 | The cells add up to the number of exploded (genre, type) rows, so each row is counted in exactly one cell. |
| Aggregates.Cells | netflix_analysis.py:123 | The grid is dense: one cell per (genre, type) label pair. |
| Aggregates.GenreLists | netflix_analysis.py:139 | There are no more token lists than titles, each list is non-empty, and there is none exactly when no title has `listed_in`. |
| Cleaning.Cleaned | netflix_analysis.py:21-39 | The cleaned table, computed in one pass: the derived form of each keyed row whose trimmed date parses, in input order. Its contract is stated by `Cleaning.CleanedIsSubsequence` and `Cleaning.CleanedRowsAreDerived`, and `Cleaning.Clean` is proved to compute it. |
| Aggregates.ExplodeCountries | netflix_analysis.py:74-76 | The exploded country column: the ", " pieces of every row, in row order. Its contract is stated by `Aggregates.ExplodedCountriesSize` and `Aggregates.CountryRowContribution`. |
| Aggregates.TopCountries | netflix_analysis.py:73-79 | The ten most frequent countries with their counts. Its contract is stated by `Aggregates.TopCountriesSpec`. |
| Aggregates.YearCounts | netflix_analysis.py:106 | Titles per year, years ascending. Its contract is stated by `Aggregates.YearCountsSpec`. |
| Aggregates.GenreTypePairs | netflix_analysis.py:118-120 | The (genre, type) rows after `dropna`, the ", " split and `explode`. Its contract is stated by `Aggregates.MissingGenresContributeNothing` and `Aggregates.GridTotal`. |
| Aggregates.GenreTypeGrid | netflix_analysis.py:123 | The genre by type grid of counts, 0 for unseen pairs. Its contract is stated by `Aggregates.GridLabels`, `Aggregates.GridCells` and `Aggregates.GridTotal`. |
| Aggregates.GenreTokens | netflix_analysis.py:139 | One title's genres: the "," pieces of `listed_in`, each stripped, at least one. Its other properties are stated by `Aggregates.GenreTokensStripped` and the three split lemmas below. |
| Aggregates.AllGenres | netflix_analysis.py:139-140 | All genre tokens, flattened in row order. Its contract is stated by `Aggregates.AllGenresStripped` and `Aggregates.AllGenresEmpty`. |
| Aggregates.TopGenres | netflix_analysis.py:143-144 | The ten most common genres and their counts, or None when the unpacking fails. Its contract is stated by `Aggregates.TopGenresFails` and `Aggregates.TopGenresSpec`. |
| Aggregates.GenreTokensStripped | netflix_analysis.py:139 | Every token of one title's genre list has no surrounding whitespace. |
| Aggregates.AllGenresStripped | netflix_analysis.py:139-140 | Every genre token has no leading or trailing whitespace. |
| Aggregates.AllGenresEmpty | netflix_analysis.py:139-140 | There are genre tokens exactly when some title has `listed_in`. |
| Aggregates.TopGenresFails | netflix_analysis.py:143-144 | The unpacking `genres, counts = zip(*genre_counts)` fails exactly when no title has genres. |
| Aggregates.TopGenresSpec | netflix_analysis.py:139-144 | When the unpacking succeeds: min(10, distinct genres) genres and as many counts. Each genre is stripped and comes with its true count; none appears twice; counts do not increase. Equal counts keep first-appearance order, and every genre left out ranks below every genre kept. |
| Aggregates.GenreSplitsAgree | netflix_analysis.py:119 | For stripped genres without commas joined by ", ", both the ", " split (line 119) and the split-and-strip (line 139) give back the genres. |
| Aggregates.GenreSplitsDivergeOnComma | netflix_analysis.py:119 | For "a,b" (a comma with no space), the ", " split keeps one piece, and the split-and-strip of line 139 gives [a, b]. |
| Aggregates.GenreSplitsDivergeOnSpace | netflix_analysis.py:139 | For "a,  b" (two spaces), the ", " split of line 119 gives [a, " b"], and the split-and-strip gives [a, b]. |
| Counting.MostCommon | netflix_analysis.py:143 | `Counter(xs).most_common(k)`. Its contract is stated by `Counting.MostCommonSpec`, `Counting.MostCommonOrder` and `Counting.MostCommonShape`. |
| Counting.MostCommonSpec | netflix_analysis.py:143 | `most_common(k)` returns min(k, distinct) values, each with its true count, none twice. Each outranks every later one and every value left out: it is more frequent, or equally frequent and met first. |
| Counting.MostCommonUnzipped | netflix_analysis.py:143-144 | `zip(*most_common(k))` as two lists: min(k, distinct) values and as many counts, each count exact, no value twice, counts non-increasing, ties in first-appearance order, and every value left out outranked by every value kept. |
| Counting.MostCommonOrder | netflix_analysis.py:143 | Counts are non-increasing, and equal counts appear in order of first appearance. |
| Counting.MostCommonShape | netflix_analysis.py:143 | The list has min(k, distinct) pairs, and it is empty exactly when the input is empty or k is 0. |
| Counting.Distinct | netflix_analysis.py:143 | The distinct values, each once, in order of first appearance, and exactly the values of the input. |
| Counting.FirstIndex | netflix_analysis.py:143 | A position holding the value when it occurs, and the length exactly when it does not. |
| Counting.FirstIndexIsFirst | netflix_analysis.py:143 | No occurrence of the value comes before that position, so it is where a Counter first meets the value. |
| Counting.SumOfCounts | netflix_analysis.py:106 | Counts over duplicate-free keys that cover every value add up to the length of the list. |
| Ordering.SortedKeys | netflix_analysis.py:106 | The distinct keys, strictly ascending in the given order, exactly the values of the input. |
| Ordering.StrLessIsStrictTotalOrder | netflix_analysis.py:123 | Python's string comparison is a strict total order. |
| Text.Strip | netflix_analysis.py:24 | Python's `str.strip()`. Its contract is stated by `Text.StripIsStripped`, `Text.StripDecompose`, `Text.StripOf` and `Text.StripIdempotent`. |
| Text.StripIsStripped | netflix_analysis.py:24 | The result of `strip()` has no leading or trailing whitespace. |
| Text.StripOf | netflix_analysis.py:24 | `strip()` removes exactly the surrounding whitespace: a stripped string with whitespace around it strips to itself. |
| Text.StripDecompose | netflix_analysis.py:24 | A string is whitespace, then its stripped form, then whitespace. |
| Text.StripIdempotent | netflix_analysis.py:24 | Stripping twice is stripping once. |
| Text.Split | netflix_analysis.py:75 | Python's `str.split(sep)`, always at least one piece. Its contract is stated by `Text.JoinSplit`, `Text.SplitJoin` and `Text.SplitPiecesLackSep`. |
| Text.JoinSplit | netflix_analysis.py:75 | Joining the pieces of `split(sep)` with `sep` restores the string. |
| Text.SplitJoin | netflix_analysis.py:75 | Splitting pieces joined by `sep` gives them back when no piece holds the separator's first character. |
| Text.SplitPiecesLackSep | netflix_analysis.py:75 | No piece of `split(sep)` contains `sep`. |
| Text.FindFromSpec | netflix_analysis.py:75 | `find` returns the first occurrence at or after the start, and None means there is none. |

## Left out

- Reading the CSV file and creating the `graphs` folder (lines 7-16) are I/O. The model starts from the loaded rows, keeping only the four columns the analysis reads.
- The date parser of pandas (`to_datetime` with `format='mixed'`) is not modelled. It is the parameter `parse`: any function from the trimmed text to a date or to NaT.
- All plotting, annotation and saving of figures (lines 48-64, 70, 82-101, 105-112, 126-131, 147-154) is rendering; the model stops at the data each chart is drawn from.
- The count by type drawn at line 49 is done inside seaborn's `countplot`. The program computes no table for it, so there is nothing to model.
- The progress messages, and the `exit()` calls (lines 13-16 and 41-44 after a failed load or cleaning step, and 66-68 after the first chart), are output. Only the decision to print the warning of line 36 is modelled, as `warned`.
- Aggregates.TopCountriesSpec: does not claim an order among equal counts, because pandas `value_counts` does not define one.
- pandas distinguishes a missing cell from an empty string, and the model does the same with `Option`. The NaN inside the split results of missing rows does not arise, because the rows that reach those lines have the column.
- Column dtypes are not modelled. A column that is empty in the whole file is read as float64, and `.str` then raises: at line 24 (caught, the run exits at lines 42-44), or at line 75 or 119 (uncaught). The model has only string columns, so in those cases it returns an empty table, an empty count or an empty grid instead of failing.
- `df.shape` and the other shape reports are not modelled.
