# Beastmaster's Ledge: a verified model of the monster dashboard core

`hello.py` is a dashboard script over a table of fantasy monsters. This
project models the parts of it that compute something, and proves what
those computations promise:

- **Challenge-rating parsing** (`parse_cr`, module `CrParser`). A text
  CR containing `/` goes to `Fraction` outside the `try` block. Every
  other value goes through `float` inside `try: ... except: return None`.
- **Derived columns** (module `Bestiary`). `cr_num` is `parse_cr` applied
  row by row, and `survivability` is `ac * hp`.
- **The filter stage** (module `Bestiary`). Six inclusive range bounds
  on AC, HP and CR, then an optional "Legendary Only" mask.
- **Reports** (module `Reports`):
  - the per-sourcebook counts, with null sources under "Unknown";
  - the size-by-type heatmap over the ten most frequent types, with
    absent pairs filled as 0;
  - the ten most and ten least durable monsters.

Module `Seqs` holds the generic table operations these reports use:
boolean-mask selection, stable descending sort, `nlargest`/`nsmallest`,
the `groupby`/`count` frequency table, and the pivot. Module `Wrappers`
holds `Option` and `Result`.

Three behaviours of the code are worth stating plainly:

- `parse_cr` calls `Fraction` outside its `try` (lines 8-9). So "1/0"
  raises `ZeroDivisionError`, "x/y" raises `ValueError`, and either one
  aborts the whole derivation of `cr_num` at line 26
  (`CrParser.ZeroDenominatorExample`, `CrParser.MalformedExample`,
  `Bestiary.DeriveColumns`). Only the `float` branch falls back to None.
- A row whose `cr_num` is missing fails both CR comparisons (lines
  94-95). So even the widest bounds drop it, and the default filter does
  not show the whole table (`Bestiary.FullRangeKeepsParsedRows`).
- The source counts are taken over `name` (line 163), so they add up to
  the number of rows with a non-null name, not to the number of rows
  (`Reports.SourceCountsSpec`).

## Model

| member | source | states |
|---|---|---|
| CrParser.ParseCr | hello.py:7-13 | On text with '/': the result is an exception or a number, never None, and it is ValueError exactly when the text is not a well-formed fraction. On anything else: it never raises. Text without '/' gives float(text), a number is kept, and null gives None. |
| CrParser.ParseFraction | hello.py:8-9 | `Fraction(s)`: ValueError exactly when `s` is not `[+-]digits/digits`; ZeroDivisionError when the denominator is 0; otherwise the exact quotient of the two parts. |
| CrParser.FractionRoundTrip | hello.py:8-9 | The CR text written as `a/b` parses to exactly a/b when b > 0, and raises ZeroDivisionError when b = 0. |
| CrParser.QuarterExample | hello.py:8-9 | "1/4" parses to 0.25. |
| CrParser.ZeroDenominatorExample | hello.py:8-9 | "1/0" raises ZeroDivisionError; it does not give None. |
| CrParser.MalformedExample | hello.py:8-9 | "x/y" raises ValueError; it does not give None. |
| Bestiary.DeriveColumns | hello.py:26-27 | The derivation succeeds exactly when no row's CR raises. On success there is one row per monster, the monster's columns unchanged, `cr_num` = parse_cr(cr) and survivability = ac*hp. On failure the error is that of a raising row with no raising row before it. |
| Bestiary.SurvivabilityExample | hello.py:26-27 | A monster with AC 15, 20 HP and CR "1/4" gets cr_num 0.25 and survivability 300. |
| Bestiary.Filtered | hello.py:88-98 | The filter stage as one mask: as many rows as match, each of them matching. `FilteredSpec` adds that they are the matching rows in their original order, and `FilterIdempotent` that filtering again changes nothing. |
| Bestiary.ApplyFilters | hello.py:88-98 | The step-by-step filter (copy, range mask, then the legendary mask when ticked) yields exactly the single-mask selection `Filtered`. |
| Bestiary.FilteredSpec | hello.py:89-98 | The filtered table is an order-preserving subsequence of the table, with as many rows as match, so it holds every matching row once per occurrence. A row is in it exactly when it is in the table and matches. Every kept row lies within all six bounds, inclusive, has a parsed CR, and is "Legendary" when the checkbox is ticked. |
| Bestiary.FilterIdempotent | hello.py:88-98 | Filtering the filtered table with the same criteria changes nothing. |
| Bestiary.MissingCrNeverKept | hello.py:94-95 | No row with a missing `cr_num` is kept, whatever the bounds. |
| Bestiary.FullRangeKeepsParsedRows | hello.py:89-96 | With the checkbox off and bounds spanning every row, the filter keeps exactly the rows whose CR parsed, in order. |
| Bestiary.LegendaryIgnoredWhenOff | hello.py:97-98 | With the checkbox off, two tables that differ only in the `legendary` column filter to tables that differ only there. |
| Bestiary.ExactAcExample | hello.py:90-91 | Bounds AC 10..10 keep an otherwise matching AC-10 row and drop an AC-11 row. |
| Seqs.Select | hello.py:89-98 | A boolean mask keeps exactly the elements satisfying it, as many of them as there are in the input. |
| Seqs.SelectIsSubsequence | hello.py:89-96 | A masked selection is an order-preserving subsequence of its input. |
| Seqs.SelectThenSelect | hello.py:97-98 | Masking with p and then with q equals masking once with p ∧ q. |
| Seqs.SortDesc | hello.py:164 | `sort_values(ascending=False)`: a permutation of the input, sorted non-increasing by the key. |
| Seqs.Largest | hello.py:220 | `nlargest(n)`: min(n, size) elements taken from the input (a sub-multiset), sorted non-increasing, none smaller than an element left out. |
| Seqs.Smallest | hello.py:221 | `nsmallest(n)`: min(n, size) elements taken from the input, sorted non-decreasing, none larger than an element left out. |
| Seqs.Tally | hello.py:162-163 | `groupby(key).agg(count)`: no key listed twice. `TallySpec` states the keys, the counts and their total. |
| Seqs.TallySpec | hello.py:162-163 | `groupby(key).agg(count)`: one entry per key occurring in the rows. Each entry holds the number of counted rows with that key. The counts add up to the number of counted rows. |
| Seqs.Pivot | hello.py:194-195 | `pivot(...).fillna(0)`: a grid with one row per row label and one cell per column label. `HeatmapCells` states what each cell holds. |
| Seqs.TopLabelsCount | hello.py:189 | The `n` largest groups of a frequency table number min(n, #groups). |
| Seqs.TopLabelsDistinct | hello.py:189 | The labels of the `n` largest groups are pairwise distinct. |
| Seqs.TopLabelsAreKeys | hello.py:189 | Each label of the `n` largest groups is a key of the table. |
| Seqs.TopLabelsDominate | hello.py:189 | No group among the `n` largest has a smaller count than a group left out. |
| Reports.SourceCounts | hello.py:159-165 | The per-source counts: a permutation of the groupby-count table, sorted non-increasing by count. `SourceCountsSpec` states the entries and their total. |
| Reports.SourceCountsSpec | hello.py:159-165 | One entry per source, with null sources under "Unknown". Each entry holds the number of named rows of that source. The list is sorted non-increasing, and the counts sum to the number of rows with a non-null name. |
| Reports.UnknownCollectsNullSources | hello.py:161-163 | The "Unknown" count is the number of named rows with a null source plus those whose source is literally "Unknown". |
| Reports.NullSourceListedAsUnknown | hello.py:161 | If any row has a null source, "Unknown" appears among the source labels. |
| Reports.TopTypes | hello.py:189 | `value_counts().nlargest(n).index`: at most `n` types. `TopTypesCount`, `TopTypesDistinct`, `TopTypesOccur` and `TopTypesDominate` state exactly which ones. |
| Reports.TopTypesCount | hello.py:189 | `value_counts().nlargest(10).index` holds min(10, #types) types. |
| Reports.TopTypesDistinct | hello.py:189 | The top types are pairwise distinct. |
| Reports.TopTypesOccur | hello.py:189 | Each top type is the type of some row. |
| Reports.TopTypesDominate | hello.py:189 | No top type occurs less often than a type left out. |
| Reports.TypeSizeHeatmap | hello.py:189-196 | The heatmap is a grid, one row of counts per size and one count per type. `HeatmapSizes`, `HeatmapTypes` and `HeatmapCells` state its labels and every cell. |
| Reports.HeatmapGrid | hello.py:192-195 | The pivot is a grid with one row per size and one cell per type, and its size and type labels have no repeats. |
| Reports.HeatmapSizes | hello.py:191-194 | The heatmap's sizes are exactly the sizes of monsters whose type is a top type. |
| Reports.HeatmapTypes | hello.py:189-194 | The heatmap's types are exactly the top types. |
| Reports.HeatmapCell | hello.py:191-193 | For a top type, a (size, type) count among the top-type rows equals its count in the whole table. |
| Reports.HeatmapCells | hello.py:190-196 | Every cell holds the number of named monsters of that size and type in the whole table, and 0 where there are none. |
| Reports.TopSurvivors | hello.py:220 | `nlargest(10, 'survivability')`: min(10, size) rows of the table, most durable first, and no row left out is more durable than a row kept (ties allowed). `TopBeatsRest` makes this strict when survivabilities are distinct. |
| Reports.BottomSurvivors | hello.py:221 | `nsmallest(10, 'survivability')`: min(10, size) rows of the table, least durable first, and no row left out is less durable than a row kept (ties allowed). `BottomUnderRest` makes this strict when survivabilities are distinct. |
| Reports.TopBeatsRest | hello.py:220 | With distinct survivabilities, every row left out of the top ten is strictly less durable than each row in it. |
| Reports.BottomUnderRest | hello.py:221 | With distinct survivabilities, every row left out of the bottom ten is strictly more durable than each row in it. |
| Reports.TopAndBottomDisjoint | hello.py:220-221 | With at least twenty rows of distinct survivability, the top ten and the bottom ten have ten rows each and share none. |
| Reports.SmallTableCovered | hello.py:220-221 | With fewer than twenty rows of distinct survivability, every row is in the top ten or the bottom ten, so the two tables show the whole table. |

## Left out

- The user interface, the data loading and the renderings: the `connect`, `get_df`, `sidebar`, `text`, `slider`, `checkbox` and `table` calls; the chart constructors `px.bar` (line 116), `px.line_polar` (136), `px.violin` (148), `px.pie` (166), `px.box` (178) and `px.imshow` (197, 210); and the `plotly(...)` display calls. All of them are I/O or calls into the charting library.
- The slider ranges and defaults derived from column minima and maxima (lines 33-80). The bounds are parameters of `Criteria`.
- The displayed table's `SHOW_COLS` projection, and the "no matches" message.
- The chart inputs that are floating-point aggregates feeding charts only: the per-type mean survivability (lines 110-115), the per-size mean ability scores (lines 127-135), the alignment/CR rows for the violin plot (line 147), the Legendary/Common fill of the box plot (line 177) and the correlation matrix (lines 208-209). The ability-score columns are not part of the model.
- CrParser.ParseCr: `float(text)` for text without '/' is the parameter `floatOfText`. Python's float grammar is not modelled, only that the branch returns its value or None and never raises.
- CrParser.ParseFraction: accepts only `[+-]?digits/digits` with ASCII digits. Python's `Fraction` also accepts whitespace before and after the text, whitespace around the '/' itself in recent Python versions ("1 / 4"), underscores between digits and non-ASCII digits; the model treats those texts as malformed.
- CrParser.ParseCr: floating-point numbers are modelled as exact rationals. NaN or infinite CR values, rounding in `float(Fraction)`, and its overflow for huge fractions are not modelled.
- CrParser.ParseCr: a CR cell is text, a number or null. Other Python objects in the column are not modelled. A null cell ends as a missing `cr_num`, whether pandas holds it as None or NaN.
- Bestiary.DeriveColumns: `ac` and `hp` are unbounded integers that are never null. int64 overflow of `ac * hp` and NaN propagation from a missing AC or HP are not modelled.
- Seqs.Largest: the contract does not fix how ties are ordered. The model's sort is stable, but pandas' tie order in `nlargest`/`nsmallest` (`keep='first'`) is not stated.
- Seqs.SortDesc: `sort_values` in pandas is not guaranteed stable for ties. The contract states only order and permutation.
- Seqs.TallySpec: `groupby` in pandas lists groups in sorted key order. The model lists them in order of first appearance from the end, and the contracts do not depend on group order. The heatmap's row and column order is likewise not modelled.
- Reports.HeatmapCells: the pivot's labels are modelled as strings that are never null. Pandas drops groups with a null size or type; that case is not modelled.
