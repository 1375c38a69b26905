# Pizza sales dashboard: filter composition and topping vocabulary

The dashboard (`app.py`) loads a table of pizza order lines and offers three
sidebar controls: a multiselect over the pizza sizes seen in the data, a
multiselect over a topping vocabulary, and a slider over the unit price. It
shows the rows that survive all three controls. This project models the part
of the script that computes something:

- the **topping vocabulary**: each `pizza_ingredients` string is split on
  `", "`, the pieces of all rows are flattened, de-duplicated and sorted;
- the **filter pipeline**: the rows are narrowed in three successive
  boolean-mask selections (size membership, inclusive price range, and,
  only when some topping is selected, "the ingredients string contains at
  least one selected topping");
- the **sidebar defaults**: every observed size, no topping, and the price
  slider spanning the minimum and maximum unit price.

The script has no loop statements (its only iteration is the generator over
the selected toppings inside `.apply` at app.py:66, modelled as an
existential over the selection) and rebinds `df_filtered` rather than mutating it, so
the model is functional: rows are a `seq<OrderRecord>`, a pandas boolean-mask
selection is `Seqs.Select` over `Seqs.MaskOf`, and each stage is proved equal
to the order-preserving reference `Seqs.Filter`. The Python string operations the
script uses are written out: `topping in x` (app.py:66) is `Text.Contains`,
a substring test at some position; `str.split` (app.py:23) is `Text.Split`;
and `<` on strings inside `sorted` (app.py:24) is `Ordering.Less`,
lexicographic by character code with a proper prefix ordered first. `Text.Find` is the separator search
that `str.split` performs at app.py:23, and `Text.Join` exists only to state
the round trip of the split; the script calls neither `str.find` nor
`str.join`.

Modules: `Seqs` (subsequences, filter, mask selection, `unique`), `Text`
(substring, find, split, join), `Ordering` (string order, sorting),
`Dataset` (the order record and column reductions), `Toppings` (the
vocabulary), `Filters` (criteria, stages, pipeline, defaults) and
`FilterExamples` (concrete scenarios).

An empty size selection keeps no row (`Filters.NoSizeSelectsNothing`); the
default size selection is every observed size. The topping test is a
substring test, so "Onions" also matches "Red Onions"
(`Filters.ToppingIsSubstringTest`).

## Model

| member | source | states |
|---|---|---|
| Seqs.Filter | app.py:61-67 | the reference selection keeps exactly the elements satisfying the predicate, as a subsequence of the input (order kept, nothing added) |
| Seqs.Select | app.py:61 | `df[mask]` yields a subsequence of the rows that contains every row whose mask entry is true and nothing but rows whose mask entry is true, with as many rows as the mask has true entries |
| Seqs.SelectMaskOf | app.py:61-67 | selecting by the element-wise mask of a predicate equals the reference filter by that predicate |
| Seqs.FilterConjunction | app.py:61-67 | two successive selections equal one selection by the conjunction of their predicates |
| Seqs.FilterMonotone | app.py:62 | a weaker predicate keeps a supersequence of what a stronger one keeps |
| Seqs.FilterKeepsAll | app.py:64 | a predicate true of every row keeps the rows unchanged |
| Seqs.FilterExtensional | app.py:64-67 | predicates that agree on every row select the same rows |
| Seqs.SubsequenceLength | app.py:71 | a subsequence is never longer than its source, so a filtered count never exceeds the input count |
| Seqs.SubsequenceTransitive | app.py:61-67 | a subsequence of a subsequence is a subsequence |
| Seqs.Unique | app.py:24 | `unique()` returns each value of the input exactly once, nothing else, in input order |
| Text.Find | app.py:23 | the separator search inside `str.split` reports no position exactly when the separator is absent, otherwise its first occurrence |
| Text.Split | app.py:23 | `str.split(sep)` returns at least one piece; joining the pieces with `sep` gives the string back; no piece contains `sep`; each piece is a substring of the string |
| Text.SplitJoin | app.py:23 | splitting on a self-non-overlapping separator undoes joining pieces free of it |
| Text.MissingCharNotContained | app.py:66 | a string with a character absent from the text is not a substring of it |
| Text.ContainedInMiddle | app.py:66 | a string is a substring of any text it stands in the middle of |
| Ordering.LessIrreflexive | app.py:24 | Python's string `<` is irreflexive |
| Ordering.LessAsymmetric | app.py:24 | Python's string `<` is asymmetric |
| Ordering.LessTransitive | app.py:24 | Python's string `<` is transitive |
| Ordering.LessTotal | app.py:24 | any two different strings are ordered by `<` one way or the other |
| Ordering.Insert | app.py:24 | inserting into a sorted list keeps it sorted, adds exactly one copy of the element, and keeps it duplicate-free when the element was new |
| Ordering.Sort | app.py:24 | `sorted()` returns an ascending permutation of its input, duplicate-free when the input is |
| Ordering.AscendingUnique | app.py:24 | two strictly ascending lists with the same elements are equal |
| Dataset.MinPrice | app.py:51 | the minimum unit price is a price some row has and no row has a lower one |
| Dataset.MaxPrice | app.py:52 | the maximum unit price is a price some row has and no row has a higher one |
| Toppings.Pieces | app.py:23 | the exploded column holds exactly the pieces, split on ", ", of the rows' ingredients |
| Toppings.Vocabulary | app.py:23-24 | the vocabulary is strictly ascending (sorted, no duplicates) and holds exactly the pieces of the rows' ingredients |
| Toppings.VocabularyDetermined | app.py:24 | any strictly ascending list of exactly the rows' pieces is the vocabulary |
| Toppings.VocabularyEntryOccurs | app.py:23 | every vocabulary entry is a piece of, and a substring of, some row's ingredients |
| Toppings.DelimiterUnbordered | app.py:23 | the ", " delimiter cannot overlap itself |
| Toppings.SplitTwo | app.py:23 | two comma-free names joined by ", " split back into those two names |
| Toppings.VocabularyExample | app.py:23-24 | rows "Cheese, Basil" and "Basil, Mushroom" give the vocabulary Basil, Cheese, Mushroom |
| Filters.SizeStage | app.py:61 | the size stage keeps, in order, exactly the rows whose size is selected; an empty selection keeps nothing |
| Filters.PriceStage | app.py:62 | the price stage keeps, in order, exactly the rows with lo <= price <= hi, both ends included |
| Filters.ToppingStage | app.py:64-67 | with toppings selected, keeps exactly the rows whose ingredients contain at least one of them; with none selected, returns the rows unchanged |
| Filters.StagesAreConjunction | app.py:61-67 | the three stages in sequence equal one filter by the conjunction of the three criteria |
| Filters.ApplyFilters | app.py:61-67 | the filtered view is the subsequence of the rows meeting every criterion, in input order, never longer than the input; a row is in it exactly when it is an input row matching all criteria |
| Filters.StagesCommute | app.py:61-67 | any two stages give the same result in either order |
| Filters.ApplyFiltersIdempotent | app.py:61-67 | filtering the filtered view again with the same criteria changes nothing |
| Filters.NoSizeSelectsNothing | app.py:61 | with no size selected no row survives, whatever the other criteria |
| Filters.WiderPriceRangeKeepsRows | app.py:62 | widening the price interval keeps every previously surviving row, in order, so the count does not drop |
| Filters.MoreSizesKeepRows | app.py:61 | selecting more sizes keeps every previously surviving row, in order |
| Filters.MoreToppingsKeepRows | app.py:64-67 | adding toppings to a non-empty selection, or clearing it, keeps every previously surviving row, in order |
| Filters.ObservedSizes | app.py:36 | the size options are duplicate-free and are exactly the sizes some row has |
| Filters.DefaultsKeepEverything | app.py:36-58 | with the default criteria (all observed sizes, the full price span, no topping) the filtered view is the whole dataset |
| Filters.VocabularyToppingKeepsItsRows | app.py:66 | a piece of a row's ingredients is in the vocabulary, and selecting it as the only topping keeps that row |
| Filters.ToppingIsSubstringTest | app.py:66 | the topping test is a substring test: "Onions" selects a row whose only ingredient is "Red Onions", although "Onions" is not one of its pieces |
| FilterExamples.ToppingOrExample | app.py:64-67 | a row with "Cheese, Pepperoni, Basil" survives the topping selection Basil, a row with "Cheese, Mushroom" does not |
| FilterExamples.EndToEndExample | app.py:61-67 | rows (M, 9.5, Cheese/Basil), (L, 12.0, Cheese/Pepperoni), (M, 15.0, Basil/Mushroom) under size M, price [9, 16], topping Basil leave the first and third rows |

## Left out

- Streamlit presentation: page configuration, titles, headers, `st.write`, `st.dataframe` and the widgets themselves (app.py:7-9, 30-33, 69-82). The widget outputs are parameters of the model (`Filters.Criteria`); the defaults are `Filters.DefaultCriteria`.
- Widget behaviour: the multiselects restrict choices to their options and the slider to [min, max]; the model accepts any criteria, which covers every value the widgets can produce.
- Caching with `st.cache_data` and reading `pizza_sales.csv` (app.py:12-17): file I/O; the rows are an input of the model.
- Date parsing and the month and weekday columns (app.py:20, 27-28), the `strftime` display copy and `head()` (app.py:73-77), and `describe()` (app.py:80): none of them feeds the filters or the vocabulary, and they involve calendar and floating-point statistics.
- The final `print` (app.py:84) and the unused imports (app.py:3-5).
- Columns other than size, unit price and ingredients, and the pandas index labels: a row is the value of its three modelled columns, and order is captured by subsequence.
- Missing values: a NaN ingredients cell and NaN prices are not modelled; every cell holds a value. A NaN ingredients cell would already break app.py:24: the split yields NaN, `unique()` keeps it, and `sorted` raises TypeError comparing a float NaN with a string, before any filter runs (later, the topping lambda at app.py:66 would raise too).
- Unit prices and slider bounds are exact reals rather than 64-bit floats; the filters only compare a price with a bound, and comparing two doubles gives the same answer as comparing their exact values.
- pandas reads a split pattern longer than one character as a regular expression; ", " contains no metacharacter, so it splits like Python's `str.split(", ")`, which is what is modelled.
- Strings are sequences of Dafny characters, compared by character code, which matches Python's code-point comparison for the characters the data uses.
- Dataset.MinPrice and Dataset.MaxPrice require a non-empty dataset: pandas returns NaN for an empty column, which is not modelled; `Filters.DefaultsKeepEverything` therefore requires a non-empty dataset too.
- Seqs.Select: its contract gives the subsequence, the kept and dropped values and the count; that each true position is kept exactly once, in order, even among equal rows, is stated only through `Seqs.SelectMaskOf`, which pins the result for every mask the script builds (each is the element-wise mask of a predicate).
- Seqs.Unique: states that the result is a duplicate-free subsequence of the input with the same elements; that each value sits at its first occurrence is not stated (the vocabulary is sorted afterwards, and the size filter only tests membership).
- Filters.ObservedSizes: the order of the size options is not stated; only the elements matter to the size filter.
- An empty frame after the price stage with some topping selected: pandas' `apply` (app.py:66) then yields an empty object-typed Series, which `df_filtered[...]` at app.py:67 reads as a list of column names, so the frame loses its columns and the later `df_display['order_date']` (app.py:75) fails. The model only tracks rows, which are empty either way.
- Filters.MoreToppingsKeepRows: does not cover adding toppings to an empty selection, since that switches the topping stage on and can remove rows.
