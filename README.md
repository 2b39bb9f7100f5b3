# A verified model of a book-catalogue site's data layer

The site publishes a catalogue of books, mostly in Spanish. Each book has a
title, author(s), year, type, themes, language, original language, saga,
upload date and an "edited" flag. A second table lists authors with their
sex and country. The site's pages all work on these two fixed tables:

- **Search page** (`components/GenerateTable.tsx`). The filter record is
  read from the URL query and written back to it. Books are kept when they
  pass every filter, and the sex and country filters work through a join
  against the author table. A column sort toggles on each click. The
  sidebar offers option lists: every distinct theme, and the
  case-insensitively distinct values of one column.
- **Older table** (`components/TableFetch.tsx`). Nearly the same page: nine
  filters, no author join, and a `String(book.Editado)` comparison.
  `updateFilter` pushes the new query to the router right away. The option
  lists are the distinct values, without case folding.
- **Alphabetical index** (`components/GenerateIndex.tsx`). The books with
  no saga, together with one group per saga, are bucketed under a heading
  letter (A–Z, Ñ or #). Each bucket is sorted by a letters-and-digits key.
  The books inside a saga are ordered by the "(#n)" number in their title.
- **Statistics page** (`components/GenerateGraphics.tsx`). Counts per
  publication year (years with fewer than two books are dropped), per
  upload month, per type, language and original language, the ten most
  frequent themes, and per-type upload series.
- **Report limiter** (`utils/reportLimiter.ts`). A day→count record that
  allows one error report per day.
- **Theme switcher** (`components/ThemeSwitcher.tsx`). Cycles through four
  colour themes and remembers the choice.

The Dafny model has one module per concern:

- **Helpers of the JavaScript runtime the pages rely on:**
  - `JsString`: `trim`, `split`, `join`, `includes`, decimal digits, `padStart(2, "0")`.
  - `Unicode`: an explicit excerpt of the case and decomposition tables, plus `\p{Letter}`.
  - `JsNumber`: the grammar behind `isNaN(Number(s))`.
  - `JsDate`: `new Date(y, m, d)` normalisation and the `Date(y,m,d)` pattern.
  - `Ordering`: total preorders, UTF-16 code-unit order for the default `sort()`, and `sort` as a stable insertion sort.
- **Generic pieces:**
  - `Wrappers`: `Option`.
  - `Seqs`: filter, map, dedup, count.
  - `Tally`: insertion-ordered counters, the `conteo[k] = (conteo[k] || 0) + 1` records.
  - `Themes`: the comma-separated theme column.
  - `QueryCodec`: parse and serialise a filter record over a list of keys.
  - `TableSort`: the sort configuration and the sorted copy.
- **The pages:** `SearchTable`, `LegacyTable`, `LetterIndex`, `Statistics`, `ReportLimiter` and `ThemeSwitcher`.

`localeCompare` is not modelled as a fixed table. It is a parameter
`collate`, where `collate(a, b)` means `a.localeCompare(b) <= 0`. Every
ordering claim requires `collate` to be a total preorder.

## Model

| member | source | states |
|---|---|---|
| QueryCodec.GetSetParam | components/GenerateTable.tsx:79-81 | `params.set` replaces the one name's value and leaves every other name's lookup unchanged |
| QueryCodec.Decode | components/GenerateTable.tsx:59-72 | `parseQuery` yields one value per declared key |
| QueryCodec.ParseQuery | components/GenerateTable.tsx:59-72 | the key-by-key loop computes `Decode`, which reads a missing or empty parameter as the default, splits and trims the theme key, and takes any other key as it is |
| QueryCodec.DecodeWellFormed | components/GenerateTable.tsx:59-72 | a parsed record always has a list under the theme key and a string under every other key |
| QueryCodec.DecodeIgnoresUnknown | components/GenerateTable.tsx:61-62 | only the declared keys are read: two queries that agree on them parse to the same record |
| QueryCodec.DecodeExtraParam | components/GenerateTable.tsx:62 | an appended parameter with an unknown or already present name changes nothing, because `get` returns the first value |
| QueryCodec.SerializeFilters | components/GenerateTable.tsx:74-85 | the key loop computes `Encode`: a non-empty theme list joined with ",", a non-blank string as is, everything else omitted |
| QueryCodec.GetEncodeAt | components/GenerateTable.tsx:76-83 | the serialised query holds, under each key, exactly that key's encoded value |
| QueryCodec.GetEncodeUnknown | components/GenerateTable.tsx:74-85 | the serialised query holds no name outside the record's keys |
| QueryCodec.EncodeDefaults | components/GenerateTable.tsx:45-57 | the default record serialises to the empty query |
| QueryCodec.ValueRoundTrip | components/GenerateTable.tsx:64-67 | a value survives serialise-then-parse if and only if it is canonical: "" or non-blank text; an empty list or trimmed comma-free themes other than [""] |
| QueryCodec.RoundTrip | components/GenerateTable.tsx:59-85 | `parseQuery(serializeFilters(f)) == f` if and only if every value of `f` is canonical |
| QueryCodec.UrlUpdate | components/GenerateTable.tsx:97-108 | the effect skips exactly when the serialised filters equal the serialised parse of the current URL; otherwise it writes the serialised filters |
| QueryCodec.SkipIffSameFilters | components/GenerateTable.tsx:101 | for canonical records on both sides, comparing serialisations is the same as comparing records |
| QueryCodec.WrittenQuerySkips | components/GenerateTable.tsx:97-104 | after the query written from canonical filters is in the URL, the next run of the effect skips |
| SearchTable.FromToValues | components/GenerateTable.tsx:30-57 | the typed filter record and its key-by-key form are interchangeable |
| SearchTable.ToFromValues | components/GenerateTable.tsx:30-57 | every well-formed key-by-key record is a typed filter record |
| SearchTable.DefaultValues | components/GenerateTable.tsx:45-57 | `defaultFilters` is "" under every key and no themes |
| SearchTable.Parse | components/GenerateTable.tsx:59-72 | each of the eleven keys is read on its own from the query's first parameter of that name |
| SearchTable.ParseQuery | components/GenerateTable.tsx:59-72 | the loop computes `Parse` |
| SearchTable.SerializeFilters | components/GenerateTable.tsx:74-85 | the loop computes `Serialize` |
| SearchTable.SerializeDefaults | components/GenerateTable.tsx:45-57 | the default filters serialise to the empty query |
| SearchTable.CanonicalValues | components/GenerateTable.tsx:59-85 | a typed record is canonical exactly when each of its values is |
| SearchTable.FiltersRoundTrip | components/GenerateTable.tsx:59-85 | `parseQuery(serializeFilters(f)) == f` if and only if `f` is canonical |
| SearchTable.UrlUpdate | components/GenerateTable.tsx:97-108 | the search page's skip-or-write decision over typed filters |
| SearchTable.SkipIffSameFilters | components/GenerateTable.tsx:101 | with canonical filters, the effect skips exactly when the URL already holds the same filters |
| SearchTable.UpdateFilter | components/GenerateTable.tsx:137-139 | `updateFilter` replaces only the given key; every other key keeps its value |
| SearchTable.UpdateFilterQuery | components/GenerateTable.tsx:137-139 | after `updateFilter(key, v)` the next serialisation holds `v` under the key (nothing if `v` is blank), and every other key's parameter is unchanged |
| SearchTable.FindAuthor | components/GenerateTable.tsx:161 | `find` returns None exactly when no author's name matches case-insensitively; otherwise it returns the first author whose name matches |
| SearchTable.AuthorData | components/GenerateTable.tsx:158-163 | the found author records are exactly those `find` returns for some co-author name |
| SearchTable.FilteredData | components/GenerateTable.tsx:141-175 | the result is a subsequence of the table; a book is in it exactly when it is in the table and passes every per-book filter and the sex and country joins; a passing row keeps every copy the table has and a failing row none |
| SearchTable.DefaultsPassAll | components/GenerateTable.tsx:141-175 | with the default filters every book is kept |
| SearchTable.FilterTwice | components/GenerateTable.tsx:141-175 | filtering is idempotent |
| SearchTable.ThemesAreAllOf | components/GenerateTable.tsx:149 | a book tagged "Drama, Historia" passes the theme filter ["Drama","Historia"] but not ["Drama","Comedia"] (all selected themes are needed) |
| SearchTable.HasThemesOf | components/GenerateTable.tsx:149 | the theme filter passes exactly when every selected theme is among the book's trimmed themes |
| SearchTable.PublicationIsSubstring | components/GenerateTable.tsx:147 | the publication filter is a substring test: "198" keeps 1983 and 1980 but not 1998 |
| SearchTable.UnmatchedAuthorsFail | components/GenerateTable.tsx:165-171 | when no co-author is in the author table, a non-empty sex or country filter rejects the book |
| SearchTable.SexoJoin | components/GenerateTable.tsx:158-167 | the sex filter passes exactly when some co-author's first matching author record has that sex |
| SearchTable.WeakerMatches | components/GenerateTable.tsx:144-173 | clearing filters never rejects a book that passed before |
| SearchTable.ClearingWidens | components/GenerateTable.tsx:141-175 | the result under stricter filters is a subsequence of, and a refiltering of, the result under weaker ones |
| SearchTable.ThemesSet | components/GenerateTable.tsx:110-119 | `themesSet` is the code-unit-sorted list of the distinct non-empty trimmed themes; it is sorted, has no duplicates, and holds exactly the themes that occur |
| SearchTable.FirstByKeyKeys | components/GenerateTable.tsx:121-135 | the option record's keys are the distinct normalised values in first-seen order |
| SearchTable.FirstByKeyValues | components/GenerateTable.tsx:128-130 | each option's shown value is the trimmed first value that has that normalised key |
| SearchTable.FillByKey | components/GenerateTable.tsx:122-132 | the loop with `has` and `set` builds that first-by-key record |
| SearchTable.OptionsSet | components/GenerateTable.tsx:121-135 | `optionsSet(field)` is the code-unit-sorted permutation of the first-seen trimmed value of each normalised value |
| SearchTable.OptionKeysDistinct | components/GenerateTable.tsx:126-129 | at most one option per trimmed lower-cased value |
| SearchTable.OptionIsFirstValue | components/GenerateTable.tsx:128-129 | each option is the trimmed form of the first book value that has its key |
| SearchTable.SortedBooks | components/GenerateTable.tsx:180-192 | with no sort configured the rows are unchanged; otherwise they are the stable sort by the configured column and direction, a permutation, and sorted |
| LegacyTable.FromToValues | components/TableFetch.tsx:23-45 | the older page's filter record and its key-by-key form are interchangeable |
| LegacyTable.ToFromValues | components/TableFetch.tsx:23-45 | every well-formed key-by-key record is an older-page filter record |
| LegacyTable.DefaultValues | components/TableFetch.tsx:35-45 | the defaults are "" under every key and no themes under `Tema` |
| LegacyTable.Parse | components/TableFetch.tsx:47-60 | each of the nine keys is read on its own, with `Tema` split and trimmed |
| LegacyTable.ParseQuery | components/TableFetch.tsx:47-60 | the loop computes `Parse` |
| LegacyTable.SerializeFilters | components/TableFetch.tsx:62-73 | the loop computes `Serialize` |
| LegacyTable.SerializeDefaults | components/TableFetch.tsx:35-45 | the defaults serialise to the empty query |
| LegacyTable.CanonicalValues | components/TableFetch.tsx:47-73 | a record is canonical exactly when each of its values is |
| LegacyTable.FiltersRoundTrip | components/TableFetch.tsx:47-73 | parse after serialise gives the record back if and only if it is canonical |
| LegacyTable.Apply | components/TableFetch.tsx:106 | `{ ...filters, [key]: value }` replaces only the given key |
| LegacyTable.ApplySame | components/TableFetch.tsx:106 | setting a key to its current value changes nothing |
| LegacyTable.ApplyOverride | components/TableFetch.tsx:106 | a later update of a key overrides an earlier one |
| LegacyTable.ApplyCommutes | components/TableFetch.tsx:106 | updates of different keys commute |
| LegacyTable.UpdateFilter | components/TableFetch.tsx:105-110 | the new filters are the updated record, and the pushed query is their serialisation |
| LegacyTable.FilteredData | components/TableFetch.tsx:112-126 | a subsequence of the table holding exactly the books that pass all nine filters, each passing row with as many copies as in the table |
| LegacyTable.DefaultsPassAll | components/TableFetch.tsx:112-126 | with the defaults every book is kept |
| LegacyTable.FilterTwice | components/TableFetch.tsx:112-126 | filtering is idempotent |
| LegacyTable.EditadoFilter | components/TableFetch.tsx:123 | `String(book.Editado) === filters.Editado`: only "true" and "false" can match, and each selects the books with that flag |
| LegacyTable.TemasSet | components/TableFetch.tsx:83-92 | `temasSet` is the sorted list of the distinct non-empty trimmed themes, holding exactly the themes that occur |
| LegacyTable.NoEditadoOptions | components/TableFetch.tsx:97-99 | `opcionesSet("Editado")` collects nothing, because that column holds booleans, not strings |
| LegacyTable.DistinctStrings | components/TableFetch.tsx:95-101 | the `forEach` into the `Set` collects each string value of the column once, in first-seen order |
| LegacyTable.OpcionesSet | components/TableFetch.tsx:94-103 | `opcionesSet(field)` is the sorted list of the column's distinct string values, holding exactly those values |
| LegacyTable.SortedBooks | components/TableFetch.tsx:131-143 | unchanged with no sort; otherwise the stable, sorted permutation by the configured column and direction |
| TableSort.ToggleSort | components/GenerateTable.tsx:194-208 | the clicked column becomes the sort key; on the same column the direction flips, on any other column it is ascending |
| TableSort.ToggleSortTwice | components/GenerateTable.tsx:196-200 | two clicks on the sorted column restore its configuration |
| TableSort.ClicksAlternate | components/GenerateTable.tsx:194-208 | n clicks on one column from no sort give ascending after an odd n and descending after an even n |
| TableSort.ComparatorIsTotalPreorder | components/GenerateTable.tsx:183-189 | the column comparator, in either direction, is a total preorder when `localeCompare` is one |
| TableSort.SortedData | components/GenerateTable.tsx:180-192 | the copy is unchanged with no sort; otherwise it is the stable sort, a permutation, and sorted by the comparator |
| Ordering.SortCopy | components/GenerateTable.tsx:181-183 | sorting a copy gives the stable insertion sort of the rows |
| Ordering.SortInPlace | components/GenerateIndex.tsx:76 | the in-place `sort` leaves the array holding the stable insertion sort of its old contents |
| Ordering.StableSortIsUnique | components/GenerateTable.tsx:183-189 | any sorted, stable permutation equals the modelled sort, so the model does not depend on which stable algorithm the engine uses |
| Ordering.SortBySorted | components/GenerateIndex.tsx:76 | the sort's result is sorted under any total preorder |
| Ordering.SortByStable | components/GenerateIndex.tsx:76 | the sort keeps elements that compare equal in their input order |
| Ordering.CodeUnitLeIsTotalPreorder | components/GenerateTable.tsx:118 | the default `sort()` order, by UTF-16 code units, is a total preorder |
| Ordering.DistinctSorted | components/GenerateTable.tsx:118 | `Array.from(set).sort()` is strictly increasing and holds exactly the collected values |
| Ordering.SortCodeUnits | components/GenerateTable.tsx:118 | `sort()` with no comparator gives the stable sort of the strings by UTF-16 code units |
| Ordering.LexLeFirstDifference | components/GenerateTable.tsx:118 | two code-unit sequences that agree up to a position are ordered by their first differing unit |
| Ordering.InsertIntoPrefix | components/GenerateIndex.tsx:76 | one insertion step of the in-place sort puts the next element into the sorted prefix exactly where `Insert` would, and leaves the rest of the array as it was |
| Ordering.ShiftLarger | components/GenerateIndex.tsx:76 | the shifting loop moves up by one place exactly the trailing run of the prefix that sorts after the element, and stops at an element that does not |
| Tally.TallyKeys | components/GenerateGraphics.tsx:41-49 | the counter record's keys are the distinct items in first-seen order |
| Tally.TallyLookup | components/GenerateGraphics.tsx:45 | each key's count is its number of occurrences |
| Tally.TallySum | components/GenerateGraphics.tsx:56-64 | the counts add up to the number of items |
| Themes.ThemesOfShape | components/GenerateTable.tsx:113-115 | every collected theme is non-empty, trimmed and comma-free |
| Themes.ThemesOfInThemeList | components/GenerateTable.tsx:113-115 | a theme is collected exactly when it is a non-empty trimmed comma piece |
| Themes.AddThemes | components/GenerateTable.tsx:112-117 | each book's `forEach` adds its new themes to the set in first-seen order |
| Themes.ThemesSet | components/GenerateTable.tsx:110-119 | the sorted distinct themes of a theme column |
| JsNumber.DigitsAreNumeric | components/GenerateGraphics.tsx:44 | a string of decimal digits passes `!isNaN(Number(s))` |
| JsNumber.NumericOfTrim | components/GenerateGraphics.tsx:194 | `Number` ignores surrounding white space |
| JsNumber.BlankIsNumeric | components/GenerateGraphics.tsx:44 | a blank string is numeric (`Number("") == 0`), which is why the year check also needs `año` to be non-empty |
| JsNumber.LetterIsNotNumeric | components/GenerateGraphics.tsx:44 | a word of letters outside the hex and infinity grammar is not numeric |
| JsDate.MakeDate | components/GenerateGraphics.tsx:37 | `new Date(y, m, d)` always yields a valid calendar date |
| JsDate.MakeDateInRange | components/GenerateGraphics.tsx:37 | an in-range year, month and day are kept as given |
| JsDate.MakeDateTwoDigitYear | components/GenerateGraphics.tsx:37 | a year 0–99 means 1900 plus that year |
| JsDate.MakeDateMonthCarry | components/GenerateGraphics.tsx:37 | a month of 12 or more carries into the year |
| JsDate.FirstMatch | components/GenerateGraphics.tsx:34 | the unanchored `match` finds nothing exactly when the pattern occurs nowhere, and otherwise returns the captures of its leftmost occurrence |
| JsDate.FirstMatchLeftmost | components/GenerateGraphics.tsx:34 | whichever position is the leftmost occurrence, `match` returns the captures found there |
| JsDate.ParseFechaSubida | components/GenerateGraphics.tsx:33-38 | None exactly when the text holds no `Date(digits,digits,digits)`; otherwise a valid date with a full year |
| JsDate.ParseFechaSubidaLeftmost | components/GenerateGraphics.tsx:33-38 | a parsed date is `new Date(year, month, day)` of the digit groups of the leftmost occurrence of the pattern |
| JsDate.ParseOfMatch | components/GenerateGraphics.tsx:33-38 | for the leftmost occurrence at any position, the parse is the date built from its three digit groups |
| JsDate.MonthKey | components/GenerateGraphics.tsx:177-178 | the month key is the year, a dash, and the 1-based month in two digits |
| JsDate.MonthKeyInjective | components/GenerateGraphics.tsx:177-178 | two dates share a month key if and only if they share the year and the month |
| JsDate.ParseExample | components/GenerateGraphics.tsx:33-38 | "Date(2023,4,15)" parses to 15 May 2023 (months count from 0) |
| Statistics.ChartOf | components/GenerateGraphics.tsx:49-50 | the sorted keys of a counter record are the code-unit-sorted distinct items, each with its count |
| Statistics.GenerarDatosPorAnio | components/GenerateGraphics.tsx:40-53 | the years are the sorted distinct numeric non-empty items, and each count is that year's number of occurrences |
| Statistics.PieKey | components/GenerateGraphics.tsx:59 | the key of an item is non-empty and trimmed |
| Statistics.PieKeyOfBlank | components/GenerateGraphics.tsx:59 | "Sin especificar" for a blank item, the trimmed item otherwise |
| Statistics.GenerarDatosPie | components/GenerateGraphics.tsx:55-64 | the labels are the distinct keys in first-seen order; each count is the number of items with that key (at least 1); the counts add up to the number of items |
| Statistics.PieFacts | components/GenerateGraphics.tsx:56-64 | the keys and values of the pie's counter record form the pie: distinct trimmed non-blank labels in first-seen order, each with its number of occurrences, adding up to the number of items |
| Statistics.ConteoMeses | components/GenerateGraphics.tsx:173-189 | the sorted distinct upload months, each counted by its number of books |
| Statistics.SubidasMesesLength | components/GenerateGraphics.tsx:173-180 | one month per book whose upload date parses, and none for the others |
| Statistics.FiltrarFrecuentes | components/GenerateGraphics.tsx:199-207 | the kept (year, count) pairs are exactly the pairs with count at least 2, in order |
| Statistics.FrequentCounts | components/GenerateGraphics.tsx:202-206 | every kept year appears at least twice, with its true count |
| Statistics.FrequentComplete | components/GenerateGraphics.tsx:202-206 | every year that appears at least twice is kept |
| Statistics.FrequentSorted | components/GenerateGraphics.tsx:199-207 | the kept years stay sorted and distinct |
| Statistics.FrequentOfChart | components/GenerateGraphics.tsx:196-207 | the kept years are sorted, distinct, exactly the years with two or more books, and carry their counts |
| Statistics.PublicationChart | components/GenerateGraphics.tsx:192-207 | the publication chart is the sorted distinct trimmed numeric years appearing at least twice, with their counts |
| Statistics.MoreFrequentIsTotalPreorder | components/GenerateGraphics.tsx:96 | `b[1] - a[1]` orders by descending count as a total preorder |
| Statistics.BumpAll | components/GenerateGraphics.tsx:90-92 | counting one item's themes extends the counter record by exactly those themes |
| Statistics.ConteoTemas | components/GenerateGraphics.tsx:83-93 | the theme counter record is the tally of all non-empty trimmed themes |
| Statistics.GenerarDatosTopTemas | components/GenerateGraphics.tsx:82-100 | the labels and counts are the first `topN` entries of the by-count stable sort of the theme tally |
| Statistics.TopFacts | components/GenerateGraphics.tsx:95-100 | the top themes are distinct, occur in the data with their true counts, are in non-increasing count order, and no omitted theme beats the last one shown |
| Statistics.TopPrefix | components/GenerateGraphics.tsx:97 | a prefix of the ranked tally keeps distinct keys, true counts and descending order |
| Statistics.TopComplete | components/GenerateGraphics.tsx:97 | a theme left out means the list is full, and its count is at most the last shown count |
| Statistics.TiposDe | components/GenerateGraphics.tsx:230 | each book's type, trimmed, or "Sin especificar" |
| Statistics.TiposUnicos | components/GenerateGraphics.tsx:230 | `tiposUnicos` is sorted, distinct, and holds exactly the types that occur |
| Statistics.Without | components/GenerateGraphics.tsx:234 | `prev.filter(t => t !== tipo)` holds exactly the other entries, in their old order and each as often as before |
| Statistics.ToggleTipo | components/GenerateGraphics.tsx:232-236 | after the toggle, a type is selected exactly when it was selected before or is the one toggled, but not both; a new type is appended at the end, and removing one keeps the others in order |
| Statistics.ToggleTipoNoDuplicates | components/GenerateGraphics.tsx:232-236 | toggling keeps the selection free of duplicates |
| Statistics.ToggleTipoTwice | components/GenerateGraphics.tsx:232-236 | toggling a type on and off again restores the selection |
| Statistics.MesesDeTipoBound | components/GenerateGraphics.tsx:239-248 | a type's uploads in a month never exceed all uploads in that month |
| Statistics.SubidasPorTipo | components/GenerateGraphics.tsx:239-248 | the nested record counts, for every type and month, the books of that type uploaded in that month |
| Statistics.CuentaIsCount | components/GenerateGraphics.tsx:277 | `subidasPorTipo[tipo]?.[mes] \|\| 0` is that count, 0 when the type or month is absent |
| Statistics.SerieTipo | components/GenerateGraphics.tsx:277 | one number per month label, the type's count in that month |
| Statistics.SerieTipoCounts | components/GenerateGraphics.tsx:250-277 | each point of a type's series is its upload count that month, bounded by the month's total |
| Unicode.StripDiacriticsIdempotent | components/GenerateIndex.tsx:25-26 | stripping diacritics twice is the same as once |
| Unicode.ToLower | components/GenerateTable.tsx:145-146 | `toLowerCase` lower-cases each character on its own except a capital sigma, which becomes ς in the Final_Sigma context and σ elsewhere; no capital sigma survives |
| Unicode.FinalSigmaExamples | components/GenerateTable.tsx:145 | "ΟΔΟΣ" lower-cases to "οδος"; a lone Σ, or one before a letter, to σ; one before a space or a final period, after a letter, to ς |
| Unicode.ToLowerIdempotent | components/GenerateIndex.tsx:25-26 | lower-casing twice is the same as once |
| LetterIndex.FirstLetter | components/GenerateIndex.tsx:30 | `match(/\p{Letter}/u)` is None exactly when the text has no letter; otherwise it gives the first letter |
| LetterIndex.GetLetra | components/GenerateIndex.tsx:28-38 | the heading is always one of "A"–"Z", "Ñ" or "#" |
| LetterIndex.HeadingListed | components/GenerateIndex.tsx:107-111 | every heading is among the 28 `letras` the page renders |
| LetterIndex.NoLetterIsHash | components/GenerateIndex.tsx:29-31 | a text with no letter, including "", goes under "#" |
| LetterIndex.EnyeKept | components/GenerateIndex.tsx:33-34 | a first letter ñ or Ñ goes under "Ñ" |
| LetterIndex.LatinLetterHeading | components/GenerateIndex.tsx:33-37 | an accented Latin first letter goes under its upper-case base letter |
| LetterIndex.YDiaeresisHeading | components/GenerateIndex.tsx:33-37 | a first letter ÿ upper-cases to Ÿ, which decomposes to Y and a diaeresis, so it goes under "Y" |
| LetterIndex.GreekIsHash | components/GenerateIndex.tsx:36-37 | a first letter outside A–Z after stripping, such as a Greek one, goes under "#" |
| LetterIndex.SortKeyChars | components/GenerateIndex.tsx:41 | the sort key holds only a–z and 0–9: after `normalizar` no ñ is left for the character class to keep |
| LetterIndex.OrdenarIsTotalPreorder | components/GenerateIndex.tsx:40-44 | `ordenar` is a total preorder |
| LetterIndex.SameKeyTied | components/GenerateIndex.tsx:40-44 | titles with the same key compare equal, whatever their accents, case or punctuation |
| LetterIndex.NoMarkerIsZero | components/GenerateIndex.tsx:47 | a title without "(#digits)" has ordinal 0 |
| LetterIndex.FirstMarkerGivesOrdinal | components/GenerateIndex.tsx:47 | otherwise the ordinal is the value of the digits of the first marker |
| LetterIndex.SagaLeIsTotalPreorder | components/GenerateIndex.tsx:46-50 | `ordenarSaga` is a total preorder |
| LetterIndex.OrdinalsAreNumeric | components/GenerateIndex.tsx:46-50 | "(#2)" comes before "(#10)" by number, although code-unit order puts "(#10)" first |
| LetterIndex.SagasOfMembers | components/GenerateIndex.tsx:60 | a saga name occurs exactly when it is non-empty and some book has it |
| LetterIndex.PartitionBooks | components/GenerateIndex.tsx:59-73 | the loop leaves, for each saga in first-seen order, its books in table order and its distinct authors, and the loose books in table order |
| LetterIndex.PartitionStep | components/GenerateIndex.tsx:61-69 | one book with a saga creates the group if needed, appends the book, and adds its author once |
| LetterIndex.PartitionStepLoose | components/GenerateIndex.tsx:70-71 | one book without a saga is appended to the loose books |
| LetterIndex.SortSagaBooks | components/GenerateIndex.tsx:78-80 | every saga's books end up sorted by ordinal, stably, and nothing else changes |
| LetterIndex.TituloLeIsTotalPreorder | components/GenerateIndex.tsx:76 | ordering loose books by `ordenar` on titles is a total preorder |
| LetterIndex.ItemLeIsTotalPreorder | components/GenerateIndex.tsx:97-101 | ordering entries by `ordenar` on title or saga name is a total preorder |
| LetterIndex.ValuesIn | components/GenerateIndex.tsx:84 | `Object.values(sagas)` lists the groups in key order |
| LetterIndex.GroupByLetter | components/GenerateIndex.tsx:88-93 | a heading is present exactly when some entry has it, and holds exactly those entries in `todoJunto` order |
| LetterIndex.SortBuckets | components/GenerateIndex.tsx:96-102 | the same headings, each list stably sorted by `ordenar` |
| LetterIndex.Agrupado | components/GenerateIndex.tsx:53-105 | every heading is in `letras`; a heading is present exactly when some entry has it; each list is the sorted entries of `todoJunto` under that heading |
| LetterIndex.EveryBookOnce | components/GenerateIndex.tsx:59-73 | the loose books plus the saga groups' books are a permutation of the table |
| LetterIndex.IndexListsEveryBookOnce | components/GenerateIndex.tsx:82-85 | `todoJunto` holds every book of the table exactly once, loose or inside its group |
| LetterIndex.EntryUnderItsHeading | components/GenerateIndex.tsx:88-102 | each entry appears in its own heading's sorted list |
| LetterIndex.LooseBookListed | components/GenerateIndex.tsx:71-92 | a book without a saga is listed on its own under its title's heading |
| LetterIndex.GroupListed | components/GenerateIndex.tsx:82-85 | each saga's sorted group is in `todoJunto` |
| LetterIndex.SinglesAreLoose | components/GenerateIndex.tsx:83 | every entry listed on its own is a book of the table without a saga |
| LetterIndex.AutoresOfGroup | components/GenerateIndex.tsx:69 | a saga's authors are exactly the authors of its books |
| LetterIndex.SagaBookGrouped | components/GenerateIndex.tsx:60-80 | a book with a saga is not listed on its own: it is inside its saga's group, whose books are sorted by ordinal and whose authors are those of its books |
| LetterIndex.SagasDistinct | components/GenerateIndex.tsx:61-67 | one group per saga name, and no group for the empty name |
| ReportLimiter.Recorded | utils/reportLimiter.ts:16 | recording adds one to today's count and leaves every other day's count as it was |
| ReportLimiter.ReportLog.constructor | utils/reportLimiter.ts:4 | with no stored record the log starts empty (`"{}"`) |
| ReportLimiter.ReportLog.CanSendReport | utils/reportLimiter.ts:1-11 | a report may be sent exactly when fewer than `LIMIT` = 1 were sent today |
| ReportLimiter.ReportLog.RecordReport | utils/reportLimiter.ts:13-19 | the stored record becomes the recorded one |
| ReportLimiter.EmptyAllows | utils/reportLimiter.ts:4-10 | on a fresh record a report is allowed |
| ReportLimiter.RecordedBlocks | utils/reportLimiter.ts:6-8 | after recording a report, today is blocked |
| ReportLimiter.RecordedOtherDays | utils/reportLimiter.ts:16 | recording today leaves every other day's permission unchanged |
| ReportLimiter.OneReportADay | utils/reportLimiter.ts:1-19 | check, record, check on a fresh day: the first check allows, the second blocks |
| ThemeSwitcher.SavedIndex | components/ThemeSwitcher.tsx:13-14 | a stored theme name gives its own index; an unknown name falls back to 0 |
| ThemeSwitcher.NextIndex | components/ThemeSwitcher.tsx:20 | the next index is always a valid theme index |
| ThemeSwitcher.AfterClicksIsModular | components/ThemeSwitcher.tsx:19-25 | n clicks move the index by n modulo 4 |
| ThemeSwitcher.FourClicksCycle | components/ThemeSwitcher.tsx:20 | four clicks return to the starting theme |
| ThemeSwitcher.SavedThemeIndex | components/ThemeSwitcher.tsx:13-14 | saving a theme's name and reading it back finds the same index |
| ThemeSwitcher.Switcher.constructor | components/ThemeSwitcher.tsx:8 | the component starts at index 0 |
| ThemeSwitcher.Switcher.Mount | components/ThemeSwitcher.tsx:10-17 | with a non-empty stored name, the index becomes its position (0 if unknown) and the class becomes "tema" + the name; otherwise nothing changes |
| ThemeSwitcher.Switcher.Click | components/ThemeSwitcher.tsx:19-25 | a click advances the index modulo 4 and sets the class and the stored name to the new theme |
| ThemeSwitcher.ClickThenReload | components/ThemeSwitcher.tsx:10-25 | after a click, a reload restores the same index and class |

## Left out

- Rendering is not modelled: JSX, popups, tooltips, charts, and the chart colours and options (`components/GenerateGraphics.tsx:66-68`, `:102-169`).
- React wiring (`useState`, `useMemo`, `useEffect`, timers, `router.replace`, `router.push`) is replaced by plain values. The one-second debounce of the URL write is left out.
- Percent-encoding and `URLSearchParams.toString` are left out. A query is the list of its decoded (name, value) pairs.
- JavaScript object key order is simplified to insertion order. The engine's rule that integer-like keys come first is not modelled, and neither are prototype keys such as `"__proto__"`. This affects the order of `Object.keys`, `Object.values` and `Object.entries` in the statistics and the index.
- `localeCompare` is a parameter, required to be a total preorder, not a concrete collation table.
- `toLowerCase`, `toUpperCase`, `normalize("NFD")`, `\p{Diacritic}` and `\p{Letter}` use an explicit excerpt of the Unicode tables: ASCII, Latin-1, Ÿ, basic Greek and the combining marks. Characters outside it count as uncased non-letters with no case mapping. So a title starting with a letter outside the excerpt, such as Ł, Č or Œ, is filed by `getLetra` under the first later letter the excerpt knows, where JavaScript files it under its base letter (Č under C) or under "#" (Ł, Œ); and a decomposable one such as Č gives no base letter to the `ordenar` key, where JavaScript keeps its c. `toLowerCase` includes the Final_Sigma rule for capital sigma. The Lithuanian, Turkish and Azeri rules of SpecialCasing are locale-dependent and do not apply to `toLowerCase`.
- `normalize("NFC")` in `optionsSet` (`Unicode.Nfc`) composes a base letter with the one combining mark directly after it, when the excerpt has that precomposed letter, and leaves everything else alone. It does not decompose first, does not put a run of marks into canonical order by combining class, and does not compose a base with a mark that follows another mark of lower combining class. So `"a\u0327\u0301"` stays as it is, where JavaScript gives `"á\u0327"`. Text whose marks each follow their base letter directly is composed as JavaScript composes it, within the excerpt.
- Dates outside the `Date` range and `Invalid Date` are not modelled. `new Date` is modelled for non-negative parsed numbers only.
- `Number` precision is not modelled: digit strings are read as unbounded naturals.
- `GenerateIndex.tsx` has an `IGNORAR_ESPACIOS` white-space branch that is switched off by the constant `false`. The model follows the `false` path only.
- The author table itself, and the sex and country option lists, are not part of this model. The author table is a parameter.
- `localStorage` and `JSON.parse` are replaced by fields of the two classes, so malformed stored JSON, which would throw, is not modelled. The date string `today` (`new Date().toISOString().slice(0, 10)`) is a parameter. `document.documentElement.className` is a field.
- `LegacyTable.Apply` and `SearchTable.UpdateFilter` take it that `updateFilter` is called in the way the page calls it: text under a text key and a list under the theme key. A list under a text key is not representable.
- Statistics.GenerarDatosTopTemas: `topN` is a parameter, and the page calls it with the default 10.
- Statistics.GenerarDatosPie: the labels are in insertion order, the simplification described above for `Object.keys`.
- The other components (navigation bars, popups, tooltips, the data extractor) and the pages under `app/` are not part of this model.
