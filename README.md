# HSGexplorer core in Dafny

HSGexplorer is a Streamlit application. It suggests leisure activities around St. Gallen
from a semicolon-separated table of activities. The table is cleaned once at start-up
(`load_data`). The user then narrows the list:

- with base filters: the chosen day, the activity type, the group size and a budget;
- optionally, with a weather filter that asks a forecast service about each activity's location;
- optionally, in natural language, through a language model that returns filters or a
  selection of candidate IDs with a justification.

Likes and dislikes form a user profile: the mean of the feature vectors of the liked
activities. The profile ranks unrated activities by similarity, with a small random
exploration step. The likes are also aggregated into a profile label, the most frequent
target groups and a list of prices.

This project models that core as Dafny datatypes, functions, methods and a few classes, and
proves properties of the model. One module per component:

| file | module | component |
|---|---|---|
| util.dfy | `Util` | Python/pandas helpers: selection, `strip`, `split`/`join`, `in` on strings, `value_counts` counting, slicing |
| ranking.dfy | `Ranking` | the stable descending sort behind `sort`, `sort_values` and `value_counts` |
| activity.dfy | `Activities` | one row of the cleaned table |
| data_cleaning.dfy | `DataCleaning` | `load_data` in data_utils.py |
| base_filters.dfy | `BaseFilters` | `apply_base_filters` in logic.py |
| weather.dfy | `Weather` | weather_utils.py |
| weather_filter.dfy | `WeatherFilter` | `apply_weather_filter` in logic.py |
| features.dfy | `Features` | `preprocess_features` and `calculate_user_profile` in recommender.py |
| recommender.dfy | `Recommender` | `get_profile_recommendations` in recommender.py |
| preferences.dfy | `Preferences` | the aggregations in recommender.py (preference scores, label, target groups, prices) |
| session.dfy | `Session` | the rating callback, the initial suggestions, the profile button and the reset in app.py |
| llm.dfy | `Llm` | llm_utils.py |

Some parts of the system become parameters of the model:

- the HTTP replies of the forecast service and of the language model;
- `json.loads`;
- the cosine-similarity scores;
- the feature blocks built by scikit-learn;
- the outcomes of `random.random`, `random.choice` and `random.shuffle`.

Table rows that are only selected and passed on are values (`seq`). Streamlit's session
state, which the callbacks update in place, is a class (`Session.Session`, `Llm.LlmState`).

## Model

Some functions are specified only by the lemmas and methods about them, so they have no
row of their own; their contracts are in these rows:

- `Weather.CheckActivityWeatherStatus` (weather_utils.py:160-211): `UnknownIffNoValidEntry`, `RepresentativeChoice`, `ClassifyPrecedence`, `LightRainBeatsRain`;
- `Weather.ForecastForDay` (weather_utils.py:60-134): `GetWeatherForecastForDay`, `ForecastForDayGuard`, `ForecastForDaySound`;
- `WeatherFilter.Decide` (logic.py:298-319): `DecideTable`;
- `BaseFilters.KeepRow` (logic.py:78-181): `ApplyBaseFilters`, `BaseFiltersMembership`;
- `DataCleaning.RepairIdsAsWritten` (data_utils.py:141-161): `RepairIdColumn`, `RepairIdsAsWrittenIds`;
- `DataCleaning.CorrectedLoad`: `CorrectedLoadIdsUnique`, `LoadDataRowsAreClean`;
- `Recommender.WalkRanked` (recommender.py:263-280): `CollectRanked`, `WalkTakesTopScores`, `RankedWalkNeverFails`, `WalkPicksEligible`, `WalkFailsAt`, `WalkEndsAt`;
- `Recommender.Explore` (recommender.py:283-296): `ApplyExploration`, `ExploreKeepsInvariants`;
- `Session.ApplyRating` (app.py:160-183): `ApplyRatingKeepsValid`, `ApplyRatingEffect`, `ApplyRatingIdempotent`;
- `Llm.GetFiltersFromGemini` (llm_utils.py:68-151): `FiltersOutcome`.

| member | source | states |
|---|---|---|
| Util.Filter | logic.py:100-101 | a boolean-mask selection keeps exactly the rows that pass, in order |
| Util.Unique | recommender.py:285 | `unique()` has no duplicates and the same elements as its input |
| Util.Strip | llm_utils.py:111 | `str.strip()` leaves no whitespace at either end and only drops characters |
| Util.JoinSplit | recommender.py:374 | splitting a Zielgruppe text at commas loses nothing: joining the pieces gives the text back |
| Util.SliceTo | llm_utils.py:251 | Python's `s[:k]` is a prefix of `s`: of length `min(k, len)` for `k >= 0`, and for negative `k` all but the last `min(-k, len)` elements |
| Ranking.SortDesc | recommender.py:263 | the ranking is sorted by descending score and is a permutation of its input |
| Ranking.SortDescStable | recommender.py:263 | elements with equal scores keep their input order |
| Ranking.SortDescOfSorted | recommender.py:333 | sorting an already descending series changes nothing |
| Activities.RowsWithIds | recommender.py:318 | `isin` keeps exactly the rows whose ID is in the list |
| DataCleaning.CleanHeader | data_utils.py:85 | every column name is stripped and loses its byte-order marks |
| DataCleaning.AlignRow | data_utils.py:88-102 | a row gets exactly the expected columns; a missing column is empty, a present one takes its first cell |
| DataCleaning.ToNumeric | data_utils.py:115-118 | `to_numeric(errors='coerce')` yields a number, infinity or empty, and leaves numbers as they are |
| DataCleaning.FillGivesValue | data_utils.py:123-131 | after the defaults, price, minimum and maximum group size, weather preference and indoor/outdoor are never empty |
| DataCleaning.PrepareRowShape | data_utils.py:102-131 | a prepared row has the expected columns, filled defaults, and numeric or empty coordinates |
| DataCleaning.Trunc | data_utils.py:161 | `astype(int)` truncates toward zero |
| DataCleaning.CastIds | data_utils.py:161 | `astype(int)` raises exactly when some ID is infinite; otherwise every row keeps its other cells and its ID becomes a whole number within 1 of the float, toward zero (IDs within the int64 range; see "## Left out") |
| DataCleaning.Renumber | data_utils.py:157-158 | after renumbering every row keeps its other cells, and the IDs are whole numbers, no two alike |
| DataCleaning.PrepareRows | data_utils.py:102-131 | the column-wise conversions applied row by row give the specified prepared rows |
| DataCleaning.DropWithoutCoordinates | data_utils.py:136-138 | `dropna` keeps exactly the rows with both coordinates, in order |
| DataCleaning.RepairIdColumn | data_utils.py:141-161 | the ID check and repair, with the duplicate check on the float IDs, computes the ID column of the as-written repair |
| DataCleaning.LoadData | data_utils.py:66-182 | `load_data` returns the specified table, with the ID check as written; a missing or empty file gives an empty table with the expected columns |
| DataCleaning.LoadDataSpec | data_utils.py:73-80 | the result always has the expected columns, and no rows when the file could not be read |
| DataCleaning.CleanedRowsAreClean | data_utils.py:102-138 | every row that survives `dropna` has both coordinates and all five defaults filled |
| DataCleaning.LoadDataRowsAreClean | data_utils.py:102-173 | every row of the loaded table is clean, whatever happens to its ID, and so is every row of the corrected load |
| DataCleaning.RepairIdsUnique | data_utils.py:140-161 | with the duplicate check on the cast IDs, all IDs are whole numbers and pairwise distinct |
| DataCleaning.CastIdsDistinct | data_utils.py:161 | after the cast, the IDs are distinct exactly when no two of them truncate to the same number |
| DataCleaning.RepairIdsAsWrittenIds | data_utils.py:141-161 | the repair as written stores whole-number IDs, distinct exactly when an ID was missing, two were equal as floats, or no two truncate alike |
| DataCleaning.LoadDataIdsUnique | data_utils.py:141-173 | the IDs of the loaded table are whole numbers; without an infinite ID they are distinct exactly unless, with no ID missing and none equal as floats, two IDs truncate alike |
| DataCleaning.CorrectedLoadIdsUnique | data_utils.py:140-161 | with the duplicate check made on the cast IDs, the loaded table always has whole-number, pairwise distinct IDs |
| DataCleaning.LoadDataKeepsCleanedRows | data_utils.py:136-173 | the loaded rows are the cleaned rows with only the ID changed, or none at all; a missing ID or two IDs equal as floats renumber 0, 1, 2, ... |
| DataCleaning.InfiniteIdEmptiesTable | data_utils.py:141-182 | with every ID present and none equal as floats, an infinite ID makes the cast raise, so the table is empty |
| DataCleaning.TruncatedIdsCollideAsWritten | data_utils.py:146-161 | as written, the IDs 3.2 and 3.7 pass the duplicate check and both become 3 |
| DataCleaning.TruncatedIdsRenumbered | data_utils.py:148-158 | with the check made on the cast IDs, the same rows are renumbered 0 and 1 |
| BaseFilters.ApplyBaseFilters | logic.py:78-181 | a row is kept exactly when it is available on the chosen day and passes the type, group-size and budget tests; no day gives no rows; the result is never longer than the input |
| BaseFilters.BaseFiltersAreOneSelection | logic.py:96-170 | the four successive selections are one selection by the conjunction of the filters |
| BaseFilters.BaseFiltersMembership | logic.py:78-181 | the result keeps, in order, exactly the rows that pass every filter; no day gives no rows |
| BaseFilters.BudgetMonotone | logic.py:164-170 | a lower budget selects a sub-list of what a higher budget selects |
| Weather.DayForecasts | weather_utils.py:96-118 | every collected forecast is complete and falls on the chosen day |
| Weather.DayForecastsIsFilterThenConvert | weather_utils.py:96-118 | the loop keeps exactly the complete entries of the day, converted, in order |
| Weather.GetWeatherForecastForDay | weather_utils.py:60-134 | the loop over the reply computes the specified forecast list or `None` |
| Weather.ForecastForDayGuard | weather_utils.py:60-62 | without a key, coordinates or a date, the reply plays no part and the result is `None` |
| Weather.ForecastForDaySound | weather_utils.py:90-122 | a result is a non-empty list of complete forecasts of the target day, each coming from an entry of the reply |
| Weather.FirstWhere | weather_utils.py:171 | `next(..., None)` finds the first match, or `None` when nothing matches |
| Weather.RepresentativeChoice | weather_utils.py:166-172 | the representative entry is the first valid one from noon on, otherwise the first valid one |
| Weather.UnknownIffNoValidEntry | weather_utils.py:160-179 | "Unknown" means exactly that there is no list or no entry with a datetime |
| Weather.ClassifyPrecedence | weather_utils.py:188-211 | light rain wins over bad weather, bad weather wins over a clear sky, and only a clear sky is Good |
| Weather.LightRainBeatsRain | weather_utils.py:188-190 | "leichter regen" contains a bad keyword and is still Uncertain |
| WeatherFilter.DecideTable | logic.py:298-319 | only 'Nur Sonne' with bad weather and 'Nur Regen' with good or uncertain weather drop a row; an unknown preference is kept with a note |
| WeatherFilter.Assess | logic.py:262-319 | the decision reads the preference as `str()` does (an empty cell is "nan"); the note of a row's decision is the note in its weather columns, and without the weather filter every row is kept |
| WeatherFilter.Annotate | logic.py:258-327 | every base-filtered row is annotated, in order, with its own weather columns |
| WeatherFilter.FirstIndexOf | logic.py:245-256 | the position looked up for an ID is its first occurrence in the full table |
| WeatherFilter.ApplyWeatherFilter | logic.py:227-348 | a skipped check returns the rows with empty weather columns and an empty map; otherwise the annotated rows, the kept rows and the weather map |
| WeatherFilter.MissingCoordinatesKept | logic.py:271-275 | a row without coordinates is kept and annotated as such |
| WeatherFilter.KeptRowsAreSelection | logic.py:329-343 | the final rows are a selection, in order, of the annotated rows, each one whose decision keeps it |
| WeatherFilter.KeptRowsComplete | logic.py:329-343 | every row whose decision keeps it reaches the final rows, with its weather columns |
| WeatherFilter.WeatherMapKeys | logic.py:333-340 | each key of the weather map is the first position in the full table of some annotated row's ID |
| WeatherFilter.WeatherMapEntries | logic.py:333-340 | every checked row whose ID occurs in the full table has an entry at that ID's first position, holding this row's weather details when no later checked row has the same ID |
| WeatherFilter.MissingPreferenceAsWritten | logic.py:263-264 | as written, an empty preference becomes "nan" and gets an "unknown preference" note |
| WeatherFilter.MissingPreferenceIsEgal | logic.py:263-264 | read as intended, an empty preference is 'Egal': kept, with no note |
| Features.TagsAreClean | recommender.py:103 | a parsed tag is never empty and has no comma |
| Features.HStackRows | recommender.py:153 | `np.hstack` fails exactly on no blocks or blocks of unequal height; row `i` of the result is the rows `i` of the blocks joined |
| Features.PreprocessFeatures | recommender.py:78-158 | an empty table has no features; otherwise the blocks built are stacked in order |
| Features.PresentBlocks | recommender.py:99-150 | no matrix exactly when no block was built; the width is the sum of the built blocks' widths, and without tags the tag block plays no part |
| Features.CalculateUserProfile | recommender.py:161-210 | a profile has one value per feature column |
| Features.ProfileNoneCases | recommender.py:185-196 | no profile exactly when there are no features, no columns, no rows, no likes, or no liked row within the matrix |
| Features.ProfileDependsOnlyOnLikedRows | recommender.py:192-206 | the profile depends only on which rows are liked; dislikes play no part |
| Features.ProfileWithinLikedRange | recommender.py:206 | each profile value lies between the smallest and the largest value of the liked rows in that column |
| Recommender.RankedPositions | recommender.py:263 | the ranking sorts the positions by descending similarity and is a permutation of all positions |
| Recommender.CollectRanked | recommender.py:267-280 | the loop collects the specified IDs and fails exactly where the specification does |
| Recommender.WalkTakesTopScores | recommender.py:263-280 | the walk over the ranking picks eligible rows in descending score; an eligible row left out means `n` rows scoring at least as high were picked |
| Recommender.RankedWalkNeverFails | recommender.py:267-280 | with one score per row, the walk never fails and takes the first `n` eligible positions |
| Recommender.WalkPicksEligible | recommender.py:275-276 | every collected ID is unrated and not -1 |
| Recommender.WalkFailsAt | recommender.py:270-280 | a position outside the table before `n` IDs are collected ends the walk with an error |
| Recommender.WalkEndsAt | recommender.py:270-276 | a walk that stays inside the table ends with the eligible positions seen so far |
| Recommender.RankingOfDescendingScores | recommender.py:263 | scores that already descend leave the positions in table order |
| Recommender.UnratedIds | recommender.py:285-287 | the exploration candidates are exactly the unrated IDs other than -1, without duplicates |
| Recommender.ApplyExploration | recommender.py:283-296 | the in-place exploration update yields exactly the exploration function's list: unchanged without exploring, the drawn unrated ID in front while fewer than `n` are collected, else in place of the last one |
| Recommender.ExploreKeepsInvariants | recommender.py:283-296 | exploration keeps the list within `n`, adds only an unrated ID, and never creates a duplicate |
| Recommender.Shuffle | recommender.py:299 | `random.shuffle` permutes the list |
| Recommender.GetProfileRecommendations | recommender.py:213-300 | at most `n` unrated IDs; none without a profile or features, for a profile of the wrong length or a matrix without rows; otherwise a permutation of the ranked walk after exploration, or the walk's IDs unshuffled when it stops on an error |
| Preferences.Tally | recommender.py:321 | `value_counts` lists each key once with its number of occurrences |
| Preferences.TallyTotal | recommender.py:321 | the counts add up to the number of rows counted |
| Preferences.RankedCounts | recommender.py:321 | the ranked counts are the counts of the distinct keys and sum to the number of keys |
| Preferences.CalculatePreferenceScores | recommender.py:307-326 | no scores exactly when no liked row exists; scores are non-empty and sorted by count |
| Preferences.PreferenceScoresCount | recommender.py:318-321 | each Art of the liked rows appears with its count, and the counts add up to the number of liked rows |
| Preferences.GenerateProfileLabel | recommender.py:330 | no label exactly for missing or empty scores |
| Preferences.SpecialPairsInEitherOrder | recommender.py:343-345 | the three special pairs get their names whichever Art comes first |
| Preferences.LabelIgnoresInputOrder | recommender.py:333 | with different counts, the order of the input does not change the label |
| Preferences.FanThreshold | recommender.py:347-348 | a lead of more than half again (4 against 2) makes a "-Fan" label; 3 against 2 does not |
| Preferences.LabelOfPreferenceScores | recommender.py:333-351 | the label of sorted scores is "X-Fan" for one Art and the pair label of the top two otherwise |
| Preferences.CalculateTopTargetGroups | recommender.py:356-385 | no groups exactly when the liked rows have no tag; otherwise the `top_n` most frequent tags |
| Preferences.TopTargetGroupsAreCounts | recommender.py:373-382 | at most `top_n` entries, sorted by count, each a real tag with its count |
| Preferences.TopTargetGroupsAreMostFrequent | recommender.py:379-380 | no tag left out occurs more often than a tag kept |
| Preferences.GetLikedPrices | recommender.py:387-412 | no list exactly when no liked row has a usable price; otherwise the prices of the liked rows in table order (`PricesOf`), only positive ones without free activities |
| Preferences.PricesOfUsableRows | recommender.py:402-408 | one price per usable row, in row order and with repeats: the i-th price is the price of the i-th row with a usable price |
| Preferences.PaidPricesAreSelection | recommender.py:405-408 | the positive prices are a selection of all prices |
| Session.ApplyRatingKeepsValid | app.py:175-183 | rating keeps both lists duplicate-free and disjoint |
| Session.ApplyRatingEffect | app.py:160-183 | a like puts the ID in the liked list only, a dislike in the disliked list only; no other ID moves; a missing or -1 ID or another rating changes nothing |
| Session.ApplyRatingIdempotent | app.py:175-180 | rating the same ID the same way twice is the same as once |
| Session.Rated | app.py:202 | the rated set is the union of the two lists |
| Session.Recompute | app.py:187-216 | the profile is recomputed from the new likes; the suggestions are the card `CardFor` describes: at most five unrated IDs, none without a profile, for a profile of the wrong length or for an empty matrix, otherwise the top of the ranked walk after exploration, shuffled |
| Session.Session.constructor | config.py:133-140 | a session starts with no ratings, profile, label or suggestions |
| Session.Session.UpdateRecommendations | app.py:149-230 | the callback applies the rating; with features and rows it stores the profile of the new likes, its label and the card `get_profile_recommendations(..., n=5)` gives (`CardFor`: the ranked walk after exploration, shuffled); without them it clears label and suggestions; an invalid ID changes nothing |
| Session.Session.RefreshSuggestions | app.py:187-216 | the stored profile is the profile of the current likes and the stored card is the one `CardFor` describes for it (the ranked walk after exploration, shuffled); nothing else changes |
| Session.Session.RefreshLabel | app.py:221-224 | the stored label is the label of the preference scores of the current likes; nothing else changes |
| Session.Session.Rate | app.py:175-183 | the two lists change as `ApplyRating` says; nothing else changes |
| Session.Session.Refresh | app.py:187-229 | with features and rows: the profile of the likes, its label and the card `CardFor` describes; without them label and suggestions are cleared |
| Session.Session.FillInitialSuggestions | app.py:257-268 | an empty suggestion list is filled with up to five distinct unrated IDs |
| Session.Session.ShowProfileRecommendations | app.py:340-355 | the explicit list holds at most ten unrated IDs, a permutation of the top of the ranking |
| Session.Session.Reset | app.py:368-375 | reset clears the ratings, profile, label and both suggestion lists |
| Llm.CleanResponse | llm_utils.py:111 | the cleaned reply has no whitespace at either end |
| Llm.FencedReplyIsBody | llm_utils.py:111 | a body inside a fenced code block is recovered exactly |
| Llm.PlainReplyIsBody | llm_utils.py:111 | a body with no fence is left unchanged |
| Llm.ValidateFilters | llm_utils.py:114-140 | the validation edits of the parsed reply compute the specified filters |
| Llm.ValidatedDictMeaning | llm_utils.py:119-137 | Art keeps only allowed types and disappears when none is left; a category or price of the wrong kind is removed; every other key is unchanged |
| Llm.ValidationIdempotent | llm_utils.py:119-137 | validating validated filters changes nothing |
| Llm.FiltersOutcome | llm_utils.py:68-151 | filters are returned exactly for a configured call with a query and a reply that parses and validates; each failure has its own kind |
| Llm.Ints | llm_utils.py:245-251 | the suggestion IDs as integers, one per element |
| Llm.CheckSelection | llm_utils.py:245-260 | an error exactly when there are no IDs, and IDs exactly together with a justification |
| Llm.CheckSelectionMeaning | llm_utils.py:241-260 | a well-typed reply gives its first `num` IDs and its justification; anything else gives an error |
| Llm.GetSelectionAndJustification | llm_utils.py:155-268 | an error exactly when there are no IDs, and IDs exactly together with a justification |
| Llm.SelectionOutcome | llm_utils.py:184-268 | not configured is an error; no candidates give an empty selection with the fixed message; otherwise a selection exactly for a well-typed parsed reply |
| Llm.WellFormedSelection | llm_utils.py:245-251 | a reply with integer IDs and a text gives the first `num` IDs and the text |
| Llm.WrittenMeaning | llm_utils.py:305-307 | after the loop, each given argument is stored under its key and every other key is unchanged |
| Llm.UpdatedMeaning | llm_utils.py:293-313 | each given argument is stored under its key; a reset clears IDs and justification; every other key is unchanged |
| Llm.LlmState.constructor | config.py:126-130 | the language-model state starts with no filters, IDs, justification or query, and results hidden |
| Llm.LlmState.Update | llm_utils.py:270-313 | `update_llm_state` writes the given arguments and then applies the reset |

## Left out

- CSV reading (separator, encoding) and `pd.to_datetime` parsing of `dd.mm.yyyy` are not modelled. A parsed file is an input: a header and rows of already typed cells, with a date as a day number.
- DataCleaning.AlignRow: pandas' `read_csv` renames repeated header names (`ID.1`); the model keeps the first cell of a name and ignores repeats. A converted column (a number or date column) can only repeat when two names become equal after `strip()` (literal repeats are already renamed by `read_csv`); pandas would then fail. `LoadDataKeepsCleanedRows` and `InfiniteIdEmptiesTable` therefore require that no such column is repeated.
- DataCleaning.LoadDataSpec: the branch for a missing ID column (data_utils.py:162-167) cannot happen after the alignment, which always adds the column. The other errors caught by the outer `except` are reduced to the one the model can raise: the infinite ID cast.
- DataCleaning.CastIds, DataCleaning.CastIdsDistinct, DataCleaning.RepairIdsAsWrittenIds and DataCleaning.LoadDataIdsUnique: the cast is modelled as exact truncation to an unbounded integer, so IDs of magnitude 2^63 or more are outside the model. `astype(int)` (data_utils.py:161) converts to int64, and numpy does not convert such a finite float faithfully (it gives INT64_MIN on x86-64 and saturates on ARM). In the source, IDs such as 1e19 and 2e19 therefore pass the float duplicate check and can both end up with the same ID, which the distinctness clauses of these four members do not account for.
- The warnings and error messages that `load_data` shows through Streamlit are not modelled.
- Activities.Activity: Preis_Ca, Personen_Min, Latitude and Longitude hold a finite number or `None`. `load_data` keeps "inf" and "-inf" in these columns (data_utils.py:115-118; `dropna` drops only NaN, data_utils.py:136-138), and such rows are not covered. In the source, `get_liked_prices` then returns an infinite price (recommender.py:402-408), a Personen_Min of infinity fails every group-size test that reads it (logic.py:132-158), and a price of minus infinity passes every budget (logic.py:164-170).
- BaseFilters.ApplyBaseFilters: a Personen_Max of minus infinity is not represented in `Activity` (an empty or infinite maximum is `None`, "no upper bound"); in the source such a row fails every group-size test.
- BaseFilters.ApplyBaseFilters: a budget that `float()` cannot convert makes the source skip the budget filter (logic.py:164-174). The model's budget is a number or `None`; `None` keeps every row, as the skipped filter does.
- BaseFilters.ApplyBaseFilters: the guards that skip a filter when its column is missing cannot happen after `load_data`, which always provides the column. The early returns on an empty intermediate table give the same empty result, so they are not separate branches.
- Ranking.SortDesc: the model sorts stably. `list.sort` is stable. pandas' `sort_values` and `value_counts` use quicksort, and their tie order is not specified.
- Recommender.GetProfileRecommendations: the cosine similarities are an input `scores` with one value per feature row; the vector arithmetic is not modelled. `random.random`, `random.choice` and `random.shuffle` are inputs (`Randomness`).
- Recommender.Shuffle: proved to be a permutation only. Its draws are taken modulo the remaining length, so no uniform distribution is claimed.
- Features.PreprocessFeatures: TF-IDF, the multi-label binarizer and the column transformer are scikit-learn calls. Their matrices are inputs (`Option<Matrix>`), and only the choice of blocks and `np.hstack` are modelled.
- Features.CalculateUserProfile: floating-point rounding of the mean is not modelled (`real`).
- Weather.GetWeatherForecastForDay: the HTTP request, its timeout and exceptions become one `RequestFailed` reply. UTC conversion of timestamps is done by the caller of the model (`Moment`).
- Llm.GetFiltersFromGemini: the prompt text and the model call are not modelled; the reply is an input, and `json.loads` is the parameter `parse`. The validation properties are stated for dictionary replies (`ValidatedDictMeaning`). A list or string reply is only described by `ValidatedFilters`.
- Llm.GetSelectionAndJustification: the user query and the candidate text only feed the prompt, so only the empty-candidates check is modelled. Error messages are modelled as kinds (`ShapeProblem`, `SelectionError`), not as strings.
- Util.LowerChar, Util.UpperChar and Util.Capitalize map case for ASCII and Latin-1 letters only. Python's `.lower()` and `.capitalize()` use the full Unicode tables (`'ß'.capitalize()` is "Ss", the Kelvin sign lowercases to "k"), so the weather keywords and the capitalised description can differ for such text.
- JSON `NaN` and `Infinity` literals are not modelled (`JFloat` holds a real).
- The Streamlit user interface (ui_components.py, the page layout of app.py), caching and logging are not modelled.

## Findings

| source | as written | input that shows it | evidently intended | confidence | as-written member | corrected member |
|---|---|---|---|---|---|---|
| data_utils.py:146-161 | the duplicate check runs on the float IDs, before `astype(int)` truncates them; the model's `LoadData` follows the code as written, and `CorrectedLoad` is the corrected load | IDs 3.2 and 3.7: no duplicate is found, and both rows get the ID 3 | IDs unique after the cast, so these rows are renumbered 0 and 1 | not executed | DataCleaning.TruncatedIdsCollideAsWritten | DataCleaning.RepairIdsUnique |
| logic.py:263-264 | the preference is turned into a string first, and the missing-value check runs on the string; `load_data` fills an empty Wetter_Praeferenz with 'Egal' (data_utils.py:129), so only a table that did not come from `load_data` reaches it | an empty Wetter_Praeferenz cell: `str(nan)` is "nan", so the row gets an "unknown preference" note | an empty preference is treated as 'Egal' | not executed | WeatherFilter.MissingPreferenceAsWritten | WeatherFilter.MissingPreferenceIsEgal |
