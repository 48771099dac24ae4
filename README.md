# Doctor directory: a verified model of the query engine and its state

The directory page lists eight sample healthcare providers. Visitors search
them by name, narrow them by specialty, location, weekday and intake, sort
them, and keep a list of favourite providers. A search box suggests
specialty names as the user types and lets them pick one with the arrow
keys. This project models that logic in Dafny and proves its behaviour.

- `types.dfy` (`Types`): the `Doctor` and `FilterOptions` records. A
  missing subspecialty is `None`, and a rating is an integer number of
  tenths of a star.
- `seqs.dfy` (`Seqs`): `Filter`, the model of `Array.prototype.filter`,
  with its algebra.
- `text.dfy` (`Text`): the string operations the code calls.
  - `toLowerCase`, restricted to ASCII.
  - `includes`, as `Contains`.
  - `trim() === ''`, as `IsBlank` over the ECMAScript white-space and
    line-terminator code points.
  - The order behind `localeCompare`, as `Less`, a lexicographic order on
    character codes.
- `doctor_data.dfy` (`DoctorData`): the eight records and the four
  vocabularies, as constants, with lemmas about their contents.
- `sorting.dfy` (`Sorting`): the three comparators of the sort menu.
  - `SortBy`, a functional stable insertion sort, which serves as the
    specification.
  - `InsertionSort`, an in-place insertion sort on an array, proved equal
    to `SortBy`.
- `api_service.dfy` (`ApiService`): the name search and `filterDoctors`.
  - `FilterDoctors` is a method. It narrows the list criterion by
    criterion, as the source does, then sorts a fresh array copy in place.
  - It is proved equal to the function `Query`.
  - The lemmas about `Query` cover soundness, completeness, order,
    permutation, sortedness, stability and idempotence.
- `app.dfy` (`AppModel`): the page state as the class `App`, with the
  favourite-toggling and favourite-lookup functions beside it.
  - The fields are `allDoctors`, `filteredDoctors`, `searchQuery`,
    `filters` and `favorites`.
  - `sample` is the list the (simulated) API serves.
  - Each handler is a method that states its whole new state.
- `autocomplete.dfy` (`AutocompleteModel`): the suggestion box as the class
  `Autocomplete`. Its invariant `Valid` keeps the highlighted index on an
  entry whenever the list is non-empty. This makes the lookup that Enter
  performs always in range.
- `sample_queries.dfy` (`SampleQueries`): concrete queries on the sample
  data.

Two behaviours of `src/App.tsx` are modelled as written:

- While a search query is stored, `applyFilters` filters the current view,
  not the full list (line 78).
- `resetFilters` then leaves the view alone (line 102).

So, during a search, applying filters can only keep or shrink the view.

Specialties are compared exactly. Record 4's subspecialty "Pediatric
Cardiology" (`src/data/doctorData.ts:47`) mentions Cardiology but is not an
exact match, so the "Cardiology" filter returns record 1 alone
(`SampleQueries.CardiologyFindsRecordOne`).

The data are constants copied field by field from `src/data/doctorData.ts`:
- `DoctorData.Doctors` holds the eight records (lines 3-105). Ratings are
  written in tenths of a star, and a missing subspecialty is `None`.
- `DoctorData.Specialties` (lines 107-125), `DoctorData.Locations` (lines
  127-141), `DoctorData.AvailabilityOptions` (lines 143-149) and
  `DoctorData.SortOptions` (lines 151-156) are the four vocabularies.

`AppModel.DefaultFilters` holds the criteria the page starts with and resets
to (`src/App.tsx:18-24` and `src/App.tsx:95-101`): no specialty, location or
day, no intake requirement, and the label "Relevance". The table below lists
functions, methods and lemmas; the lemmas about these constants stand for
them there.

## Model

| member | source | states |
|---|---|---|
| Seqs.Filter | src/services/apiService.ts:39-41 | every kept element is an input element that passes the predicate, every passing input element is kept, and the result is never longer than the input |
| Seqs.FilterConcat | src/services/apiService.ts:39-58 | filtering a concatenation is concatenating the filtered parts, so the kept elements stay in input order |
| Seqs.FilterSubMultiset | src/services/apiService.ts:39-58 | a filter result is a sub-multiset of its input: nothing is duplicated or invented |
| Seqs.FilterFilter | src/services/apiService.ts:38-59 | filtering by `p` and then by `q` equals one filter by their conjunction |
| Seqs.FilterIdempotent | src/services/apiService.ts:39-58 | filtering a filter result again by the same predicate changes nothing |
| Seqs.FilterAll | src/services/apiService.ts:35-59 | when every element passes, the filter returns its input unchanged |
| Seqs.FilterNone | src/services/apiService.ts:39-58 | when no element passes, the filter returns the empty list |
| Seqs.FilterDistinct | src/App.tsx:108-111 | a filter of a duplicate-free list is duplicate-free |
| Text.LowerChar | src/services/apiService.ts:19 | upper-case ASCII letters map to the letter 32 code points above them; every other character is unchanged |
| Text.Lower | src/services/apiService.ts:19 | `toLowerCase`: the string of the same length whose every character is lower-cased by `LowerChar` |
| Text.LowerIdempotent | src/services/apiService.ts:19 | lower-casing twice equals lower-casing once |
| Text.OccursAt | src/services/apiService.ts:19 | `sub` occurs in `s` at offset `i`: the slice of `s` of `sub`'s length starting at `i` equals `sub` |
| Text.Contains | src/services/apiService.ts:19 | `s.includes(sub)`: `sub` occurs in `s` at some offset from 0 to the length of `s` minus that of `sub` |
| Text.ContainsEmpty | src/services/apiService.ts:19 | every string includes the empty string |
| Text.ContainsSelf | src/components/Autocomplete.tsx:30 | every string includes itself |
| Text.MissingChar | src/services/apiService.ts:19 | a string lacking one of the characters of another does not include it |
| Text.IsWhitespace | src/App.tsx:60 | the characters `trim()` removes: tab through carriage return, space, no-break space, the Unicode space separators, line and paragraph separators and the byte-order mark |
| Text.IsBlank | src/App.tsx:60 | `s.trim() === ''`: every character of `s` is white space, so the empty string is blank too |
| Text.Less | src/services/apiService.ts:65 | `a.localeCompare(b) < 0`, read as lexicographic order on character codes: at the first differing character, or `a` a proper prefix of `b` |
| Text.LessIrreflexive | src/services/apiService.ts:65 | no name comes before itself |
| Text.LessAsymmetric | src/services/apiService.ts:65 | two names never come before each other |
| Text.LessTransitive | src/services/apiService.ts:65 | the name order is transitive |
| Text.LessTotal | src/services/apiService.ts:65 | of two different names one comes before the other |
| DoctorData.Ids | src/data/doctorData.ts:3-105 | the ids of a list of records, in order |
| DoctorData.EightRecords | src/data/doctorData.ts:3-105 | the directory holds eight records |
| DoctorData.EightRecordsDistinctIds | src/data/doctorData.ts:3-105 | the ids are '1' to '8' in order, no id is used twice, and no record appears twice |
| DoctorData.SpecialtiesFromVocabulary | src/data/doctorData.ts:3-125 | every record's specialty is one of `specialties` |
| DoctorData.LocationsFromVocabulary | src/data/doctorData.ts:3-141 | every record's location is one of `locations` |
| DoctorData.AvailabilityFromVocabulary | src/data/doctorData.ts:3-149 | every day a record is available is one of `availabilityOptions` |
| DoctorData.RatingsAndReviewsInRange | src/data/doctorData.ts:3-105 | every rating is between 4.6 and 4.9 stars, so within 0 to 5, and every review count is positive |
| DoctorData.SubspecialtyAndIntake | src/data/doctorData.ts:3-105 | exactly records '5', '7' and '8' lack a subspecialty, and exactly records '3' and '7' do not take new patients |
| DoctorData.SortOptionsShape | src/data/doctorData.ts:151-156 | `sortOptions` has four labels and begins with 'Relevance' |
| Sorting.Before | src/services/apiService.ts:64-71 | the comparator of the chosen label is negative on (a, b): A-Z puts `a`'s name first, Z-A puts `b`'s name first, Highest Rated has `b.rating - a.rating < 0` |
| Sorting.Tied | src/services/apiService.ts:64-71 | the comparator is zero on (a, b): the same name, or the same rating |
| Sorting.Sorted | src/services/apiService.ts:62-77 | no record of the list comes strictly before an earlier one |
| Sorting.Insert | src/services/apiService.ts:62-77 | one step of the stable sort: `x` goes after every record of `t` that does not come strictly after it, and the length grows by one |
| Sorting.SortBy | src/services/apiService.ts:62-77 | the stable `Array.prototype.sort` under the comparator, as repeated insertion from the right; the length is kept |
| Sorting.Trichotomy | src/services/apiService.ts:64-71 | for each comparator, exactly one of before, after and tied holds for two records |
| Sorting.NotBeforeTransitive | src/services/apiService.ts:64-71 | "does not come after" is transitive, so every comparator is a strict weak order |
| Sorting.InsertPermutes | src/services/apiService.ts:62-77 | one insertion step adds the inserted record to the multiset and changes nothing else |
| Sorting.SortByPermutes | src/services/apiService.ts:62-77 | the sorted list is a permutation of its input |
| Sorting.InsertSorted | src/services/apiService.ts:62-77 | inserting into a sorted list keeps it sorted |
| Sorting.SortBySorted | src/services/apiService.ts:62-77 | the sorted list is sorted: no record comes strictly before an earlier one |
| Sorting.InsertKeepsTies | src/services/apiService.ts:62-77 | inserting a record appends it to the records it ties with and leaves their order alone |
| Sorting.SortByStable | src/services/apiService.ts:62-77 | records tied under the comparator keep their input order (the sort is stable) |
| Sorting.SortBySortedIdentity | src/services/apiService.ts:62-77 | sorting a sorted list returns it unchanged |
| Sorting.SortByIdempotent | src/services/apiService.ts:62-77 | sorting twice equals sorting once |
| Sorting.SortedMeaning | src/services/apiService.ts:64-71 | in a sorted list, names are non-decreasing under 'Name (A-Z)', non-increasing under 'Name (Z-A)', and ratings are non-increasing under 'Highest Rated' |
| Sorting.InsertionSort | src/services/apiService.ts:62-77 | after sorting the array in place, its contents are `SortBy` of its old contents |
| Sorting.InsertAt | src/services/apiService.ts:62-77 | one pass of the in-place sort turns the prefix up to `i` into the insertion of `a[i]` into the old prefix and leaves the rest of the array alone |
| ApiService.NameMatches | src/services/apiService.ts:18-20 | a record matches when its lower-cased name includes the lower-cased query |
| ApiService.SearchIn | src/services/apiService.ts:18-20 | the in-order filter of a list by `NameMatches` |
| ApiService.SearchDoctors | src/services/apiService.ts:15-24 | `searchDoctors(query)` filters the module constant `doctors` (`DoctorData.Doctors`), not a list its caller passes; the delay is left out |
| ApiService.SearchInSpec | src/services/apiService.ts:18-20 | the search keeps exactly the records whose lower-cased name includes the lower-cased query, in input order, and is never longer than the input |
| ApiService.EmptyQueryMatchesAll | src/services/apiService.ts:18-20 | the empty query returns every record |
| ApiService.SearchIgnoresQueryCase | src/services/apiService.ts:19 | lower-casing the query beforehand changes no result |
| ApiService.HasSpecialty | src/services/apiService.ts:40 | the primary specialty or the subspecialty equals the criterion exactly; a record with no subspecialty matches by its primary specialty only |
| ApiService.HasLocation | src/services/apiService.ts:46 | the location equals the criterion exactly |
| ApiService.HasDay | src/services/apiService.ts:52 | the day is one of the record's availability days |
| ApiService.SpecialtyIs | src/services/apiService.ts:39-41 | the callback of the specialty filter: `HasSpecialty` of the criterion |
| ApiService.LocationIs | src/services/apiService.ts:46 | the callback of the location filter: `HasLocation` of the criterion |
| ApiService.AvailableOn | src/services/apiService.ts:51-53 | the callback of the availability filter: `HasDay` of the criterion |
| ApiService.AcceptsNewPatients | src/services/apiService.ts:58 | the record takes new patients |
| ApiService.Meets | src/services/apiService.ts:38-59 | every active criterion holds; an empty criterion string or a false intake flag imposes nothing, as the `if` guards do; each active criterion is the same predicate its filter callback applies |
| ApiService.Query | src/services/apiService.ts:27-80 | the records that meet the criteria, in input order, then stably sorted by the comparator the label chooses, or left in order for any other label |
| ApiService.SortOrder | src/services/apiService.ts:62-77 | 'Name (A-Z)', 'Name (Z-A)' and 'Highest Rated', and only they, choose the three comparators |
| ApiService.FilterChain | src/services/apiService.ts:35-59 | applying the active criteria one after the other equals one filter by their conjunction |
| ApiService.ApplyCriteria | src/services/apiService.ts:35-59 | the filter phase returns exactly the in-order records meeting every active criterion |
| ApiService.SortedCopy | src/services/apiService.ts:62-77 | sorting a fresh copy in place returns `SortBy` of the list |
| ApiService.FilterDoctors | src/services/apiService.ts:27-80 | the result equals `Query`; every returned record is an input record meeting every active criterion; every input record meeting them is returned; and no record is repeated beyond its input multiplicity |
| ApiService.QueryContents | src/services/apiService.ts:38-77 | a record is in the result exactly when it is an input record meeting every active criterion, and the result is a sub-multiset of the input |
| ApiService.QueryIdentity | src/services/apiService.ts:35-79 | with no criterion active and a label that names no sort, the result is the input list itself |
| ApiService.QueryUnsortedInOrder | src/services/apiService.ts:38-75 | without a sort label the result is the in-order subsequence of matching records and distributes over concatenation |
| ApiService.QuerySortedStable | src/services/apiService.ts:62-77 | with a sort label the result is a permutation of the matching records, sorted by the label's comparator, and records the comparator ties keep their input order |
| ApiService.QueryTopRated | src/services/apiService.ts:70-71 | under 'Highest Rated' the first result is a matching record rated at least as high as every matching record |
| ApiService.QueryIdempotent | src/services/apiService.ts:38-77 | running the query on its own result with the same criteria returns that result |
| AppModel.Toggle | src/App.tsx:107-113 | a present id is filtered out, every copy of it; an absent one is appended |
| AppModel.FavoriteDoctors | src/App.tsx:117-119 | the in-order filter of `allDoctors` by "the id is in `favorites`" |
| AppModel.ToggleSpec | src/App.tsx:106-114 | an absent id is appended; a present id is removed entirely; other ids keep their membership and their relative order |
| AppModel.RemoveCounts | src/App.tsx:109 | removing an id removes every occurrence of it and keeps the multiplicity of every other id |
| AppModel.ToggleTwiceAbsent | src/App.tsx:108-111 | toggling an absent id twice restores the exact list |
| AppModel.ToggleTwicePresent | src/App.tsx:108-111 | toggling a present id twice moves it to the end, restores the set of ids, and restores the multiset when the list was duplicate-free |
| AppModel.ToggleKeepsDistinct | src/App.tsx:108-111 | a duplicate-free favourites list stays duplicate-free |
| AppModel.FavoriteDoctorsSpec | src/App.tsx:117-119 | the favourite records are the records of `allDoctors` whose id is a favourite, in `allDoctors` order; an id naming no record changes nothing although it adds one to the header count |
| AppModel.App.Valid | src/App.tsx:27-33 | the full list is empty until the fetch completes and is the sample data afterwards; once loaded, the view holds no record more often than the full list |
| AppModel.App.constructor | src/App.tsx:12-24 | the page starts with empty lists, an empty query, no favourites and the default criteria ending in 'Relevance' |
| AppModel.App.LoadDoctors | src/App.tsx:27-33 | once the fetch completes, both the full list and the view are the served data; nothing else changes |
| AppModel.App.RestoreFavorites | src/App.tsx:44-47 | a saved list replaces the favourites; without one they stay; nothing else changes |
| AppModel.App.SetFilters | src/App.tsx:148 | the filter panel's setter replaces the criteria and nothing else |
| AppModel.App.HandleSearch | src/App.tsx:56-65 | the raw query is stored; the view becomes `allDoctors` for a blank query and otherwise the name matches of the untrimmed query among the served data |
| AppModel.App.ApplyFilters | src/App.tsx:74-91 | the view becomes `Query` of the current view while a query is stored, and of `allDoctors` otherwise; during a search the view can only keep or shrink |
| AppModel.App.ResetFilters | src/App.tsx:94-103 | the criteria return to their initial value; the view becomes `allDoctors` without a stored query and is left unchanged with one |
| AppModel.App.ToggleFavorite | src/App.tsx:106-114 | the favourites become their toggle by the id, stay duplicate-free when they were, and nothing else changes |
| AppModel.App.GetFavoriteDoctors | src/App.tsx:117-119 | a record is returned exactly when it is in `allDoctors` and its id is a favourite, and the result is never longer than `allDoctors` |
| AppModel.App.ViewDrawnFromAll | src/App.tsx:56-103 | once the sample data is loaded, every record in the view is drawn from `allDoctors` and none appears twice |
| AutocompleteModel.EntryListsItself | src/components/Autocomplete.tsx:29-31 | a vocabulary entry typed in full is among its own suggestions |
| AutocompleteModel.SuggestionMatches | src/components/Autocomplete.tsx:29-31 | an entry matches when its lower-cased text includes the lower-cased input |
| AutocompleteModel.Suggestions | src/components/Autocomplete.tsx:29-31 | the in-order filter of the vocabulary by `SuggestionMatches` |
| AutocompleteModel.SuggestionsSpec | src/components/Autocomplete.tsx:29-31 | the suggestions are exactly the vocabulary entries whose lower-cased text includes the lower-cased input, in vocabulary order |
| AutocompleteModel.Autocomplete.Valid | src/components/Autocomplete.tsx:15-18 | the invariant the handlers keep: the cursor is never negative, a non-empty list has it on an entry, and the list holds only vocabulary entries |
| AutocompleteModel.Autocomplete.ListShown | src/components/Autocomplete.tsx:125 | the list is drawn: `showSuggestions` holds and the list is non-empty |
| AutocompleteModel.Autocomplete.CursorInRange | src/components/Autocomplete.tsx:72-82 | the cursor lies between 0 and the last index of the list, or is 0 for an empty list |
| AutocompleteModel.Autocomplete.ShownCursorInRange | src/components/Autocomplete.tsx:63-84 | whenever the list is drawn, the highlighted index names one of its entries, and over a non-empty list the index lies in [0, length - 1] |
| AutocompleteModel.Autocomplete.ActiveSuggestion | src/components/Autocomplete.tsx:64 | the entry Enter reads is in range and is an entry of both the shown list and the vocabulary |
| AutocompleteModel.Autocomplete.constructor | src/components/Autocomplete.tsx:15-18 | the box starts empty, with a hidden empty list and the index at 0 |
| AutocompleteModel.Autocomplete.HandleChange | src/components/Autocomplete.tsx:56-58 | typing replaces the input and nothing else |
| AutocompleteModel.Autocomplete.FilterEffect | src/components/Autocomplete.tsx:22-36 | blank input empties and hides the list without touching the index; other input shows the suggestions for the untrimmed input and resets the index to 0 |
| AutocompleteModel.Autocomplete.HandleKeyDown | src/components/Autocomplete.tsx:60-89 | Enter over a drawn list takes the highlighted entry, hides the list until the effect runs again and searches the entry, and otherwise searches the raw input; ArrowUp and ArrowDown move the index one step within [0, length - 1]; Escape hides the list; other keys change nothing; the list and the in-range index are preserved |
| AutocompleteModel.Autocomplete.HandleSuggestionClick | src/components/Autocomplete.tsx:91-94 | the handler's own updates: the entry becomes the input, the list is hidden, and the entry is searched for; the refocus of line 95 follows in `ClickAndRerender` |
| AutocompleteModel.Autocomplete.EnterAndRerender | src/components/Autocomplete.tsx:22-36 | Enter over a drawn list, then the render it causes: if the entry differs from the typed input and is not blank, the list is shown again holding the entry with the cursor at 0; if it equals the input, the list stays hidden; the entry is searched for either way |
| AutocompleteModel.Autocomplete.ClickAndRerender | src/components/Autocomplete.tsx:91-112 | a click on a vocabulary entry, its refocus (line 95, through the focus handler of line 112 reading the typed text) and the render it causes. If the entry equals the typed input, the old list stays shown whenever the input is non-empty. Any other non-blank entry shows the list again, holding the entry, with the cursor at 0. A blank one empties and hides the list. The entry is searched for in every case |
| AutocompleteModel.Autocomplete.HandleSubmit | src/components/Autocomplete.tsx:98-101 | submitting searches for the current input and hides the list |
| AutocompleteModel.Autocomplete.HandleFocus | src/components/Autocomplete.tsx:112 | focusing shows the list when the input text the handler reads is non-empty; otherwise nothing changes |
| SampleQueries.CardiologyFindsRecordOne | src/data/doctorData.ts:3-105 | 'Cardiology' returns record 1 alone, with or without the intake flag |
| SampleQueries.HematologyFindsRecordSix | src/data/doctorData.ts:68-80 | 'Hematology' returns record 6 alone, through its subspecialty |
| SampleQueries.LosAngelesOnFriday | src/data/doctorData.ts:3-105 | Los Angeles on Fridays returns records 3 and 8 in that order, and only record 8 when new patients are required |
| SampleQueries.SortLabels | src/data/doctorData.ts:151-156 | 'Relevance' keeps the order, and the other three labels choose their comparators |
| SampleQueries.HighestRatedFirst | src/data/doctorData.ts:3-105 | sorting the eight records by rating keeps all eight and puts record 2 first: it is the first of the three records rated 4.9 in input order, and the sort is stable |
| SampleQueries.SearchSample | src/services/apiService.ts:18-20 | "sarah" returns exactly Dr. Sarah Johnson, "smith" returns nothing, and the empty query returns the whole directory |
| SampleQueries.SearchHits | src/services/apiService.ts:18-20 | in any directory, a query exactly one record's name contains returns that record alone, and one no name contains returns nothing |
| SampleQueries.NameRecords | src/data/doctorData.ts:3-105 | "sarah" occurs in the lower-cased name of record 1 only, and "smith" in none |

## Left out

- Latency and asynchrony are not modelled. This covers the `setTimeout` and
  `Promise` wrappers of `fetchDoctors` and `searchDoctors`, the `loading`
  flag, and the try/finally blocks. The search is a direct call, and the
  completed fetch is the method `LoadDoctors`. A slow search that finishes
  after a newer one is a race the model cannot express.
- `localStorage` and `JSON` are not modelled: they are browser I/O.
  - `RestoreFavorites` receives the already parsed list, or `None` when
    nothing (or an empty string) is stored.
  - A malformed stored string makes the unguarded `JSON.parse` throw. The
    model has no such path.
  - Writing back on every change is not modelled.
- JSX rendering is not modelled: the header, cards, list, favourites
  modal, layout and footer. Only the drawing condition of the suggestion
  list (`ListShown`) is kept.
- `src/components/FilterPanel.tsx` is not part of this model. Its field
  updates reach the page only through the setter, which is modelled as
  `SetFilters`.
- The click-outside listener of the autocomplete is not modelled: it is a
  DOM event. The ref focus call of line 95 is modelled only through its
  effect: the focus handler runs (`HandleFocus` with the typed text).
- The `suggestions` prop of the autocomplete is a constant. The page always
  passes the fixed `specialties` vocabulary.
- The `onSearch` callback of the autocomplete is not called. Each handler
  that would call it returns the argument it would pass instead. The search
  box is not composed with the page: that its `onSearch` is the page's
  `handleSearch` (`src/App.tsx:140`) is not modelled, and the two are
  separate classes.
- The filter effect runs when the model calls `FilterEffect`, the way React
  runs it after a render whose input changed. The scheduling itself is not
  modelled.
- `HandleKeyDown`, `HandleSuggestionClick`: the list they hide stays hidden
  only until the effect runs again. The effect runs again whenever the chosen
  entry differs from the typed input. A click also refocuses the input, and
  that shows the list again in the same update. `EnterAndRerender` and
  `ClickAndRerender` give the state after all of these steps.
- `localeCompare` collation is locale-dependent, so the model uses
  lexicographic order on character codes (`Text.Less`).
- `toLowerCase` is modelled for ASCII letters only.
- Ratings are integer tenths of a star, not floating-point numbers. The
  code only subtracts and compares them.
- `filterDoctors` receives its list as an immutable sequence. That its
  caller's array is left unsorted therefore holds by construction, not by
  proof. The in-place sort runs on the fresh array `SortedCopy` allocates.
- Array aliasing between the view and `allDoctors` is not modelled: both
  are immutable sequence values.
