# Pattaya dashboard: time-window model

This project models the decision logic of a map dashboard of places in Pattaya.
Each place in the table gets opening and closing hours derived from its
sub-category. The user picks an hour of the day and a main category. The
dashboard then shows two lists: the places open at that hour, and the places
whose closing hour is that hour, used as a hint of traffic from people leaving.

The model has four parts, each in its own module:

- `Text` (text.dfy): ASCII lower-casing and the substring test (`in`).
- `Hours` (hours.dfy): the hours resolver (`get_hours`). It is an ordered table of six
  two-keyword rules, with (9, 21) as the default. The first rule whose keyword occurs
  in the lower-cased sub-category decides.
- `OpenWindow` (open_window.dfy): the open-at-hour predicate (`is_open`). (0, 24) is
  always open. A same-day window is the half-open interval `[open, close)`. A window
  with `open > close` wraps past midnight.
- `Dashboard` (dashboard.dfy), built on `Selection` (selection.dfy) and `Ordering`
  (ordering.dfy): dropping rows without coordinates and attaching the hours; the
  category filter (`"All"` means no filter); the open and closing-soon views as
  order-preserving selections; and the list of category choices, which is `"All"`
  followed by the distinct category texts sorted ascending.

`Scenarios` (scenarios.dfy) works three concrete places through the views: a bar
("Nightlife Bar"), a cafe ("Cafes") and a convenience store ("Convenience Store").

Empty cells are `Option` values. `str()` of an empty cell is the text `"nan"`, and
the model keeps the two consequences of that:
- An empty sub-category resolves to the default (9, 21).
- An empty main category appears in the choices as `"nan"`, but choosing `"nan"` does
  not keep that place, because an empty cell never equals a string.

Two behaviours of the code are easy to miss, and the model follows the code in both:
- A table with no row that has coordinates does not load as an empty dashboard;
  the load fails (see "## Findings").
- A place with an empty main category is offered as the choice `"nan"`, and
  choosing `"nan"` shows nothing, as described above.

## Model

| member | source | states |
|---|---|---|
| Text.Lower | app.py:52 | the lower-cased string has the same length; every upper-case letter becomes its lower-case letter, every other character is unchanged, and no upper-case letter remains |
| Text.LowerIdempotent | app.py:52 | lower-casing an already lower-cased string changes nothing |
| Text.Contains | app.py:53-58 | the substring test `sub in s`: an occurring block is no longer than the string, and the empty string and the string itself always occur |
| Hours.FirstMatchIndex | app.py:53-59 | the index found is the first rule whose keyword occurs: no earlier rule matches, and the rule at that index does (or no rule matches at all) |
| Hours.FirstMatch | app.py:53-59 | if no rule matches, the result is the default window; otherwise it is the window of the first matching rule |
| Hours.GetHours | app.py:51-59 | total on every string; the result is one of the seven windows, with both hours in [0, 24] |
| Hours.GetHoursByCases | app.py:51-59 | the rule table resolves every string exactly as the if/elif chain of substring tests on the lower-cased string does |
| Hours.DefaultIffNoKeyword | app.py:53-59 | the result is (9, 21) if and only if no keyword of any rule occurs in the lower-cased sub-category |
| Hours.WrapsIffNightlife | app.py:53-59 | a window with open > close (wrapping past midnight) is produced if and only if "nightlife" or "bars" occurs |
| Hours.CaseInsensitive | app.py:52 | resolving the lower-cased sub-category gives the same window as resolving the original |
| Hours.NightlifeWins | app.py:53 | a sub-category containing "nightlife" or "bars" gets (18, 2), whatever else it contains |
| Hours.CafesBeatMall | app.py:54-56 | first match, not most specific: with "cafes" and "mall" both present (and no earlier keyword), the result is cafe hours (8, 20), not mall hours |
| OpenWindow.IsOpen | app.py:88-92 | the open test; no window other than (0, 24) is open in the hour it closes, and a window opening and closing at the same hour is never open |
| OpenWindow.AlwaysOpen | app.py:90 | (0, 24) is open at every hour |
| OpenWindow.SameDay | app.py:91 | for open <= close other than (0, 24), open at h if and only if open <= h < close |
| OpenWindow.Wraparound | app.py:92 | for open > close, open at h if and only if h >= open or h < close |
| OpenWindow.ClosesAtMidnight | app.py:91-92 | a window closing at hour 0 under a positive opening hour takes the wrapping branch: open exactly from the opening hour on |
| OpenWindow.Duration | app.py:88-92 | the window length in hours lies in [0, 24], and is 24 exactly for (0, 24) |
| OpenWindow.OpenIffWithinDuration | app.py:88-92 | independent characterisation: open at h if and only if the hours elapsed since opening, counted round the clock, are fewer than the window's length |
| OpenWindow.OpenHoursPerDay | app.py:88-92 | over the 24 hours of a day a window is open for exactly its length |
| Selection.Filter | app.py:94-95 | a boolean-mask selection is an order-preserving subsequence holding exactly the elements that pass, with their multiplicities |
| Selection.FilterIdempotent | app.py:94-95 | selecting again with the same test changes nothing |
| Selection.FilterLength | app.py:94-95 | a selection is never longer than its input, and keeps the full length exactly when every element passes |
| Dashboard.CellText | app.py:52 | `str()` of a cell: an empty cell reads as "nan", a string reads as itself |
| Dashboard.DropMissingCoordinates | app.py:49 | keeps, in table order and with every repeat, exactly the rows with both coordinates |
| Dashboard.AttachHours | app.py:61 | one place per row, in row order, each carrying the hours its sub-category resolves to |
| Dashboard.Load | app.py:49-61 | the loaded places are the rows with coordinates in table order, position by position, each with its derived hours; an empty table loads as no places |
| Dashboard.LoadAsWritten | app.py:61 | the load as written fails, with the unpacking error, exactly when no row has coordinates, and otherwise returns what Load returns |
| Dashboard.CategoryFilter | app.py:86 | "All" is the identity; any other choice keeps, in order and with every repeat, exactly the places whose category equals it |
| Dashboard.Active | app.py:88-94 | keeps, in order and with every repeat, exactly the places open at the selected hour |
| Dashboard.ClosingSoon | app.py:95 | keeps, in order and with every repeat, exactly the places whose closing hour is the selected hour, without testing whether they are open |
| Dashboard.Select | app.py:86-95 | both views are subsequences of the places; each view holds every place that passes the category filter and that view's test as often as the table does, and no other place |
| Dashboard.FiltersIdempotent | app.py:86-95 | applying the category, open or closing filter to its own output changes nothing |
| Dashboard.SelectIdempotent | app.py:86-94 | running the same query over its own open view returns that view |
| Dashboard.ClosingSoonDisjointFromActive | app.py:88-95 | for hours 0 to 23, no loaded place is in both views: the closing-soon list holds places that are already closed |
| Dashboard.UnknownCategoryEmptiesViews | app.py:86-95 | a category that no place has leaves both views empty |
| Dashboard.CategoryTexts | app.py:82 | `astype(str)` of the category column: one text per place, position by position |
| Dashboard.CategoryOptions | app.py:82 | "All" first, then the category texts strictly ascending (so without duplicates), holding exactly the texts that occur |
| Dashboard.CategoryOptionsDependOnlyOnCategories | app.py:82 | the choice list depends only on which category texts occur, not on their order or repetition |
| Dashboard.ChoosingAnOptionKeepsItsPlaces | app.py:82-86 | every stored category is offered, and choosing it keeps all of its places |
| Dashboard.NanOptionKeepsNoEmptyCategory | app.py:82-86 | a place with an empty category makes "nan" a choice, yet choosing "nan" does not keep that place |
| Ordering.Less | app.py:82 | Python's `<` on strings, code point by code point with a proper prefix first; no string is less than itself |
| Ordering.SortedDistinct | app.py:82 | the result is strictly ascending in string order and holds exactly the input's elements |
| Ordering.StrictlySortedUnique | app.py:82 | two strictly ascending lists with the same elements are equal, so the sorted list of distinct values is determined |
| Scenarios.NightlifeBarHours | app.py:53 | "Nightlife Bar" resolves to (18, 2) |
| Scenarios.CafesHours | app.py:54 | "Cafes" resolves to (8, 20) |
| Scenarios.ConvenienceStoreHours | app.py:55 | "Convenience Store" resolves to (0, 24) |
| Scenarios.CafesInMallHours | app.py:54-56 | "Cafes in Mall" matches two rules and the earlier one gives (8, 20) |
| Scenarios.EmptySubCategoryHours | app.py:51-59 | an empty sub-category is resolved as "nan" and gets the default (9, 21) |
| Scenarios.ScenarioLoad | app.py:49-61 | the bar, cafe and store rows load in order with hours (18, 2), (8, 20) and (0, 24) |
| Scenarios.ScenarioLateEvening | app.py:86-95 | at 23:00 with "All", the open view is the bar and the store, and nothing closes |
| Scenarios.ScenarioSmallHours | app.py:86-95 | at 02:00 only the store is open, while the bar (closing at 2) is the one closing place |
| Scenarios.ScenarioUnknownCategory | app.py:86-95 | a category none of the three places has leaves both views empty at every hour |
| Scenarios.EmptyTableFailsToLoad | app.py:61 | on a table with no usable row the load as written fails, while the intended load gives no places |

## Left out

- Reading the CSV file and memoising the load (app.py:42-46, 64): file I/O and a framework cache. The table is a parameter, a sequence of rows.
- Renaming `Latitude`/`Longitude` columns (app.py:47-48): column plumbing. Coordinates are modelled only as present or absent (`Option<real>`); float NaN handling is not modelled.
- Page configuration, CSS, layout, metrics, slider, category box and checkbox (app.py:11-37, 69-81, 83-84, 97-104, 113-114): presentation. The selected hour and category are query parameters; the slider's bound of 0 to 23 appears only as a precondition of the lemmas that need it.
- The map, its markers and the heat map (app.py:119-138), including the toggle that hides the heat map: rendering by foreign libraries.
- The top-five bar chart (app.py:105-112): a foreign charting library, with pandas-defined tie ordering of `value_counts`.
- The display-name fallbacks (app.py:124, 146-152): presentation that depends on pandas NaN semantics. Rows carry no display names.
- Text.Lower: lower-cases ASCII letters only. Python's `str.lower()` also lower-cases other letters (for example accented Latin letters), which the model leaves unchanged. None of the rule keywords contains such a letter, but a non-ASCII letter whose lower-case form is ASCII would be treated differently.
- Dashboard.Row: a cell of the category columns is either a string or empty. Numbers or other non-string values in those columns, and their `str()` forms, are not modelled.

## Findings

| source | as written | input that shows it | evidently intended | confidence | as-written member | corrected member |
|---|---|---|---|---|---|---|
| app.py:61 | `zip(*...)` over the hours of zero rows has nothing to unpack into the two hour columns, so loading raises an error | a table in which no row has both coordinates (or no rows at all) | an empty table loads as no places, and the views are empty | high; not executed | Scenarios.EmptyTableFailsToLoad | Dashboard.Load |
