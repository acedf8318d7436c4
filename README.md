# Tracksphere vehicle search, modelled in Dafny

Tracksphere is a single-screen Android dashboard that lists tracked vehicles
and has a search bar above the list. The only logic on that screen is the
search filter `filterVehicleList`. Given the typed query and the list of
vehicles, it keeps, in list order, each vehicle whose number plate, status
label or speed/time text contains the query, ignoring case. This project
models that filter and the `Vehicle` record it works on, and proves what
the filter promises: the empty query keeps everything, the result is sound
and complete, the result is an order-preserving subsequence, the colour
plays no part, the search is case-insensitive, and a second search changes
nothing.

Files and modules:

- `vehicle.dfy`, module `Vehicles`: the immutable `Vehicle` record, a
  datatype with structural equality. Its colour is an opaque 64-bit word.
- `text_match.dfy`, module `TextMatch`: `contains(query, ignoreCase =
  true)`. The query is tried at each start index 0..length of the text.
  An index matches when every query character equals the text character at
  that offset. Two characters are equal ignoring case when they are
  identical, equal after upper-casing, or equal after lower-casing their
  upper-case forms. `ContainsIgnoreCase` is proved equivalent to a
  reference definition, `OccursIgnoreCase` (some slice of the text equals
  the query ignoring case), by `ContainsIffOccurs`, and `IndexOfFindsFirst`
  proves the search returns the first match.
- `list_filter.dfy`, module `ListFilter`: the library `filter` over a
  predicate, with its reference specification `Selects`. `Selects` says the
  result is the input at strictly increasing positions, and those positions
  are exactly the accepted ones. Its algebraic lemmas are proved here once,
  generically.
- `dashboard.dfy`, module `Dashboard`: the search predicate `Matches` and
  `FilterVehicleList`, with the search-level properties and the worked
  example of a running and an idle vehicle.

`Vehicle` validates nothing, so any strings, empty ones included, form a
record (`Vehicles.AnyFieldsFormVehicle`).

## Model

| member | source | states |
|---|---|---|
| Vehicles.VehicleEquality | app/src/main/java/com/example/tracksphere/model/Vehicle.kt:4-9 | two vehicles are equal exactly when all four fields are equal (data-class structural equality) |
| Vehicles.AnyFieldsFormVehicle | app/src/main/java/com/example/tracksphere/model/Vehicle.kt:4-9 | any four field values, empty strings included, form a record that returns exactly those values: nothing is validated |
| Vehicles.RecolorKeepsText | app/src/main/java/com/example/tracksphere/model/Vehicle.kt:5-8 | a copy with another colour keeps the three text fields and carries the new colour |
| TextMatch.CharEqualsIgnoreCase | app/src/main/java/com/example/tracksphere/activity/Dashboard.kt:162-164 | the per-character comparison that `contains(..., ignoreCase = true)` makes: every character equals itself, and a character that is not an ASCII letter equals only itself |
| TextMatch.CharEqualsIgnoreCaseIsFoldEquality | app/src/main/java/com/example/tracksphere/activity/Dashboard.kt:162-164 | character equality ignoring case holds exactly when both characters fold to the same character, and it is symmetric |
| TextMatch.CharEqualsIgnoreCaseTransitive | app/src/main/java/com/example/tracksphere/activity/Dashboard.kt:162-164 | character equality ignoring case is transitive, so with reflexivity and symmetry it is an equivalence |
| TextMatch.LetterCases | app/src/main/java/com/example/tracksphere/activity/Dashboard.kt:162-164 | a lower-case letter equals its upper-case form ignoring case and equals no other letter of either case |
| TextMatch.RegionMatchesIgnoreCase | app/src/main/java/com/example/tracksphere/activity/Dashboard.kt:162-164 | a region match at an offset lies wholly inside the text, and the empty query matches at every index from 0 to the text's length |
| TextMatch.IndexOfIgnoreCase | app/src/main/java/com/example/tracksphere/activity/Dashboard.kt:162-164 | a non-negative answer is an index at or after the start where the query matches the text ignoring case |
| TextMatch.ContainsIgnoreCase | app/src/main/java/com/example/tracksphere/activity/Dashboard.kt:162-164 | `contains(query, ignoreCase = true)`: every text contains the empty query, and a contained query is no longer than the text |
| TextMatch.IndexOfFindsFirst | app/src/main/java/com/example/tracksphere/activity/Dashboard.kt:162-164 | the search answers -1 exactly when no index from the start matches; otherwise no earlier index matches |
| TextMatch.MatchIsFound | app/src/main/java/com/example/tracksphere/activity/Dashboard.kt:162-164 | a match at any offset makes `contains` true, and the first match found is at or before that offset |
| TextMatch.ContainsIffOccurs | app/src/main/java/com/example/tracksphere/activity/Dashboard.kt:162-164 | `contains` holds exactly when some slice of the text equals the query ignoring case |
| TextMatch.ContainsEmptyQuery | app/src/main/java/com/example/tracksphere/activity/Dashboard.kt:162-164 | every text, the empty one included, contains the empty query |
| TextMatch.ContainedQueryFits | app/src/main/java/com/example/tracksphere/activity/Dashboard.kt:162-164 | a query the text contains is no longer than the text |
| TextMatch.ContainsCaseVariant | app/src/main/java/com/example/tracksphere/activity/Dashboard.kt:162-164 | a text contains every string equal to it ignoring case |
| TextMatch.ContainsInfix | app/src/main/java/com/example/tracksphere/activity/Dashboard.kt:162-164 | the query is contained in any text built around it |
| TextMatch.FirstCharAbsentNotContained | app/src/main/java/com/example/tracksphere/activity/Dashboard.kt:162-164 | a text with no character case-equal to the query's first character does not contain the query |
| TextMatch.RegionMatchRespectsQueryCase | app/src/main/java/com/example/tracksphere/activity/Dashboard.kt:162-164 | queries equal ignoring case match at exactly the same offsets |
| TextMatch.ContainsRespectsQueryCase | app/src/main/java/com/example/tracksphere/activity/Dashboard.kt:162-164 | queries equal ignoring case ("RUN", "run") are contained in exactly the same texts |
| ListFilter.Filter | app/src/main/java/com/example/tracksphere/activity/Dashboard.kt:161-165 | the filtered list is never longer than the input |
| ListFilter.FilterMembership | app/src/main/java/com/example/tracksphere/activity/Dashboard.kt:161-165 | an element is in the result exactly when it is in the input and accepted |
| ListFilter.KeptPositions | app/src/main/java/com/example/tracksphere/activity/Dashboard.kt:161-165 | the accepted positions, strictly increasing, each a position of the input, and containing exactly the accepted positions |
| ListFilter.FilterSelects | app/src/main/java/com/example/tracksphere/activity/Dashboard.kt:161-165 | the result is the input at the accepted positions, in increasing order |
| ListFilter.SelectionIsFilter | app/src/main/java/com/example/tracksphere/activity/Dashboard.kt:161-165 | any list that picks exactly the accepted positions in increasing order is the filter's result |
| ListFilter.FilterIsTheSelection | app/src/main/java/com/example/tracksphere/activity/Dashboard.kt:161-165 | a list is the result exactly when it is an order-preserving selection of the accepted positions |
| ListFilter.PositionsFitLength | app/src/main/java/com/example/tracksphere/activity/Dashboard.kt:161 | strictly increasing positions of a list are no more than its length |
| ListFilter.FilterAppend | app/src/main/java/com/example/tracksphere/activity/Dashboard.kt:161-165 | filtering a concatenation is concatenating the filtered parts |
| ListFilter.FilterAllKept | app/src/main/java/com/example/tracksphere/activity/Dashboard.kt:161-165 | a list whose every element is accepted comes back unchanged |
| ListFilter.FilterIdempotent | app/src/main/java/com/example/tracksphere/activity/Dashboard.kt:161-165 | filtering twice with the same predicate is filtering once |
| ListFilter.EmptyIffNoneKept | app/src/main/java/com/example/tracksphere/activity/Dashboard.kt:161-165 | the result is empty exactly when no element is accepted |
| ListFilter.FilterAgreeing | app/src/main/java/com/example/tracksphere/activity/Dashboard.kt:161-165 | predicates that agree on the input's elements give the same result |
| ListFilter.SameVerdictsSamePositions | app/src/main/java/com/example/tracksphere/activity/Dashboard.kt:161-165 | lists with the same verdict at each position keep the same positions |
| Dashboard.Matches | app/src/main/java/com/example/tracksphere/activity/Dashboard.kt:162-164 | the filter's test on one vehicle: the empty query accepts every vehicle, and an accepted query is no longer than at least one of the three text fields |
| Dashboard.FilterVehicleList | app/src/main/java/com/example/tracksphere/activity/Dashboard.kt:160-165 | filters with `MatchesQuery(query)`, that is `Matches` as a lambda; soundness and completeness: every kept vehicle is an input vehicle that matches, every matching input vehicle is kept, and the result is no longer than the input |
| Dashboard.SearchIsOrderedSelection | app/src/main/java/com/example/tracksphere/activity/Dashboard.kt:161-165 | a list is the search result exactly when it is the input at increasing positions that are exactly the positions of matching vehicles |
| Dashboard.SearchIsSubsequence | app/src/main/java/com/example/tracksphere/activity/Dashboard.kt:161 | the result is made of the input's own records at strictly increasing positions, so it is no longer than the input |
| Dashboard.EmptyQueryKeepsAll | app/src/main/java/com/example/tracksphere/activity/Dashboard.kt:161-165 | an empty query returns the whole list in its original order |
| Dashboard.SearchIdempotent | app/src/main/java/com/example/tracksphere/activity/Dashboard.kt:161-165 | searching the result again with the same query returns it unchanged |
| Dashboard.EmptyResultIffNoMatch | app/src/main/java/com/example/tracksphere/activity/Dashboard.kt:161-165 | the result is empty exactly when no field of any vehicle contains the query |
| Dashboard.MatchesIgnoresColor | app/src/main/java/com/example/tracksphere/activity/Dashboard.kt:162-164 | vehicles with the same three text fields match the same queries, whatever their colours |
| Dashboard.SearchIgnoresColor | app/src/main/java/com/example/tracksphere/activity/Dashboard.kt:162-164 | lists that differ only in colours keep the same positions, giving results that differ only in colours |
| Dashboard.SearchIgnoresRecolor | app/src/main/java/com/example/tracksphere/activity/Dashboard.kt:162-164 | giving every vehicle a new badge colour keeps exactly the same positions in the result |
| Dashboard.SearchIgnoresQueryCase | app/src/main/java/com/example/tracksphere/activity/Dashboard.kt:162-164 | two queries equal character by character ignoring case give the same result |
| Dashboard.UpperAndLowerQuerySame | app/src/main/java/com/example/tracksphere/activity/Dashboard.kt:162-164 | searching "RUN" and searching "run" give the same list |
| Dashboard.RunningExample | app/src/main/java/com/example/tracksphere/activity/Dashboard.kt:161-165 | of ("KA01", "Running", "45 km/h") and ("KA02", "Idle", "2 min ago"), the query "run" keeps only the first |

## Left out

- The Compose UI (`TopBar`, `BottomNavigationBar`, `StatusSummary`, `StatusCard`, `VehicleList`, `VehicleCard`, `DefaultPreview`, the `Dashboard` activity's `onCreate`): these are layout and Android lifecycle code, not logic.
- The search bar's `remember { mutableStateOf("") }` state and its `onValueChange` update: this is UI-framework state binding. The query is a plain parameter instead.
- The call to `filterVehicleList` during the search bar's rendering, and the `VehicleList(filteredVehicles)` call that shows the result: these are rendering side effects. The model returns the filtered list instead.
- `getMockVehicleList()` is defined outside `Dashboard.kt` and `Vehicle.kt`, the two files modelled, so the vehicle list is a parameter of `FilterVehicleList`.
- Colour values and how they are drawn: `Color` is an opaque 64-bit word that nothing reads.
- TextMatch.CharEqualsIgnoreCase: case mapping is ASCII only. Kotlin's full Unicode mapping is a library call, so non-ASCII letters match only themselves here (for example 'é' does not match 'É').
- Strings are sequences of Unicode scalar values, where a Kotlin `String` is a sequence of UTF-16 code units. A lone surrogate cannot be written in the model, and a supplementary character is one element here but two code units in Kotlin. Case mapping only touches ASCII, so no search result differs on well-formed text.
- Null inputs do not arise: Kotlin's `String` and `List<Vehicle>` types here are non-nullable.
