# Seat map and flight search view state, in Dafny

This project models the view logic of a flight-booking front end: the seat-map
screen (`SeatSelection`) and how the flight search form (`FlightSearch`) builds
its query parameters. The seat-map screen keeps three pieces of state:

- the selection: a sequence of seat records, where membership is decided by id;
- the recommended seats fetched from the server;
- three recommendation filters.

From the plan of seats it derives the rows it shows:

- seats are grouped by the first run of digits in their seat number;
- rows appear in numeric order;
- within a row, seats appear in seat-number order;
- each seat is coloured by a fixed precedence.

The search form sends only the fields that are non-empty.

Modules, one per concern:

- `Wrappers` (wrappers.dfy): `Option`.
- `Sequences` (sequences.dfy): `Filter` and a comparator `Sort`. They stand for the array builtins `filter` and `sort`, and their properties are proved once.
- `SeatNumbers` (seat_numbers.dfy): reading a seat number. This covers the row key (`/\d+/`), the label (`replace(/\d+/, "")`), the aisle test (`endsWith("C")`), the numeric value of a row key and the order used between seat numbers.
- `Seats` (seats.dfy): the `Seat` record and the id lookup (`some`). Prices are integer euro cents.
- `Selection` (selection.dfy): `toggleSeatSelection`, `handleFilterChange` and the total price. These are pure functions, as in the source.
- `Layout` (layout.dfy): the grouping loop is an imperative method over a `map`, proved against the specification function `Grouped`. This module also holds the two sorts and the rendered seat map.
- `Display` (display.dfy): the colour precedence of a seat button.
- `FlightSearch` (flight_search.dfy): building the search parameters. This is an imperative method that starts from an empty map and adds fields under guards.

Choices made where the source leaves something open:

- `localeCompare` is modelled as plain lexicographic order on characters (`SeatNumbers.LexLe`). It is proved total and transitive, and it has no ties.
- `Number(row)` is the exact base-ten value of the digit string (`SeatNumbers.DecimalValue`).
- The row keys are taken in the order the loop first creates them.

## Model

| member | source | states |
|---|---|---|
| Sequences.Filter | src/components/SeatSelection.tsx:82 | the result is never longer than the input |
| Sequences.FilterMembers | src/components/SeatSelection.tsx:82 | a value is in the result exactly when it is in the input and satisfies the predicate |
| Sequences.FilterConcat | src/components/SeatSelection.tsx:82 | filtering keeps relative order: filtering `a + b` gives the survivors of `a` followed by those of `b` |
| Sequences.Sort | src/components/SeatSelection.tsx:73-75 | for any total, transitive comparator relation, the result is a permutation of the input (same multiset, same length) in which every element is related to every later one |
| SeatNumbers.FirstDigit | src/components/SeatSelection.tsx:64 | the match of `/\d+/` starts at the first ASCII digit: no digit before it, and there is no match exactly when there is no digit |
| SeatNumbers.RunEnd | src/components/SeatSelection.tsx:64 | the match is greedy: all digits up to the end, and the next character, if any, is not a digit |
| SeatNumbers.RowKey | src/components/SeatSelection.tsx:64-65 | there is no row exactly when the seat number has no digit; otherwise the row is a non-empty string of digits, so it is always truthy |
| SeatNumbers.RowKeyOfParts | src/components/SeatSelection.tsx:64 | for a seat number made of a digit-free prefix, a digit run and a rest not starting with a digit, the row is exactly that run |
| SeatNumbers.SeatNumberSplit | src/components/SeatSelection.tsx:64 | the converse: every seat number with a row splits as prefix + row + rest in that form |
| SeatNumbers.LabelOfParts | src/components/SeatSelection.tsx:177 | the label removes only the first digit run: for a seat number split as above it is the prefix followed by the rest ("12C" shows "C") |
| SeatNumbers.Label | src/components/SeatSelection.tsx:177 | a seat number without digits is shown unchanged; otherwise the label is shorter by exactly the length of the row key |
| SeatNumbers.AisleOfParts | src/components/SeatSelection.tsx:150 | a seat numbered row + column gets the aisle gap exactly when the column ends in "C" |
| SeatNumbers.DecimalValueLeadingZero | src/components/SeatSelection.tsx:74 | a leading zero does not change a row key's numeric value |
| SeatNumbers.LexLeTotal | src/components/SeatSelection.tsx:148 | any two seat numbers are comparable in the in-row order |
| SeatNumbers.LexLeTransitive | src/components/SeatSelection.tsx:148 | the in-row order is transitive |
| SeatNumbers.LexLeAntisymmetric | src/components/SeatSelection.tsx:148 | two seat numbers ordered each before the other are equal |
| Selection.WithoutId | src/components/SeatSelection.tsx:82 | no entry with the id remains, and the result holds exactly the entries whose id differs |
| Selection.OnlyId | src/components/SeatSelection.tsx:81 | exactly the entries that carry the id |
| Selection.Toggle | src/components/SeatSelection.tsx:77-85 | an occupied seat leaves the selection unchanged; otherwise the clicked id's membership flips, and the membership of every other id is unchanged |
| Selection.ToggleAbsent | src/components/SeatSelection.tsx:83 | toggling a free seat whose id is not selected appends exactly that seat at the end, and the earlier entries are unchanged |
| Selection.ToggleRemovesInOrder | src/components/SeatSelection.tsx:82 | toggling a free seat whose id is selected removes every entry with that id and keeps the rest in their original order |
| Selection.TogglePresent | src/components/SeatSelection.tsx:81-82 | with distinct ids, deselecting removes exactly the one entry at the index holding that id |
| Selection.TogglePreservesValid | src/components/SeatSelection.tsx:78-84 | toggling keeps the selection's ids distinct and keeps occupied seats out of it |
| Selection.TogglePreservesFromPlan | src/components/SeatSelection.tsx:175 | clicking a seat of the plan keeps every selected seat one of the plan's seats |
| Selection.ToggleTwiceAbsent | src/components/SeatSelection.tsx:80-84 | toggling the same free seat twice, when it started unselected, restores the exact sequence |
| Selection.ToggleTwicePresent | src/components/SeatSelection.tsx:80-84 | toggling the same free seat twice, when it started selected, restores the set of ids but moves the seat to the end |
| Selection.ChangeFilter | src/components/SeatSelection.tsx:87-92 | the named flag is flipped and the other two are unchanged |
| Selection.ChangeFilterTwice | src/components/SeatSelection.tsx:87-92 | changing the same filter twice is the identity |
| Selection.ChangeFilterCommutes | src/components/SeatSelection.tsx:87-92 | changes to two filters give the same record in either order |
| Selection.TotalPrice | src/components/SeatSelection.tsx:94-95 | the total of an empty selection is 0, and the total is non-negative when every price is |
| Selection.TotalPriceConcat | src/components/SeatSelection.tsx:94-95 | the total is additive over concatenation |
| Selection.TotalPriceSplit | src/components/SeatSelection.tsx:94-95 | the total is the total of the entries without an id plus the total of those with it |
| Selection.TotalPriceToggle | src/components/SeatSelection.tsx:94-95 | selecting a free seat adds its price, and deselecting subtracts the prices of the entries removed |
| Selection.TwoSeatTotal | src/components/SeatSelection.tsx:94-96 | selecting 12A at 50.00 and 14C at 75.00 gives a total of 125.00 (12500 cents) |
| Layout.RowOrder | src/components/SeatSelection.tsx:66-68 | the row keys in creation order, each key once |
| Layout.RowOrderKeys | src/components/SeatSelection.tsx:62-71 | a key is a row exactly when some seat of the plan has that row |
| Layout.GroupedSnocNoRow | src/components/SeatSelection.tsx:65 | a seat without digits changes neither the rows nor the groups |
| Layout.AddSeat | src/components/SeatSelection.tsx:66-69 | one loop step adds the key if it is missing and keeps every other key; the key's group is its old group, or empty if there was none, with the seat pushed at the end; every other group is unchanged |
| Layout.GroupedSnocRow | src/components/SeatSelection.tsx:66-69 | a seat with row k creates k's group if it is missing and is pushed at its end; the other groups are unchanged |
| Layout.GroupSeats | src/components/SeatSelection.tsx:62-71 | the loop builds exactly the dictionary `Grouped(seats)`, and its keys in creation order |
| Layout.GroupedPartition | src/components/SeatSelection.tsx:62-71 | every plan seat with a digit is in the group of its own row key and in no other group; a seat without digits is in no group |
| Layout.GroupKeepsPlanOrder | src/components/SeatSelection.tsx:69 | a group keeps plan order: seats of an earlier part of the plan come first |
| Layout.GroupSizesSum | src/components/SeatSelection.tsx:62-71 | the group sizes add up to the number of seats whose number has a digit |
| Layout.SortRows | src/components/SeatSelection.tsx:73-75 | `sortedRows` is a permutation of the row keys in non-decreasing numeric order |
| Layout.SortRow | src/components/SeatSelection.tsx:148 | a displayed row is a permutation of its group, sorted by seat number |
| Layout.SeatMap | src/components/SeatSelection.tsx:138-148 | the rendered rows are a permutation of the keys in numeric order, and each row's seats are a permutation of its group, sorted by seat number |
| Layout.SeatMapOfPlan | src/components/SeatSelection.tsx:62-148 | for a whole plan, each row appears once, each seat with a digit appears in its own row and only there, and a seat is shown only if it is in the plan |
| Display.StateOf | src/components/SeatSelection.tsx:162-172 | the state shown is one the seat qualifies for, and the seat qualifies for no state of higher precedence (occupied, selected, recommended, business, standard) |
| Display.PrecedenceUnique | src/components/SeatSelection.tsx:162-172 | the precedence leaves no choice: any state that satisfies it is the one shown |
| Display.ToggleShowsSelected | src/components/SeatSelection.tsx:151-166 | after clicking a free, unselected seat, it shows as selected, even when it is recommended |
| Display.ToggleShowsDeselected | src/components/SeatSelection.tsx:151-172 | after clicking a selected seat, it shows as it would with nothing selected |
| Display.ToggleLeavesOthers | src/components/SeatSelection.tsx:151-172 | clicking a seat never changes how a seat with another id is shown |
| FlightSearch.SearchParams | src/components/FlightSearch.tsx:23-27 | each of origin, destination and date is a key exactly when its input is non-empty, and then holds the input unchanged (no trimming); each key depends only on its own input; there are no other keys; all-empty inputs give an empty map |

## Left out

- HTTP fetches of the seat plan, the recommended seats and the flight list, and their error logging (SeatSelection.tsx:27-60, FlightSearch.tsx:28-34). The seat list and the recommended list are inputs of the model. The recommendation request's parameters (the filters plus `count: 3`) are not modelled.
- React state hooks, re-rendering and navigation (`useState`, `useEffect`, `useLocation`, `navigate`). The missing-flight guard only gates the fetches.
- Races between overlapping fetches (the last response wins): this concerns concurrency, not sequential logic.
- The decimal rendering of the total (`toFixed(2)`): prices and the total are exact integer cents. The source adds floating-point numbers.
- Date formatting (`formatDateTime`), which depends on `Date` and the local time zone.
- The JSX markup and CSS classes, apart from the colour precedence, the aisle gap and the label. The extra margin after the second row is styling.
- The price slider (PriceSlider.tsx) and the app shell (App.tsx). They are presentational.
- Layout.SortRows: stability is not stated. `Array.prototype.sort` is stable, but the model only pins the result up to the order of keys with equal numeric value ("1" and "01"). The model's key order is the order in which keys are created. JavaScript's `Object.keys` lists canonical integer keys first, in ascending order, so the two differ only among such ties.
- The in-row `.sort` reorders the group array of `groupedSeats` in place. That dictionary is rebuilt on every render and read nowhere else, so the model returns a sorted copy instead (`Layout.SortRow`).
- Layout.SortRow: stability is not stated. Under the modelled order, only identical seat numbers tie.
- `localeCompare` is modelled as plain character order. Locale-specific collation, such as case-insensitive ordering, is not modelled.
- Row numbers are exact integers. `Number` loses precision for digit strings beyond 2^53.
