# EasySeats seat-assignment engine in Dafny

This project models the engine of EasySeats, a classroom seat-assignment program (`lib.py`).

- **Layout.** A layout is a list of column specifications (`type`, `length`, `start`). Each becomes a `Column` of `length + start` `Seat` objects, and the first `start` of them are unavailable.
- **Classroom.** A `Classs` builds one column per specification. It then lists the coordinates `(x, y)` of the available seats of the `"seats"` columns, in column-major order.
- **Validation.** `check` validates a roster against that list. It returns `-1` (no seats), `-2` (no students), `-3` (not enough seats) or `False`, in that priority order.
- **Assignment.** `random` places the roster. It repeatedly pops a random student and a random coordinate from copies of the two lists, appends the coordinate to `have_random_seats`, and writes the student into the seat.
- **Views.** Three read-only views present the result:
  - `get_processed_data` maps `str((x, y))` of every filled coordinate to its occupant;
  - `display_unit` gives the table size;
  - `way_gather` gives the aisle columns.
- **The result table.** The main window reads each key `"(x, y)"` back and draws the occupant at column `x`, row `y + 1`. Row 0 is the podium.

The model is organised in these modules:

- `SeatLayout` (layout.dfy) is the value-level description:
  - column specifications and the availability pattern a column gets;
  - `AvailIndices`, the scan for available indices;
  - `AvailSeats`, the list of available coordinates, and `Capacity`, the number of seats;
  - `MaxOf`, Python's `max`.
- `Assignment` (assignment.dfy) is the assignment loop as a function of its random draws.
  - `Deal` gives the (position, student) pairs the loop makes. `After` gives the occupant of a seat after those pairs are written.
  - `random.randint` is an injected source `rng: nat -> nat`. The k-th draw over n choices is `rng(k) % n`. Draw `2 * step` picks the student and draw `2 * step + 1` picks the seat, in the order of `lib.py:156-157`.
  - Every sequence of in-range choices is some `rng`, so the properties hold for every run.
- `PositionKeys` (keys.dfy) covers three things:
  - the decimal rendering of `str((x, y))`;
  - the main window's parse of a key (`strip('()')`, `split(',')`, `int(...strip())`, +1 on the row);
  - `Processed`, the dictionary built by writing values under the keys of a list of positions.
- `Seating` (seating.dfy) holds the classes `Seat`, `Column` and `Classroom` (the source's `Classs`).
  - Their fields are updated in place, as in the source. A seat's student is `Option<Student>` and starts as `None`.
  - The ghost map `owner` sends every seat object to its coordinate, so no seat object is shared between two coordinates.
  - The object invariant `Valid()` has two halves.
    - The grid matches the layout, `owner` holds exactly the grid's seats, and `availSeats` is `AvailSeats(layout)`.
    - Every coordinate in the history names an available seat that is occupied, and every occupied seat is in the history.

## Model

| member | source | states |
|---|---|---|
| SeatLayout.AvailIndices | lib.py:90-96 | the result lists exactly the indices whose flag is set; every element is such an index, and it is strictly increasing |
| SeatLayout.AvailIndicesOfGap | lib.py:70-75 | a column with `start` unavailable seats followed by `length` available ones yields exactly the indices `start .. start + length - 1` |
| SeatLayout.ColumnSeatsMember | lib.py:119-121 | a coordinate comes from column `x` iff it has column `x`, the column is of type "seats", and its seat index is past the gap and inside the column |
| SeatLayout.ColumnSeatsOfIndices | lib.py:119-121 | the coordinates a "seats" column contributes pair `x` with each available index the column reports, in order |
| SeatLayout.AvailSeatsMember | lib.py:116-121 | a coordinate is in the available-seat list iff its column exists, is of type "seats", and the seat lies past that column's gap and inside the column |
| SeatLayout.AvailSeatsOrdered | lib.py:116-121 | the list is strictly increasing by column, then by seat, so no coordinate appears twice |
| SeatLayout.AvailSeatsCount | lib.py:116-121 | the list has as many entries as the sum of `length` over the "seats" columns |
| SeatLayout.CapacityNeedsColumns | lib.py:116-121 | a layout with a positive seat count has at least one column, and one of them is a non-empty "seats" column |
| SeatLayout.MaxOf | lib.py:182 | the result bounds every element of the non-empty list and equals one of them |
| Assignment.RandInt | lib.py:156-157 | every draw is an index inside the list it pops from |
| Assignment.RemoveAt | lib.py:156-157 | popping index `i` shortens the list by one and removes one occurrence of the element at `i`, and nothing else (multiset equation) |
| Assignment.RemoveAtDistinct | lib.py:157 | popping from a list without repeats leaves a list without repeats that no longer holds the popped element |
| Assignment.DealStep | lib.py:154-157 | one turn of the loop moves the pair built from the two draws from the pairs still to come to the pairs made |
| Assignment.DealLength | lib.py:154-157 | the loop makes min(students, seats) pairs |
| Assignment.DealChoosesOfferedSeats | lib.py:151-157 | every chosen position is one of the offered available seats |
| Assignment.DealSeatsDistinct | lib.py:151-157 | when the offered seats are distinct, no position is chosen twice |
| Assignment.DealPlacesEveryStudent | lib.py:152-156 | with at least as many seats as students, the students placed are the roster, each as often as it occurs in it |
| Assignment.FeasibleDealIsBijection | lib.py:151-162 | on a feasible input the loop makes one pair per student; the positions are distinct and each is an offered seat; the students placed are a permutation of the roster |
| Assignment.AfterAppend | lib.py:159-162 | writing one more pair changes the occupant of the seat it names and of no other seat |
| Assignment.AfterDistinct | lib.py:159-162 | when the chosen positions are distinct, a chosen seat ends up holding the student paired with it, and an unchosen seat keeps what it had |
| PositionKeys.DecimalRoundTrip | lib.py:172 | the decimal digits of a coordinate read back as that coordinate |
| PositionKeys.KeyRoundTrip | __main__.py:332-333 | parsing the key `str((x, y))` the way the result table does gives back `(x, y)` |
| PositionKeys.KeyInjective | lib.py:172 | two coordinates with the same key are equal |
| PositionKeys.KeyDistinct | lib.py:172 | distinct coordinates get distinct keys |
| PositionKeys.TableCellOfKey | __main__.py:332-333 | the seat stored under the key of `(x, y)` is drawn at column `x`, row `y + 1` |
| PositionKeys.ProcessedHasKeys | lib.py:169-172 | the dictionary has the key of every position that was written |
| PositionKeys.ProcessedKeysParse | lib.py:169-172 | each key of the dictionary parses as one of the written positions, and it is that position's key |
| PositionKeys.ProcessedValues | lib.py:169-172 | when equal positions carry equal values, each position's key holds that position's value |
| SeatLayout.GapPattern | lib.py:73-75 | definition, no contract: `start + length` flags, flag `i` set iff `i >= start`; its index scan is AvailIndicesOfGap |
| SeatLayout.ColumnSeats | lib.py:119-121 | definition, no contract: a "seats" column `x` contributes `(x, start + k)` for k < length, any other column nothing; proved by ColumnSeatsMember and ColumnSeatsOfIndices |
| SeatLayout.AvailSeats | lib.py:116-121 | definition, no contract: the concatenation of every column's ColumnSeats in column order; proved by AvailSeatsMember, AvailSeatsOrdered and AvailSeatsCount |
| Assignment.Deal | lib.py:154-157 | definition, no contract: while both lists are non-empty, pop student `rng(2k) % n` and seat `rng(2k+1) % m` and pair them; proved by DealStep, DealLength and FeasibleDealIsBijection |
| Assignment.After | lib.py:159-162 | definition, no contract: the occupant of a seat is what the last pair naming it wrote, else its previous occupant; proved by AfterAppend and AfterDistinct |
| PositionKeys.Decimal | lib.py:172 | definition, no contract: the decimal digits of a natural number without leading zeros; proved by DecimalRoundTrip |
| PositionKeys.KeyOf | lib.py:172 | definition, no contract: `str((x, y))` is `"(" x ", " y ")"`; proved by KeyRoundTrip and KeyInjective |
| PositionKeys.ParseKey | __main__.py:332-333 | definition, no contract: `strip('()')`, split on commas, strip spaces from the first two fields and read them as decimals, `None` on a malformed key; proved by KeyRoundTrip |
| PositionKeys.TableCell | __main__.py:332-333 | definition, no contract: the parsed key with the row shifted down by one for the podium; proved by TableCellOfKey |
| PositionKeys.Processed | lib.py:168-172 | definition, no contract: writing each value under its position's key in order, the last write winning; proved by ProcessedHasKeys, ProcessedKeysParse and ProcessedValues |
| Seating.CheckResult.Code | lib.py:131-144 | the numeric result is 0 (`False`) exactly for a feasible roster, -1 exactly for no seats, -2 exactly for no students and -3 exactly for too few seats |
| Seating.Seat.constructor | lib.py:47-49 | a new seat has the given availability and no student |
| Seating.Seat.Dump | lib.py:51-53 | the seat now holds the student |
| Seating.Column.constructor | lib.py:67-75 | a column has `length + start` fresh, distinct, empty seats, whatever its type; seat `i` is available iff `i >= start` |
| Seating.Column.Dump | lib.py:77-80 | an available seat receives the student; an unavailable seat keeps its old content; no other object changes |
| Seating.Column.GetAllAvailSeatsIndex | lib.py:90-96 | returns `AvailIndices` of the seats' availability flags: exactly the available indices, ascending |
| Seating.Classroom.AvailSeatsExact | lib.py:116-121 | a coordinate is in the available-seat list iff it names an available seat of a "seats" column of the grid |
| Seating.Classroom.constructor | lib.py:106-121 | the new classroom satisfies the invariant, has the layout's grid and the layout's available-seat list, an empty history and no occupied seat, and `have_random` is false |
| Seating.Classroom.BuildColumns | lib.py:107-110 | one fresh column per specification, in order, with its type, size and availability pattern, all seats empty |
| Seating.Classroom.ListAvailSeats | lib.py:116-121 | the enumeration loop produces exactly `AvailSeats(layout)` |
| Seating.Classroom.AppendColumnSeats | lib.py:120-121 | appends `(x, y)` for each available index `y` of column `x`, in order |
| Seating.Classroom.Check | lib.py:127-144 | -1 iff there is no available seat; otherwise -2 iff the roster is empty; otherwise -3 iff there are fewer seats than students; otherwise `False` iff 0 < students <= seats; it is a function of the state, so repeated calls agree |
| Seating.Classroom.CheckCodes | lib.py:136-144 | under the invariant, `check` returns -1 iff there is no available seat, -2 iff there are seats but no students, -3 iff there are fewer seats than students but at least one, and `False` iff 0 < students <= seats |
| Seating.Classroom.FeasibleHasColumns | lib.py:136-144 | a feasible roster implies a non-empty grid with a non-empty "seats" column |
| Seating.Classroom.OccupiedSeatsAreAvailable | lib.py:79-80 | under the invariant, only available seats of "seats" columns are ever occupied |
| Seating.Classroom.Random | lib.py:146-164 | keeps the invariant. If `check` fails, nothing changes. Otherwise `have_random` is set and the history grows by exactly one position per student. Those positions are distinct and available, the students written are a permutation of the roster, and every seat holds what the pairs last wrote there (else its old occupant) |
| Seating.Classroom.PlaceAll | lib.py:151-162 | the loop keeps the invariant, appends the positions of `Deal` to the history, and leaves every seat as `After` describes |
| Seating.Classroom.Place | lib.py:159-162 | one turn appends the position to the history and writes the student into that seat only, keeping the invariant |
| Seating.Classroom.GetProcessedData | lib.py:166-173 | every history position's key maps to that seat's occupant, and every key parses back as a history position whose key it is; nothing is modified |
| Seating.Classroom.DisplayUnit | lib.py:175-183 | the column count and one more than the largest column size (an upper bound that is attained); none exactly when the grid is empty |
| Seating.Classroom.WayGather | lib.py:185-193 | a column index is in the result iff the column is of type "way"; the result is strictly increasing |
| Seating.Classroom.HistoryInsideTable | __main__.py:332-333 | a filled coordinate is drawn at column `x`, row `y + 1`, inside the table that `display_unit` sizes |

## Left out

- `Layout_Connector` (lib.py:7-23) reads a JSON file, and its `get_map`/`get_column` are accessors. The layout is a parameter of the `Classroom` constructor instead.
- `Student_Operate` (lib.py:197-236) is spreadsheet and JSON file I/O, not modelled.
- `Student.get_data` returns the record as a dictionary. The model stores the `Student` record itself.
- The one-line accessors are read as fields:
  - `Seat.get_avail` and `Seat.get_stu`;
  - `Column.get_all_seats`, `Column.get_seat` and `Column.get_type`;
  - `Classs.get_all_avail_seats`.
- The Qt main window, the layout editor (`layout_operater.py`) and font scaling are not modelled. From the main window, only the key parse at `__main__.py:275-276` and `__main__.py:332-333` is kept.
- Uniformity of `random.randint` is a statistical property and is not modelled. The draws are an arbitrary injected `rng`, so every property above holds for every sequence of choices.
- `length` and `start` are natural numbers. The editor gives a seat column a `length` in 1..999 and a `start` in 0..999, and writes 0 for both on an aisle (layout_operater.py:189-190); negative values from a hand-edited file are not modelled.
- The column type is kept as the string from the file. As in the source, a column of any type gets `length + start` seats, but only "seats" columns contribute to the available-seat list.
- A seat's student is `None` until written. The source leaves the attribute unset instead, which reads as an error; the views only visit written seats.
- `display_unit` on a layout without columns fails in the source (`max` of an empty list). The model returns `None` there.
- `random` is not guarded by `have_random`. A second call appends to the history again and overwrites seats, as in the source; the invariant allows repeated entries.
- PositionKeys.ParseKey is narrower than Python's `int` and `strip()`:
  - it strips only spaces, not other whitespace;
  - it rejects a sign, underscores and non-ASCII digits;
  - it yields `None` where the source raises.
  None of these occurs in keys written by `get_processed_data`.
- Seating.Classroom.Random states what each seat holds through `Assignment.After`. That chosen seats hold their student and other seats keep their occupant is stated by `Assignment.AfterDistinct`, not repeated in Random's contract.
