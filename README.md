# Sudoku placement checker

A Dafny model of `SudokuSolver`, the controller behind the `/api/check`
endpoint of a Sudoku web service. Given a puzzle, a coordinate and a value,
`check` does the following:

- It validates the three inputs in a fixed order.
- It cuts the 81-character puzzle into a 9×9 matrix.
- It reports which units already hold the value, in the order column, row,
  region (the 3×3 block).

Every exception is returned as an `{error: message}` object. This includes
the validators' own errors and the `TypeError` the runtime raises inside a
check.

Modules:

- `Wrappers` (`wrappers.dfy`) is the `Option` type. It models JavaScript's
  `undefined` and `NaN`.
- `Validation` (`validation.dfy`) holds `validate`, `validateCoordinate`
  and `validateValue`.
  - Each `str.match(/[^class]/)` is modelled by `FirstOutside`, the
    position of the first character outside the class.
  - A thrown `Error` is modelled by `Fail(error)`.
- `Grid` (`grid.dfy`) holds:
  - `transformStringToMatrix`, a loop method proved equal to the
    specification `Rows`, with `Flatten` as its inverse;
  - the row-letter lookup;
  - `mapIndexToRegionIndices`.
- `Placement` (`placement.dfy`) holds the three placement checks. Each is
  proved to answer "absent" exactly when a declarative predicate
  (`InRow`, `InColumn`, `InRegion`) says the value does not occur in that
  unit of the puzzle.
- `Checker` (`checker.dfy`) holds `check`. It is a method that updates
  `valid`, the conflict list and the `conflict` field step by step, and it
  is proved equal to the specification function `Verdict`. Lemmas state:
  - the shape of the answer;
  - the validation order;
  - what each reported kind means.
- `TestCases` (`test_cases.dfy`) holds the repository's unit and
  functional tests. They are stated for any puzzle string that holds the
  test board.

JavaScript behaviours the model keeps:

- The value is stringified (`'' + value`) and compared with
  one-character cells. A value such as `"12"` or `""` passes validation
  and never conflicts.
- The coordinate validator tests only the alphabet `A-I`, `1-9`, `/`, `i`.
  The `/i` sits inside the brackets, so it does not make the class
  case-insensitive.
  - `"A11"` is read like `"A1"`.
  - `"A"` has no column, so only its row can conflict.
  - A coordinate starting with `i` or `/`, or the empty coordinate, makes
    the row lookup give `undefined`. Reading that row throws, and the
    result is `Faulted`.
- The region check with an unknown row or column does not throw. It
  collects an empty region.
- The target cell belongs to all three of its units. An occupied target
  therefore conflicts with its own value.
- The coordinates the tests use (`A1`, `B3`) are one letter `A-I` then one
  digit `1-9`. The code does not enforce that shape, and the model follows
  the code.

## Model

| member | source | states |
|---|---|---|
| Validation.FirstOutside | controllers/sudoku-solver.js:4-7 | No match exactly when every character is in the class. A match is the index of a character outside the class, and every earlier character is inside. |
| Validation.Validate | controllers/sudoku-solver.js:3-14 | Passes exactly for 81 characters, each in `1-9` or `.`. "Invalid characters" exactly when some character is outside that class. The length error exactly when every character is allowed but the length is not 81 (the character test runs first). |
| Validation.ValidateCoordinate | controllers/sudoku-solver.js:16-22 | Passes exactly when every character is in `A-I`, `1-9`, `/` or `i`. Otherwise the error is "Invalid coordinate". |
| Validation.ValidateValue | controllers/sudoku-solver.js:24-29 | Passes exactly when every character is in `1-9`. Otherwise the error is "Invalid value". |
| Validation.CoordinateExamples | controllers/sudoku-solver.js:17-19 | `Z3`, `A10`, `a1` are rejected. `B3`, `A1`, `A11`, `i5`, `A`, `i/` and the empty string pass. |
| Validation.ValueExamples | controllers/sudoku-solver.js:25-27 | `10` and `0` are rejected. `1`, `3`, `5`, `6`, `9`, `12` and the empty string pass. |
| Grid.Rows | controllers/sudoku-solver.js:31-43 | The matrix is empty exactly when the string is. Every row holds between 1 and `n` cells. |
| Grid.TransformStringToMatrix | controllers/sudoku-solver.js:31-43 | The loop, with its `col` counter and a new row at every multiple of `n`, builds exactly `Rows(puzzle, n)`. Joining that matrix gives the puzzle back. |
| Grid.FlattenRows | controllers/sudoku-solver.js:31-43 | Round trip: joining the rows cut from any string gives the string. |
| Grid.RowsOfFlatten | controllers/sudoku-solver.js:31-43 | Inverse round trip: cutting joined rows of `n` cells gives the rows. |
| Grid.FlattenLength | controllers/sudoku-solver.js:31-43 | Joining `k` rows of `n` cells gives `n*k` characters. |
| Grid.RowsCell | controllers/sudoku-solver.js:35-40 | Cell `[r][c]` of the matrix is character `n*r + c` of the string. |
| Grid.RowsShape | controllers/sudoku-solver.js:35-40 | A string of `n*k` characters gives `k` rows of `n` cells. |
| Grid.GridOf | controllers/sudoku-solver.js:31-43 | An 81-character puzzle gives 9 rows of 9 cells. Cell `[r][c]` is character `9*r + c`, and the rows join back into the puzzle. |
| Grid.RowsSnoc | controllers/sudoku-solver.js:36-40 | One more character opens a new row when the length so far is a multiple of `n`. Otherwise it is pushed onto the last row. |
| Grid.TransformRowIndicatorToIndex | controllers/sudoku-solver.js:45-58 | A key is found exactly when it is one letter in `A..I`, and then it maps to that letter's offset from `A` (below 9). Every other key gives `None`, including the keys the object literal inherits (see "## Left out"). |
| Grid.IndicatorKeys | controllers/sudoku-solver.js:46-56 | The object literal's keys are exactly the one-letter strings `A..I`, each mapped to its offset from `A`. |
| Grid.RowIndicatorBijection | controllers/sudoku-solver.js:45-58 | The lookup gives row `i` exactly for the letter of row `i`. |
| Grid.MapIndexToRegionIndices | controllers/sudoku-solver.js:60-83 | For an index in `0..8`: the three indices of its band, ascending, from `i - i%3`. For any other index: none. An index is listed exactly when it shares the band. |
| Placement.CheckRowPlacement | controllers/sudoku-solver.js:85-92 | The row lookup throws exactly when the row letter is not in `A..I`. Otherwise the answer is true exactly when the value does not occur in that row. |
| Placement.RowMeaning | controllers/sudoku-solver.js:86-91 | Row `ri` of the matrix includes the value exactly when some cell `9*ri + c` of the puzzle holds it. |
| Placement.CheckColPlacement | controllers/sudoku-solver.js:94-102 | True exactly when the value does not occur in column `column - 1`. A `NaN` or out-of-range column never conflicts. |
| Placement.CollectRegion | controllers/sudoku-solver.js:112-117 | The nested loops push the cells of each listed row at each listed column, row after row. |
| Placement.CrossedMembers | controllers/sudoku-solver.js:112-117 | A character is among the collected cells exactly when it is the cell of some listed row and some listed column. |
| Placement.RegionMeaning | controllers/sudoku-solver.js:110-119 | The crossed bands include the value exactly when the 3×3 region of the row and column holds it. |
| Placement.CheckRegionPlacement | controllers/sudoku-solver.js:104-120 | True exactly when the row letter or column is unknown, or the value does not occur in the region of the target cell. |
| Checker.Reported | controllers/sudoku-solver.js:128-145 | Each kind is listed exactly when its check failed. The list is empty exactly when none failed. |
| Checker.ReportedInOrder | controllers/sudoku-solver.js:131-145 | The conflict list is a subsequence of column, row, region. |
| Checker.Check | controllers/sudoku-solver.js:122-150 | The step-by-step method returns exactly `Verdict`. The first failing validator's error is returned. A row lookup of `undefined` faults. Otherwise each unit that holds the value is reported, in evaluation order. |
| Checker.CheckedShape | controllers/sudoku-solver.js:127-146 | In a checked answer, `valid` is true exactly when `conflict` is absent. A present `conflict` is non-empty and ordered column, row, region. |
| Checker.CheckedExactly | controllers/sudoku-solver.js:122-150 | A checked answer comes exactly when all three validators pass and the coordinate starts with `A..I`. A fault implies all validators passed. |
| Checker.ValidationOrder | controllers/sudoku-solver.js:124-126 | The puzzle is validated before the coordinate, and the coordinate before the value. The first failure decides the error. |
| Checker.ConflictsMeanOccurrence | controllers/sudoku-solver.js:129-145 | For coordinate `Lc`, each kind is reported exactly when the value occurs in row `L`, column `c` or their region. |
| Checker.OccupiedTargetConflictsEverywhere | controllers/sudoku-solver.js:131-145 | A target cell that already holds the value yields all three conflicts. |
| Checker.TrailingCoordinateIgnored | controllers/sudoku-solver.js:129-130 | Allowed characters after the first two leave the answer unchanged. |
| TestCases.TestBoardExists | tests/1_unit-tests.js:32 | The test board joined row by row is a test puzzle. |
| TestCases.TestPuzzleValid | tests/1_unit-tests.js:10-15 | The test puzzle passes validation. |
| TestCases.PuzzleValidation | tests/1_unit-tests.js:17-27 | A `*` gives "Invalid characters". Two cells fewer, or five more, give the length error. |
| TestCases.UnitChecks | tests/1_unit-tests.js:30-52 | Row `A`: `3` is allowed and `9` is not. Column 2: `8` is allowed and `4` is not. |
| TestCases.RegionChecks | tests/1_unit-tests.js:54-63 | The region method allows `3` at `D4` and rejects `7` at `E5`. |
| TestCases.BoardUnits | tests/2_functional-tests.js:21 | Which of the units used by the `check` tests hold their values on the test board. |
| TestCases.CheckExamples | tests/2_functional-tests.js:12-93 | The four `check` answers of the functional suite on the test puzzle. |
| TestCases.CheckB3With1 | tests/2_functional-tests.js:12-30 | `B3` with `1` on the test units gives `{valid: true}`. |
| TestCases.CheckA1With6 | tests/2_functional-tests.js:32-51 | `A1` with `6` gives `{valid: false, conflict: [column]}`. |
| TestCases.CheckA1With1 | tests/2_functional-tests.js:53-72 | `A1` with `1` gives `{valid: false, conflict: [column, row]}`. |
| TestCases.CheckA1With5 | tests/2_functional-tests.js:74-93 | `A1` with `5` gives `{valid: false, conflict: [column, row, region]}`. |
| TestCases.FunctionalErrors | tests/2_functional-tests.js:112-183 | A letter in the puzzle, a wrong length, coordinate `Z3` and value `10` each return their error object. |
| TestCases.BadPuzzles | tests/2_functional-tests.js:119-137 | A letter in the third cell gives "Invalid characters". Two more dots give the length error. |
| TestCases.BadInputs | tests/2_functional-tests.js:148-183 | Coordinate `Z3` gives "Invalid coordinate". Value `10` gives "Invalid value". |
| TestCases.LooseInputs | controllers/sudoku-solver.js:16-29 | On the test puzzle: `i5` faults, `A` with `3` is valid, `A` with `9` reports the row only, and `B3` with `12` is valid. |

## Left out

- `solve` is an empty stub in the code and is not modelled. No backtracking search exists to model.
- The HTTP layer (`routes/api.js`, the required-fields check, JSON encoding) is not part of this model.
- Runtime error messages are not modelled. A `TypeError` raised inside a check becomes `Faulted`, without its message.
- Non-string inputs are not modelled. JavaScript coercion is not modelled either: the value and the coordinate are strings, and a column is the number its digit stands for, or `NaN`.
- Placement.CheckRowPlacement, Placement.CheckColPlacement and Placement.CheckRegionPlacement require an 81-character puzzle. Their only callers pass 81 characters: `check` calls them after `validate` has passed, and the unit tests use the test puzzle. Other lengths are not modelled. For 73 to 80 characters, or more than 81, the source still builds rows 0..8 and returns normally. `checkColPlacement` never throws at any length.
- Grid.TransformStringToMatrix, Placement.CheckRowPlacement, Placement.CheckColPlacement and Placement.CheckRegionPlacement treat a string as a sequence of Unicode code points. JavaScript's `split('')` and `length` count UTF-16 code units, so a character outside the Basic Multilingual Plane is one cell here but two in the source. This does not affect `check`: all three validators reject every character outside ASCII before a matrix is built.
- Grid.TransformRowIndicatorToIndex: keys inherited from `Object.prototype` (`"toString"`, `"constructor"`, `"__proto__"`, …) read a function or an object in the source rather than `undefined`. The model gives `None` for them. Every caller treats them as it treats `undefined`: the row read throws, and the region band is empty.
- Grid.TransformStringToMatrix requires `n > 0`. Every call passes 9, and the code's behaviour for `n = 0` (pushing onto row `-1`) is not modelled.
- The regular-expression engine is not modelled. Each `match` against a negated character class is the search `FirstOutside`.
- The matrix the row and column checks build is modelled by the specification `Rows`. The loop version is used where the code has loops, in the region check.
