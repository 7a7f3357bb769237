/** The inputs and expected answers of the repository's unit and functional
    tests, stated about the model for any puzzle string that holds the test
    board (`TestBoardExists` shows the joined board is one). */
module TestCases {
  import opened Wrappers
  import opened Validation
  import opened Grid
  import opened Placement
  import opened Checker

  /** The puzzle every test uses, row by row. */
  const Board: seq<string> :=
    ["..9..5.1.", "85.4....2", "432......", "1...69.83", ".9.....6.",
     "62.71...9", "......194", "5....4.37", ".4.3..6.."]

  /** `puzzle` is the 81-character string of the test board. */
  predicate IsTestPuzzle(puzzle: string)
  {
    |puzzle| == Size * Size &&
    forall r, c :: 0 <= r < Size && 0 <= c < Size ==> Cell(puzzle, r, c) == Board[r][c]
  }

  /** Joining the rows of the board gives the test puzzle. */
  lemma TestBoardExists()
    ensures IsTestPuzzle(Flatten(Board))
  {
    FlattenLength(Board, Size);
    RowsOfFlatten(Board, Size);
    GridOf(Flatten(Board));
  }

  /** The test puzzle passes validation. */
  lemma TestPuzzleValid(puzzle: string)
    requires IsTestPuzzle(puzzle)
    ensures Validate(puzzle) == Pass
  {
    forall r | 0 <= r < Size ensures forall c :: 0 <= c < Size ==> IsPuzzleChar(Board[r][c]) {
      assert Board[r] in Board;
    }
    forall i | 0 <= i < |puzzle| ensures IsPuzzleChar(puzzle[i]) {
      var r, c := i / Size, i % Size;
      assert puzzle[i] == Cell(puzzle, r, c);
    }
  }

  /** The validation unit tests: a `*` in row C, the puzzle without its two
      leading dots, and the puzzle with five more in front. */
  lemma PuzzleValidation(puzzle: string)
    requires IsTestPuzzle(puzzle)
    ensures Validate(puzzle[..24] + "*" + puzzle[25..]) == Fail(InvalidCharacters)
    ensures Validate(puzzle[2..]) == Fail(InvalidLength)
    ensures Validate("....." + puzzle) == Fail(InvalidLength)
  {
    TestPuzzleValid(puzzle);
    assert (puzzle[..24] + "*" + puzzle[25..])[24] == '*';
    assert forall i :: 0 <= i < |puzzle| - 2 ==> puzzle[2..][i] == puzzle[i + 2];
    assert forall i :: 5 <= i < |puzzle| + 5 ==> ("....." + puzzle)[i] == puzzle[i - 5];
  }

  /** A character found at a cell of the board is held by the puzzle there. */
  lemma PresentAt(puzzle: string, r: nat, c: nat, v: char)
    requires IsTestPuzzle(puzzle) && r < Size && c < Size && Board[r][c] == v
    ensures Holds(Cell(puzzle, r, c), [v])
  {
  }

  /** A character missing from a row of the board is missing from the puzzle's row. */
  lemma AbsentFromRow(puzzle: string, r: nat, v: char)
    requires IsTestPuzzle(puzzle) && r < Size && v !in Board[r]
    ensures !InRow(puzzle, r, [v])
  {
  }

  /** A character missing from a column of the board is missing from the puzzle's column. */
  lemma AbsentFromColumn(puzzle: string, c: nat, v: char)
    requires IsTestPuzzle(puzzle) && c < Size
    requires forall r :: 0 <= r < Size ==> Board[r][c] != v
    ensures !InColumn(puzzle, c, [v])
  {
  }

  /** A character missing from a block of the board is missing from the puzzle's region. */
  lemma AbsentFromRegion(puzzle: string, ri: nat, ci: nat, v: char)
    requires IsTestPuzzle(puzzle) && ri < Size && ci < Size
    requires forall r, c :: SameBand(ri, r) && SameBand(ci, c) ==> Board[r][c] != v
    ensures !InRegion(puzzle, ri, ci, [v])
  {
  }

  /** The row and column unit tests. */
  lemma UnitChecks(puzzle: string)
    requires IsTestPuzzle(puzzle)
    ensures CheckRowPlacement(puzzle, "A", Some(1), "3") == Some(true)
    ensures CheckRowPlacement(puzzle, "A", Some(1), "9") == Some(false)
    ensures CheckColPlacement(puzzle, "D", Some(2), "8")
    ensures !CheckColPlacement(puzzle, "D", Some(2), "4")
  {
    AbsentFromRow(puzzle, 0, '3');
    PresentAt(puzzle, 0, 2, '9');
    AbsentFromColumn(puzzle, 1, '8');
    PresentAt(puzzle, 8, 1, '4');
  }

  /** The region unit tests, through the method's contract: `3` may go at
      `D4`, and `7` may not go at `E5`. */
  method RegionChecks(puzzle: string) returns (freeD4: bool, freeE5: bool)
    requires IsTestPuzzle(puzzle)
    ensures freeD4 && !freeE5
  {
    AbsentFromRegion(puzzle, 3, 3, '3');
    freeD4 := CheckRegionPlacement(puzzle, "D", Some(4), "3");
    PresentAt(puzzle, 5, 3, '7');
    assert SameBand(4, 5) && SameBand(4, 3);
    freeE5 := CheckRegionPlacement(puzzle, "E", Some(5), "7");
  }

  /** What the board holds for each of the `check` tests below. */
  lemma BoardUnits(puzzle: string)
    requires IsTestPuzzle(puzzle)
    ensures Validate(puzzle) == Pass
    ensures !InColumn(puzzle, 2, "1") && !InRow(puzzle, 1, "1") && !InRegion(puzzle, 1, 2, "1")
    ensures InColumn(puzzle, 0, "6") && !InRow(puzzle, 0, "6") && !InRegion(puzzle, 0, 0, "6")
    ensures InColumn(puzzle, 0, "1") && InRow(puzzle, 0, "1") && !InRegion(puzzle, 0, 0, "1")
    ensures InColumn(puzzle, 0, "5") && InRow(puzzle, 0, "5") && InRegion(puzzle, 0, 0, "5")
    ensures !InRow(puzzle, 0, "3") && InRow(puzzle, 0, "9")
  {
    TestPuzzleValid(puzzle);
    AbsentFromColumn(puzzle, 2, '1');
    AbsentFromRow(puzzle, 1, '1');
    AbsentFromRegion(puzzle, 1, 2, '1');
    PresentAt(puzzle, 5, 0, '6');
    AbsentFromRow(puzzle, 0, '6');
    AbsentFromRegion(puzzle, 0, 0, '6');
    PresentAt(puzzle, 3, 0, '1');
    PresentAt(puzzle, 0, 7, '1');
    AbsentFromRegion(puzzle, 0, 0, '1');
    PresentAt(puzzle, 7, 0, '5');
    PresentAt(puzzle, 0, 5, '5');
    PresentAt(puzzle, 1, 1, '5');
    assert SameBand(0, 1) && SameBand(0, 0);
    AbsentFromRow(puzzle, 0, '3');
    PresentAt(puzzle, 0, 2, '9');
  }

  /** How the coordinates of the tests are read. */
  lemma TestCoordinates()
    ensures RowOf("B3") == "B" && ColumnOf("B3") == Some(3) && ColumnIndex(Some(3)) == Some(2)
    ensures RowOf("A1") == "A" && ColumnOf("A1") == Some(1) && ColumnIndex(Some(1)) == Some(0)
    ensures RowOf("i5") == "i" && RowOf("A") == "A" && ColumnOf("A") == None
    ensures TransformRowIndicatorToIndex("A") == Some(0) && TransformRowIndicatorToIndex("B") == Some(1)
    ensures TransformRowIndicatorToIndex("i") == None
  {
  }

  /** The `check` tests of the functional suite: `B3` with `1` is
      `{valid: true}`; `A1` with `6`, `1` and `5` report `["column"]`,
      `["column", "row"]` and `["column", "row", "region"]`. */
  lemma CheckExamples(puzzle: string)
    requires IsTestPuzzle(puzzle)
    ensures Verdict(puzzle, "B3", "1") == Checked(true, None)
    ensures Verdict(puzzle, "A1", "6") == Checked(false, Some([Column]))
    ensures Verdict(puzzle, "A1", "1") == Checked(false, Some([Column, Row]))
    ensures Verdict(puzzle, "A1", "5") == Checked(false, Some([Column, Row, Region]))
  {
    BoardUnits(puzzle);
    CheckB3With1(puzzle);
    CheckA1With6(puzzle);
    CheckA1With1(puzzle);
    CheckA1With5(puzzle);
  }

  /** `B3` with `1`: in none of its units. */
  lemma CheckB3With1(puzzle: string)
    requires Validate(puzzle) == Pass && |puzzle| == Size * Size
    requires !InColumn(puzzle, 2, "1") && !InRow(puzzle, 1, "1") && !InRegion(puzzle, 1, 2, "1")
    ensures Verdict(puzzle, "B3", "1") == Checked(true, None)
  {
    TestInputsPass();
    VerdictOfB3(puzzle, "1");
  }

  /** `A1` with `6`: in its column only. */
  lemma CheckA1With6(puzzle: string)
    requires Validate(puzzle) == Pass && |puzzle| == Size * Size
    requires InColumn(puzzle, 0, "6") && !InRow(puzzle, 0, "6") && !InRegion(puzzle, 0, 0, "6")
    ensures Verdict(puzzle, "A1", "6") == Checked(false, Some([Column]))
  {
    TestInputsPass();
    VerdictOfA1(puzzle, "6");
    assert [Column] + [] + [] == [Column];
  }

  /** `A1` with `1`: in its column and its row. */
  lemma CheckA1With1(puzzle: string)
    requires Validate(puzzle) == Pass && |puzzle| == Size * Size
    requires InColumn(puzzle, 0, "1") && InRow(puzzle, 0, "1") && !InRegion(puzzle, 0, 0, "1")
    ensures Verdict(puzzle, "A1", "1") == Checked(false, Some([Column, Row]))
  {
    TestInputsPass();
    VerdictOfA1(puzzle, "1");
    assert [Column] + [Row] + [] == [Column, Row];
  }

  /** `A1` with `5`: in all three units. */
  lemma CheckA1With5(puzzle: string)
    requires Validate(puzzle) == Pass && |puzzle| == Size * Size
    requires InColumn(puzzle, 0, "5") && InRow(puzzle, 0, "5") && InRegion(puzzle, 0, 0, "5")
    ensures Verdict(puzzle, "A1", "5") == Checked(false, Some([Column, Row, Region]))
  {
    TestInputsPass();
    VerdictOfA1(puzzle, "5");
    assert [Column] + [Row] + [Region] == [Column, Row, Region];
  }

  /** `check` at `B3`: column 2 and row 1, read off the units. */
  lemma VerdictOfB3(puzzle: string, value: string)
    requires Validate(puzzle) == Pass && ValidateValue(value) == Pass && |puzzle| == Size * Size
    ensures Verdict(puzzle, "B3", value) == UnitsVerdict(puzzle, 1, 2, value)
  {
    TestInputsPass();
    TestCoordinates();
  }

  /** `check` at `A1`: column 0 and row 0, read off the units. */
  lemma VerdictOfA1(puzzle: string, value: string)
    requires Validate(puzzle) == Pass && ValidateValue(value) == Pass && |puzzle| == Size * Size
    ensures Verdict(puzzle, "A1", value) == UnitsVerdict(puzzle, 0, 0, value)
  {
    TestInputsPass();
    TestCoordinates();
  }

  /** The answer `check` gives for a target cell whose row and column are known. */
  ghost function UnitsVerdict(puzzle: string, ri: nat, ci: nat, value: string): CheckResult
    requires |puzzle| == Size * Size
  {
    var conflicts := Reported(InColumn(puzzle, ci, value), InRow(puzzle, ri, value), InRegion(puzzle, ri, ci, value));
    if conflicts == [] then Checked(true, None) else Checked(false, Some(conflicts))
  }

  /** The coordinates and values of the tests that pass validation. */
  lemma TestInputsPass()
    ensures ValidateCoordinate("B3") == Pass && ValidateCoordinate("A1") == Pass
    ensures ValidateCoordinate("i5") == Pass && ValidateCoordinate("A") == Pass
    ensures ValidateValue("1") == Pass && ValidateValue("3") == Pass && ValidateValue("5") == Pass
    ensures ValidateValue("6") == Pass && ValidateValue("9") == Pass && ValidateValue("12") == Pass
  {
    CoordinateExamples();
    ValueExamples();
  }

  /** The error tests of the functional suite. */
  lemma FunctionalErrors(puzzle: string)
    requires IsTestPuzzle(puzzle)
    ensures Verdict(puzzle[..2] + "A" + puzzle[3..], "B3", "1") == Rejected(InvalidCharacters)
    ensures Verdict(".." + puzzle, "B3", "1") == Rejected(InvalidLength)
    ensures Verdict(puzzle, "Z3", "1") == Rejected(InvalidCoordinate)
    ensures Verdict(puzzle, "B3", "10") == Rejected(InvalidValue)
    ensures Message(InvalidCoordinate) == "Invalid coordinate"
  {
    TestPuzzleValid(puzzle);
    BadPuzzles(puzzle);
    BadInputs(puzzle);
  }

  /** A letter in the third cell, and two more dots in front. */
  lemma BadPuzzles(puzzle: string)
    requires Validate(puzzle) == Pass && |puzzle| == Size * Size
    ensures Validate(puzzle[..2] + "A" + puzzle[3..]) == Fail(InvalidCharacters)
    ensures Validate(".." + puzzle) == Fail(InvalidLength)
  {
    assert (puzzle[..2] + "A" + puzzle[3..])[2] == 'A';
    assert forall i :: 2 <= i < |puzzle| + 2 ==> (".." + puzzle)[i] == puzzle[i - 2];
  }

  /** A coordinate outside the board, and a value above `9`. */
  lemma BadInputs(puzzle: string)
    requires Validate(puzzle) == Pass
    ensures Verdict(puzzle, "Z3", "1") == Rejected(InvalidCoordinate)
    ensures Verdict(puzzle, "B3", "10") == Rejected(InvalidValue)
  {
    CoordinateExamples();
    ValueExamples();
  }

  /** What the loose coordinate and value tests let through: a lower-case
      `i` passes validation and makes the row check throw; a lone row letter
      names no column, so only its row can conflict; a two-digit value
      never equals a cell. */
  lemma LooseInputs(puzzle: string)
    requires IsTestPuzzle(puzzle)
    ensures Verdict(puzzle, "i5", "1") == Faulted
    ensures Verdict(puzzle, "A", "3") == Checked(true, None)
    ensures Verdict(puzzle, "A", "9") == Checked(false, Some([Row]))
    ensures Verdict(puzzle, "B3", "12") == Checked(true, None)
  {
    BoardUnits(puzzle);
    LooseInputsOf(puzzle);
    TestInputsPass();
    VerdictOfB3(puzzle, "12");
  }

  /** The step from the units to the answers of `LooseInputs`. */
  lemma LooseInputsOf(puzzle: string)
    requires Validate(puzzle) == Pass && |puzzle| == Size * Size
    requires !InRow(puzzle, 0, "3") && InRow(puzzle, 0, "9")
    ensures Verdict(puzzle, "i5", "1") == Faulted
    ensures Verdict(puzzle, "A", "3") == Checked(true, None)
    ensures Verdict(puzzle, "A", "9") == Checked(false, Some([Row]))
  {
    TestInputsPass();
    TestCoordinates();
    assert [] + [Row] + [] == [Row];
  }
}
