/** The three input validators of the solver (`validate`,
    `validateCoordinate`, `validateValue`).  Each one rejects its input as soon
    as a regular expression of the form `[^class]` finds a character outside
    the class; here that search is `FirstOutside`, and the exception the
    validator throws becomes a `Fail` outcome carrying an `Error`. */
module Validation {
  import opened Wrappers

  /** Number of cells in a flat puzzle. */
  const PuzzleLength := 81

  /** The errors the validators throw. */
  datatype Error = InvalidCharacters | InvalidLength | InvalidCoordinate | InvalidValue

  /** The message of the thrown `Error`, as reported in `{error: message}`. */
  function Message(e: Error): string
  {
    match e
    case InvalidCharacters => "Invalid characters in puzzle"
    case InvalidLength => "Expected puzzle to be 81 characters long"
    case InvalidCoordinate => "Invalid coordinate"
    case InvalidValue => "Invalid value"
  }

  /** A validator either returns normally or throws one error. */
  datatype Outcome = Pass | Fail(error: Error)

  /** Class of `/[^1-9\.]/`: a digit or the empty-cell marker. */
  predicate IsPuzzleChar(c: char) { '1' <= c <= '9' || c == '.' }

  /** Class of `/[^A-I1-9/i]/`.  The `/i` stands inside the brackets, so it adds
      the two characters `/` and `i` and is not a case-insensitivity flag. */
  predicate IsCoordinateChar(c: char) { 'A' <= c <= 'I' || '1' <= c <= '9' || c == '/' || c == 'i' }

  /** Class of `/[^1-9]/`. */
  predicate IsValueChar(c: char) { '1' <= c <= '9' }

  /** `s.match(/[^class]/)`: the position of the first character outside the
      class, or `None` when the regular expression finds no match. */
  function FirstOutside(s: string, inClass: char -> bool): (r: Option<nat>)
    ensures r.None? <==> forall i :: 0 <= i < |s| ==> inClass(s[i])
    ensures r.Some? ==> r.value < |s| && !inClass(s[r.value])
    ensures r.Some? ==> forall i :: 0 <= i < r.value ==> inClass(s[i])
    decreases |s|
  {
    if s == [] then None
    else if !inClass(s[0]) then Some(0)
    else
      match FirstOutside(s[1..], inClass)
      case None => None
      case Some(k) => Some(k + 1)
  }

  /** A flat puzzle the solver accepts: 81 cells, each a digit or `.`. */
  ghost predicate WellFormedPuzzle(puzzle: string)
  {
    |puzzle| == PuzzleLength && forall i :: 0 <= i < |puzzle| ==> IsPuzzleChar(puzzle[i])
  }

  /** `validate`: the character test runs before the length test, so a string
      that is both too long and holds a bad character reports the characters. */
  function Validate(puzzle: string): (r: Outcome)
    ensures r == Pass <==> WellFormedPuzzle(puzzle)
    ensures r == Fail(InvalidCharacters) <==> exists i :: 0 <= i < |puzzle| && !IsPuzzleChar(puzzle[i])
    ensures r == Fail(InvalidLength) <==>
              |puzzle| != PuzzleLength && forall i :: 0 <= i < |puzzle| ==> IsPuzzleChar(puzzle[i])
  {
    if FirstOutside(puzzle, IsPuzzleChar).Some? then Fail(InvalidCharacters)
    else if |puzzle| != PuzzleLength then Fail(InvalidLength)
    else Pass
  }

  /** `validateCoordinate`: only the alphabet is tested; neither the length
      nor the position of the letter and the digit is. */
  function ValidateCoordinate(coordinate: string): (r: Outcome)
    ensures r.Fail? ==> r.error == InvalidCoordinate
    ensures r == Pass <==> forall i :: 0 <= i < |coordinate| ==> IsCoordinateChar(coordinate[i])
  {
    if FirstOutside(coordinate, IsCoordinateChar).Some? then Fail(InvalidCoordinate) else Pass
  }

  /** `validateValue`: only the alphabet is tested, so `""` and `"12"` pass. */
  function ValidateValue(value: string): (r: Outcome)
    ensures r.Fail? ==> r.error == InvalidValue
    ensures r == Pass <==> forall i :: 0 <= i < |value| ==> IsValueChar(value[i])
  {
    if FirstOutside(value, IsValueChar).Some? then Fail(InvalidValue) else Pass
  }

  /** The coordinates of the functional tests, and the ones the loose
      character test lets through although they do not name one cell. */
  lemma CoordinateExamples()
    ensures ValidateCoordinate("Z3") == Fail(InvalidCoordinate)
    ensures ValidateCoordinate("A10") == Fail(InvalidCoordinate)
    ensures ValidateCoordinate("a1") == Fail(InvalidCoordinate)
    ensures ValidateCoordinate("B3") == Pass
    ensures ValidateCoordinate("A1") == Pass
    ensures ValidateCoordinate("A11") == Pass
    ensures ValidateCoordinate("i5") == Pass
    ensures ValidateCoordinate("A") == Pass
    ensures ValidateCoordinate("i/") == Pass
    ensures ValidateCoordinate("") == Pass
  {
    assert !IsCoordinateChar("Z3"[0]);
    assert !IsCoordinateChar("A10"[2]);
    assert !IsCoordinateChar("a1"[0]);
  }

  /** The values of the functional tests, and the ones the loose character
      test lets through although they are not one digit. */
  lemma ValueExamples()
    ensures ValidateValue("10") == Fail(InvalidValue)
    ensures ValidateValue("0") == Fail(InvalidValue)
    ensures ValidateValue("1") == Pass
    ensures ValidateValue("3") == Pass
    ensures ValidateValue("5") == Pass
    ensures ValidateValue("6") == Pass
    ensures ValidateValue("9") == Pass
    ensures ValidateValue("12") == Pass
    ensures ValidateValue("") == Pass
  {
    assert !IsValueChar("10"[1]);
    assert !IsValueChar("0"[0]);
  }
}
