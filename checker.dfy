/** `check`: validates the puzzle, the coordinate and the value in that
    order, then runs the column, row and region checks in that order and
    collects the kinds that conflict.  Every exception, whether a validator's
    or one the runtime raises, is caught and returned as an error object. */
module Checker {
  import opened Wrappers
  import opened Validation
  import opened Grid
  import opened Placement

  /** A unit in which the candidate value already occurs. */
  datatype Conflict = Column | Row | Region

  /** The object `check` returns.
      - `Checked(valid, conflict)`: `{valid}` when `conflict` is `None`, and
        `{valid, conflict}` otherwise;
      - `Rejected(e)`: `{error: Message(e)}`, a validator threw `e`;
      - `Faulted`: `{error: …}` carrying the message of a `TypeError` the
        runtime raised inside a check. */
  datatype CheckResult =
    | Checked(valid: bool, conflict: Option<seq<Conflict>>)
    | Rejected(error: Error)
    | Faulted

  /** `coordinate[0]`; an absent character (`undefined`) is the empty string,
      which is no key of the row lookup either. */
  function RowOf(coordinate: string): string
  {
    if |coordinate| > 0 then coordinate[..1] else ""
  }

  /** `coordinate[1]` as the operand of `column - 1`: the number a digit
      stands for, or `None` for the `NaN` that any other character of a valid
      coordinate (a letter, `/`) or an absent character gives. */
  function ColumnOf(coordinate: string): Option<int>
  {
    if |coordinate| > 1 && '0' <= coordinate[1] <= '9' then Some(coordinate[1] as int - '0' as int) else None
  }

  /** The conflict kinds in the order `check` evaluates them. */
  const ConflictOrder: seq<Conflict> := [Column, Row, Region]

  /** `xs` is `ys` with some entries left out and the rest kept in order. */
  predicate IsSubsequence<T(==)>(xs: seq<T>, ys: seq<T>)
  {
    if xs == [] then true
    else if ys == [] then false
    else if xs[0] == ys[0] then IsSubsequence(xs[1..], ys[1..])
    else IsSubsequence(xs, ys[1..])
  }

  /** A subsequence stays one when `ys` gets a new first entry. */
  lemma {:induction false} SubsequenceCons<T>(xs: seq<T>, ys: seq<T>, y: T)
    requires IsSubsequence(xs, ys)
    ensures IsSubsequence(xs, [y] + ys)
    decreases |ys|, 1
  {
    if xs != [] && xs[0] == y {
      SubsequenceTail(xs, ys);
      assert ([y] + ys)[1..] == ys;
    } else if xs != [] {
      assert ([y] + ys)[1..] == ys;
    }
  }

  /** Dropping the first entry of a subsequence leaves a subsequence. */
  lemma {:induction false} SubsequenceTail<T>(xs: seq<T>, ys: seq<T>)
    requires xs != [] && IsSubsequence(xs, ys)
    ensures IsSubsequence(xs[1..], ys)
    decreases |ys|, 0
  {
    if xs[0] == ys[0] {
      SubsequenceCons(xs[1..], ys[1..], ys[0]);
    } else {
      SubsequenceTail(xs, ys[1..]);
      SubsequenceCons(xs[1..], ys[1..], ys[0]);
    }
    assert [ys[0]] + ys[1..] == ys;
  }

  /** Choosing whether to keep a new first entry of `ys` keeps a subsequence. */
  lemma SubsequenceExtend<T>(xs: seq<T>, ys: seq<T>, y: T, keep: bool)
    requires IsSubsequence(xs, ys)
    ensures IsSubsequence((if keep then [y] else []) + xs, [y] + ys)
  {
    if keep {
      assert ([y] + xs)[1..] == xs && ([y] + ys)[1..] == ys;
    } else {
      SubsequenceCons(xs, ys, y);
      assert [] + xs == xs;
    }
  }

  /** The conflict list `check` builds from the answers of the column, row
      and region checks: each kind is listed exactly when its check failed,
      and the list is empty exactly when none did. */
  function Reported(inColumn: bool, inRow: bool, inRegion: bool): (r: seq<Conflict>)
    ensures Column in r <==> inColumn
    ensures Row in r <==> inRow
    ensures Region in r <==> inRegion
    ensures r == [] <==> !inColumn && !inRow && !inRegion
  {
    (if inColumn then [Column] else []) + (if inRow then [Row] else []) + (if inRegion then [Region] else [])
  }

  /** The reported conflicts, or none when the field is absent. */
  function ConflictsOf(result: CheckResult): seq<Conflict>
  {
    if result.Checked? && result.conflict.Some? then result.conflict.value else []
  }

  /** What `check` answers, stated through the contents of the units: the
      first validator that fails decides the error; a row letter outside
      `A..I` makes the row check throw; otherwise each unit that already
      holds the value is reported, column first, then row, then region. */
  ghost function Verdict(puzzle: string, coordinate: string, value: string): CheckResult
  {
    if Validate(puzzle).Fail? then Rejected(Validate(puzzle).error)
    else if ValidateCoordinate(coordinate).Fail? then Rejected(InvalidCoordinate)
    else if ValidateValue(value).Fail? then Rejected(InvalidValue)
    else if TransformRowIndicatorToIndex(RowOf(coordinate)).None? then Faulted
    else
      var ri := TransformRowIndicatorToIndex(RowOf(coordinate)).value;
      var ci := ColumnIndex(ColumnOf(coordinate));
      var conflicts :=
        Reported(ci.Some? && InColumn(puzzle, ci.value, value), InRow(puzzle, ri, value),
                 ci.Some? && InRegion(puzzle, ri, ci.value, value));
      if conflicts == [] then Checked(true, None) else Checked(false, Some(conflicts))
  }

  /** `check`.  `valid`, the conflict list and the `conflict` field are
      updated after each failing unit check, as the source does. */
  method Check(puzzle: string, coordinate: string, value: string) returns (result: CheckResult)
    ensures result == Verdict(puzzle, coordinate, value)
  {
    var outcome := Validate(puzzle);
    if outcome.Fail? {
      return Rejected(outcome.error);
    }
    outcome := ValidateCoordinate(coordinate);
    if outcome.Fail? {
      return Rejected(outcome.error);
    }
    outcome := ValidateValue(value);
    if outcome.Fail? {
      return Rejected(outcome.error);
    }
    var valid := true;
    var conflict: Option<seq<Conflict>> := None;
    var conflicts: seq<Conflict> := [];
    var row := RowOf(coordinate);
    var column := ColumnOf(coordinate);
    ghost var ci := ColumnIndex(column);
    if !CheckColPlacement(puzzle, row, column, value) {
      valid := false;
      conflicts := conflicts + [Column];
      conflict := Some(conflicts);
    }
    var rowFree := CheckRowPlacement(puzzle, row, column, value);
    if rowFree.None? {
      return Faulted;
    }
    if !rowFree.value {
      valid := false;
      conflicts := conflicts + [Row];
      conflict := Some(conflicts);
    }
    ghost var ri := TransformRowIndicatorToIndex(row).value;
    assert conflicts ==
             (if ci.Some? && InColumn(puzzle, ci.value, value) then [Column] else []) +
             (if InRow(puzzle, ri, value) then [Row] else []);
    var regionFree := CheckRegionPlacement(puzzle, row, column, value);
    if !regionFree {
      valid := false;
      conflicts := conflicts + [Region];
      conflict := Some(conflicts);
    }
    assert conflicts ==
             Reported(ci.Some? && InColumn(puzzle, ci.value, value), InRow(puzzle, ri, value),
                      ci.Some? && InRegion(puzzle, ri, ci.value, value));
    assert valid <==> conflicts == [];
    assert conflict == if conflicts == [] then None else Some(conflicts);
    result := Checked(valid, conflict);
  }

  /** When `check` gets past validation, `valid` is true exactly when no
      `conflict` field is present, and the field, when present, is a
      non-empty list of distinct kinds in the order column, row, region. */
  lemma CheckedShape(puzzle: string, coordinate: string, value: string)
    requires Verdict(puzzle, coordinate, value).Checked?
    ensures var r := Verdict(puzzle, coordinate, value);
            (r.valid <==> r.conflict.None?) &&
            (r.conflict.Some? ==> r.conflict.value != [] && IsSubsequence(r.conflict.value, ConflictOrder))
  {
    var ri := TransformRowIndicatorToIndex(RowOf(coordinate)).value;
    var ci := ColumnIndex(ColumnOf(coordinate));
    ReportedInOrder(ci.Some? && InColumn(puzzle, ci.value, value), InRow(puzzle, ri, value),
                    ci.Some? && InRegion(puzzle, ri, ci.value, value));
  }

  /** The conflict list keeps the order column, row, region. */
  lemma ReportedInOrder(inColumn: bool, inRow: bool, inRegion: bool)
    ensures IsSubsequence(Reported(inColumn, inRow, inRegion), ConflictOrder)
  {
    var tail: seq<Conflict> := if inRegion then [Region] else [];
    SubsequenceExtend([], [], Region, inRegion);
    assert tail == (if inRegion then [Region] else []) + [];
    SubsequenceExtend(tail, [Region], Row, inRow);
    SubsequenceExtend((if inRow then [Row] else []) + tail, [Row, Region], Column, inColumn);
    assert [Column] + [Row, Region] == ConflictOrder;
    assert Reported(inColumn, inRow, inRegion) == (if inColumn then [Column] else []) + ((if inRow then [Row] else []) + tail);
  }

  /** `check` answers with a verdict exactly when the puzzle is well formed,
      every character of the coordinate and of the value is allowed, and the
      coordinate starts with a row letter `A..I`; any other input gives an
      error object, and a validator's error always wins over a fault. */
  lemma CheckedExactly(puzzle: string, coordinate: string, value: string)
    ensures Verdict(puzzle, coordinate, value).Checked? <==>
              WellFormedPuzzle(puzzle) &&
              (forall i :: 0 <= i < |coordinate| ==> IsCoordinateChar(coordinate[i])) &&
              (forall i :: 0 <= i < |value| ==> IsValueChar(value[i])) &&
              |coordinate| > 0 && 'A' <= coordinate[0] <= 'I'
    ensures Verdict(puzzle, coordinate, value).Faulted? ==>
              WellFormedPuzzle(puzzle) && ValidateCoordinate(coordinate) == Pass && ValidateValue(value) == Pass
  {
  }

  /** Validation runs puzzle first, then coordinate, then value: the
      first failing validator names the error, whatever the later inputs. */
  lemma ValidationOrder(puzzle: string, coordinate: string, value: string)
    ensures Validate(puzzle).Fail? ==> Verdict(puzzle, coordinate, value) == Rejected(Validate(puzzle).error)
    ensures Validate(puzzle) == Pass && ValidateCoordinate(coordinate).Fail? ==>
              Verdict(puzzle, coordinate, value) == Rejected(InvalidCoordinate)
    ensures Validate(puzzle) == Pass && ValidateCoordinate(coordinate) == Pass && ValidateValue(value).Fail? ==>
              Verdict(puzzle, coordinate, value) == Rejected(InvalidValue)
  {
  }

  /** Each kind is reported exactly when its unit already holds the value:
      for a coordinate `Lc` with `L` in `A..I` and `c` in `1..9`, the unit is
      row `L`, column `c`, and the 3×3 block around them. */
  lemma ConflictsMeanOccurrence(puzzle: string, coordinate: string, value: string, r: nat, c: nat)
    requires Verdict(puzzle, coordinate, value).Checked?
    requires r < Size && c < Size && |coordinate| >= 2
    requires coordinate[0] == RowLetter(r) && coordinate[1] == ('1' as int + c) as char
    ensures |puzzle| == Size * Size
    ensures Column in ConflictsOf(Verdict(puzzle, coordinate, value)) <==> InColumn(puzzle, c, value)
    ensures Row in ConflictsOf(Verdict(puzzle, coordinate, value)) <==> InRow(puzzle, r, value)
    ensures Region in ConflictsOf(Verdict(puzzle, coordinate, value)) <==> InRegion(puzzle, r, c, value)
  {
    assert RowOf(coordinate) == [RowLetter(r)];
    RowIndicatorBijection(RowOf(coordinate), r);
  }

  /** The target cell belongs to all three units and is not required to be
      empty: when it already holds the value, all three kinds are reported. */
  lemma OccupiedTargetConflictsEverywhere(puzzle: string, coordinate: string, value: string, r: nat, c: nat)
    requires Verdict(puzzle, coordinate, value).Checked?
    requires r < Size && c < Size && |coordinate| >= 2
    requires coordinate[0] == RowLetter(r) && coordinate[1] == ('1' as int + c) as char
    requires |puzzle| == Size * Size && Holds(Cell(puzzle, r, c), value)
    ensures Verdict(puzzle, coordinate, value) == Checked(false, Some(ConflictOrder))
  {
    ConflictsMeanOccurrence(puzzle, coordinate, value, r, c);
    assert InColumn(puzzle, c, value);
    assert InRow(puzzle, r, value);
    assert SameBand(r, r) && SameBand(c, c);
    assert InRegion(puzzle, r, c, value);
    assert [Column] + [Row] + [Region] == ConflictOrder;
  }

  /** Only the first two characters of a coordinate are read: appending
      further allowed characters (`"A11"` for `"A1"`) changes nothing. */
  lemma TrailingCoordinateIgnored(puzzle: string, coordinate: string, extra: string, value: string)
    requires |coordinate| >= 2
    requires forall i :: 0 <= i < |extra| ==> IsCoordinateChar(extra[i])
    ensures Verdict(puzzle, coordinate + extra, value) == Verdict(puzzle, coordinate, value)
  {
    var longer := coordinate + extra;
    assert RowOf(longer) == RowOf(coordinate);
    assert ColumnOf(longer) == ColumnOf(coordinate);
    assert ValidateCoordinate(longer) == ValidateCoordinate(coordinate) by {
      assert forall i :: 0 <= i < |coordinate| ==> longer[i] == coordinate[i];
      assert forall i :: |coordinate| <= i < |longer| ==> longer[i] == extra[i - |coordinate|];
    }
  }
}
