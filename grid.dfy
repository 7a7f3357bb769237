/** The grid codec: the flat puzzle string as a row-major matrix, row letters
    as row indices, and indices as their 3-wide region band. */
module Grid {
  import opened Wrappers

  /** Rows and columns of the grid (`numOfColsAndRows` at every call site). */
  const Size := 9

  /** The rows that cutting `s` every `n` characters gives; the last row is
      shorter when `n` does not divide `|s|`. */
  function Rows(s: string, n: nat): (m: seq<string>)
    requires n > 0
    ensures |m| == 0 <==> |s| == 0
    ensures forall r :: 0 <= r < |m| ==> 0 < |m[r]| <= n
    decreases |s|
  {
    if |s| == 0 then []
    else if |s| <= n then [s]
    else [s[..n]] + Rows(s[n..], n)
  }

  /** The rows written one after the other: the inverse of `Rows`. */
  function Flatten(m: seq<string>): string
  {
    if m == [] then [] else m[0] + Flatten(m[1..])
  }

  /** Round trip: joining the rows of `s` gives `s` back. */
  lemma {:induction false} FlattenRows(s: string, n: nat)
    requires n > 0
    ensures Flatten(Rows(s, n)) == s
    decreases |s|
  {
    if |s| > n {
      FlattenRows(s[n..], n);
      assert Rows(s, n)[1..] == Rows(s[n..], n);
      assert s == s[..n] + s[n..];
    }
  }

  /** Joining rows of `n` cells each gives `n` characters per row. */
  lemma {:induction false} FlattenLength(m: seq<string>, n: nat)
    requires forall r :: 0 <= r < |m| ==> |m[r]| == n
    ensures |Flatten(m)| == n * |m|
  {
    if m != [] {
      FlattenLength(m[1..], n);
      assert n * |m| == n + n * (|m| - 1);
    }
  }

  /** The other round trip: cutting joined rows of `n` cells gives the rows back. */
  lemma {:induction false} RowsOfFlatten(m: seq<string>, n: nat)
    requires n > 0 && forall r :: 0 <= r < |m| ==> |m[r]| == n
    ensures Rows(Flatten(m), n) == m
  {
    if m != [] {
      RowsOfFlatten(m[1..], n);
      var s := Flatten(m);
      assert s == m[0] + Flatten(m[1..]);
      if |m| > 1 {
        assert Flatten(m[1..]) == m[1] + Flatten(m[2..]);
        assert s[..n] == m[0] && s[n..] == Flatten(m[1..]);
      } else {
        assert s == m[0];
      }
    }
  }

  /** Cell `c` of row `r` is character `n*r + c` of the string. */
  lemma {:induction false} RowsCell(s: string, n: nat, r: nat, c: nat)
    requires n > 0 && c < n && n * r + c < |s|
    ensures r < |Rows(s, n)| && c < |Rows(s, n)[r]| && Rows(s, n)[r][c] == s[n * r + c]
    decreases r
  {
    if r > 0 {
      var r' := r - 1;
      assert n * r == n * r' + n;
      assert n * r' + c < |s| - n;
      RowsCell(s[n..], n, r', c);
      assert s[n..][n * r' + c] == s[n * r + c];
    } else {
      assert c < |s|;
    }
  }

  /** A string of `k` full rows cuts into exactly `k` rows of `n` cells. */
  lemma {:induction false} RowsShape(s: string, n: nat, k: nat)
    requires n > 0 && |s| == n * k
    ensures |Rows(s, n)| == k
    ensures forall r :: 0 <= r < k ==> |Rows(s, n)[r]| == n
    decreases k
  {
    if k > 1 {
      assert n * k == n * (k - 1) + n;
      RowsShape(s[n..], n, k - 1);
    }
  }

  /** An 81-character puzzle is a 9×9 matrix whose cell `[r][c]` is
      character `9*r + c`, and that joins back into the puzzle. */
  lemma GridOf(puzzle: string)
    requires |puzzle| == Size * Size
    ensures |Rows(puzzle, Size)| == Size
    ensures forall r :: 0 <= r < Size ==> |Rows(puzzle, Size)[r]| == Size
    ensures forall r, c :: 0 <= r < Size && 0 <= c < Size ==> Rows(puzzle, Size)[r][c] == puzzle[Size * r + c]
    ensures Flatten(Rows(puzzle, Size)) == puzzle
  {
    RowsShape(puzzle, Size, Size);
    FlattenRows(puzzle, Size);
    forall r, c | 0 <= r < Size && 0 <= c < Size
      ensures Rows(puzzle, Size)[r][c] == puzzle[Size * r + c]
    {
      RowsCell(puzzle, Size, r, c);
    }
  }

  /** A positive multiple of `n` is at least `n`. */
  lemma MulAtLeast(n: int, x: int)
    requires n > 0 && x >= 1
    ensures n * x >= n
  {
  }

  /** Division with remainder has one answer. */
  lemma DivModUnique(a: int, n: int, q: int, r: int)
    requires n > 0 && 0 <= r < n && a == n * q + r
    ensures a % n == r && a / n == q
  {
    var q', r' := a / n, a % n;
    assert n * (q - q') == r' - r;
    if q > q' {
      MulAtLeast(n, q - q');
    } else if q' > q {
      MulAtLeast(n, q' - q);
    }
  }

  /** Taking `n` away keeps the remainder modulo `n`. */
  lemma ModSubtract(a: nat, n: nat)
    requires 0 < n <= a
    ensures (a - n) % n == a % n
  {
    DivModUnique(a - n, n, a / n - 1, a % n);
  }

  /** Appending one character to `s` starts a new row when the last row of
      `s` is full (`|s| % n == 0`), and otherwise extends the last row. */
  lemma {:induction false} RowsSnoc(s: string, x: char, n: nat)
    requires n > 0
    ensures |s| % n == 0 ==> Rows(s + [x], n) == Rows(s, n) + [[x]]
    ensures |s| % n != 0 ==>
              |Rows(s, n)| > 0 &&
              Rows(s + [x], n) == Rows(s, n)[|Rows(s, n)| - 1 := Rows(s, n)[|Rows(s, n)| - 1] + [x]]
    decreases |s|
  {
    var t := s + [x];
    if |s| == 0 {
      assert t == [x];
      assert Rows(t, n) == [[x]];
    } else if |s| < n {
      DivModUnique(|s|, n, 0, |s|);
      assert Rows(t, n) == [t];
    } else if |s| == n {
      DivModUnique(|s|, n, 1, 0);
      assert t[..n] == s && t[n..] == [x];
      assert Rows(t, n) == [s] + Rows([x], n);
    } else {
      var tail := s[n..];
      assert t[..n] == s[..n] && t[n..] == tail + [x];
      ModSubtract(|s|, n);
      RowsSnoc(tail, x, n);
      assert Rows(t, n) == [s[..n]] + Rows(tail + [x], n);
      assert Rows(s, n) == [s[..n]] + Rows(tail, n);
    }
  }

  /** `transformStringToMatrix`: walks the string once, opening a new row
      whenever the position is a multiple of `n` and pushing each character
      onto the current row (`col` is the index of that row). */
  method TransformStringToMatrix(puzzle: string, n: nat) returns (matrix: seq<string>)
    requires n > 0
    ensures matrix == Rows(puzzle, n)
    ensures Flatten(matrix) == puzzle
  {
    matrix := [];
    var col := -1;
    var row := 0;
    while row < |puzzle|
      invariant 0 <= row <= |puzzle|
      invariant col == |matrix| - 1
      invariant matrix == Rows(puzzle[..row], n)
    {
      ghost var done := puzzle[..row];
      RowsSnoc(done, puzzle[row], n);
      assert puzzle[..row + 1] == done + [puzzle[row]];
      if row % n == 0 {
        col := col + 1;
        matrix := matrix + [[]];
        assert matrix[col] + [puzzle[row]] == [puzzle[row]];
      }
      matrix := matrix[col := matrix[col] + [puzzle[row]]];
      row := row + 1;
    }
    assert puzzle[..row] == puzzle;
    FlattenRows(puzzle, n);
  }

  /** The object literal `indicatorToIndex` of `transformRowIndicatorToIndex`. */
  const RowIndicators: map<string, nat> :=
    map["A" := 0, "B" := 1, "C" := 2, "D" := 3, "E" := 4, "F" := 5, "G" := 6, "H" := 7, "I" := 8]

  /** `transformRowIndicatorToIndex`: looks the key up in the literal; any
      other key reads `undefined`. */
  function TransformRowIndicatorToIndex(indicator: string): (r: Option<nat>)
    ensures r.Some? <==> |indicator| == 1 && 'A' <= indicator[0] <= 'I'
    ensures r.Some? ==> r.value < Size && r.value == indicator[0] as int - 'A' as int
  {
    IndicatorKeys(indicator);
    if indicator in RowIndicators then Some(RowIndicators[indicator]) else None
  }

  /** The keys of the literal are exactly the one-letter strings `A..I`. */
  lemma IndicatorKeys(indicator: string)
    ensures indicator in RowIndicators <==> |indicator| == 1 && 'A' <= indicator[0] <= 'I'
    ensures indicator in RowIndicators ==> RowIndicators[indicator] == indicator[0] as int - 'A' as int
  {
    if |indicator| == 1 && 'A' <= indicator[0] <= 'I' {
      assert indicator == [indicator[0]];
    }
  }

  /** The letter of row `i`, the inverse of the lookup. */
  function RowLetter(i: nat): (c: char)
    requires i < Size
    ensures 'A' <= c <= 'I'
  {
    ('A' as int + i) as char
  }

  /** The lookup maps `A..I` onto `0..8` and back. */
  lemma RowIndicatorBijection(indicator: string, i: nat)
    requires i < Size
    ensures TransformRowIndicatorToIndex([RowLetter(i)]) == Some(i)
    ensures TransformRowIndicatorToIndex(indicator) == Some(i) <==> indicator == [RowLetter(i)]
  {
  }

  /** Indices `i` and `j` of the grid lie in the same 3-wide band. */
  predicate SameBand(i: int, j: int)
  {
    0 <= i < Size && 0 <= j < Size && i / 3 == j / 3
  }

  /** `mapIndexToRegionIndices`: the indices of the band holding `index`,
      in increasing order, or no index at all when `index` is not one of
      `0..8` (which covers `undefined` and `NaN`). */
  method MapIndexToRegionIndices(index: Option<int>) returns (indices: seq<int>)
    ensures index.Some? && 0 <= index.value < Size ==>
              |indices| == 3 && indices[0] == index.value - index.value % 3 &&
              indices[1] == indices[0] + 1 && indices[2] == indices[0] + 2
    ensures !(index.Some? && 0 <= index.value < Size) ==> indices == []
    ensures forall j :: j in indices <==> index.Some? && SameBand(index.value, j)
  {
    indices := [];
    match index {
      case Some(0) | Some(1) | Some(2) =>
        indices := indices + [0, 1, 2];
      case Some(3) | Some(4) | Some(5) =>
        indices := indices + [3, 4, 5];
      case Some(6) | Some(7) | Some(8) =>
        indices := indices + [6, 7, 8];
      case _ =>
    }
  }
}
