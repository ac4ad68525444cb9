/**
 * The island map as text: the five terrain codes, the rules a map string
 * must satisfy (rectangular rows, known codes, an all-ocean border), the
 * coordinates its characters are given, and the four orthogonal
 * neighbours of a coordinate.
 */
module IslandMap {
  import opened Wrappers
  import opened Errors
  import opened Text
  import opened Seqs

  /** The five cell classes of the island. */
  datatype Terrain = Savannah | Jungle | Desert | Mountain | Ocean

  /** A map coordinate `(row, column)`. */
  type Loc = (int, int)

  /** The `cell_code` table; `O` and `M` name the ocean and mountain cells. */
  function CellCode(c: char): (t: Option<Terrain>)
    ensures t.Some? <==> c in {'S', 'J', 'D', 'O', 'M'}
  {
    match c
    case 'S' => Some(Savannah)
    case 'J' => Some(Jungle)
    case 'D' => Some(Desert)
    case 'O' => Some(Ocean)
    case 'M' => Some(Mountain)
    case _ => None
  }

  /** Cells animals may enter: everything but mountain and ocean. */
  predicate Passable(t: Terrain) {
    t != Mountain && t != Ocean
  }

  const InconsistentLineLength := "Inconsistent line length."
  const InvalidLandscapeType := "Invalid landscape type."
  const NonOceanBoundary := "Non-ocean boundary."

  // ---------------------------------------------------------------------
  // The validation rules, each stated on its own
  // ---------------------------------------------------------------------

  predicate Rectangular(rows: seq<string>)
    requires |rows| >= 1
  {
    forall i :: 0 <= i < |rows| ==> |rows[i]| == |rows[0]|
  }

  predicate ValidCodes(rows: seq<string>) {
    forall i, j :: 0 <= i < |rows| && 0 <= j < |rows[i]| ==> CellCode(rows[i][j]).Some?
  }

  predicate AllOcean(row: string) {
    forall j :: 0 <= j < |row| ==> row[j] == 'O'
  }

  /**
   * The error the side check of one row raises, if any: first `row[0]`, then
   * the last character, read as `row[-1]` (`negIndex`) or as
   * `row[len(row) - 1]`. An empty row raises `IndexError`.
   */
  function RowSides(row: string, negIndex: bool): Option<Error> {
    match PyIndex(row, 0)
    case None => Some(IndexError)
    case Some(first) =>
      if first != 'O' then Some(ValueError(NonOceanBoundary))
      else
        match PyIndex(row, if negIndex then -1 else |row| - 1)
        case None => Some(IndexError)
        case Some(last) => if last != 'O' then Some(ValueError(NonOceanBoundary)) else None
  }

  /** The error of the first row, in order, whose side check fails. */
  function SidesError(rows: seq<string>, negIndex: bool): Option<Error> {
    if |rows| == 0 then None
    else if RowSides(rows[0], negIndex).Some? then RowSides(rows[0], negIndex)
    else SidesError(rows[1..], negIndex)
  }

  /** The last row, read as `rows[-1]` (`negIndex`) or as `rows[n - 1]`. */
  function LastRow(rows: seq<string>, negIndex: bool): string
    requires |rows| >= 1
  {
    var r := PyIndex(rows, if negIndex then -1 else |rows| - 1);
    r.value
  }

  /**
   * What `check_map_input` does with the rows of the map: the first failing
   * rule, in the order line length, landscape codes, first row, last row,
   * row sides, decides the exception; otherwise it returns `True` (`Pass`).
   */
  function CheckRows(rows: seq<string>, negIndex: bool): Outcome<Error>
    requires |rows| >= 1
  {
    if !Rectangular(rows) then Fail(ValueError(InconsistentLineLength))
    else if !ValidCodes(rows) then Fail(ValueError(InvalidLandscapeType))
    else if !AllOcean(rows[0]) then Fail(ValueError(NonOceanBoundary))
    else if !AllOcean(LastRow(rows, negIndex)) then Fail(ValueError(NonOceanBoundary))
    else match SidesError(rows, negIndex)
      case Some(e) => Fail(e)
      case None => Pass
  }

  /** A well-formed island: the map the simulator is documented to accept. */
  predicate WellFormed(rows: seq<string>) {
    && |rows| >= 1
    && Rectangular(rows)
    && ValidCodes(rows)
    && |rows[0]| >= 1
    && AllOcean(rows[0])
    && AllOcean(rows[|rows| - 1])
    && forall i :: 0 <= i < |rows| ==> rows[i][0] == 'O' && rows[i][|rows[i]| - 1] == 'O'
  }

  /** A row passes the side check exactly when it is non-empty and `O` at both ends. */
  lemma RowSidesNone(row: string, negIndex: bool)
    ensures RowSides(row, negIndex).None? <==> |row| >= 1 && row[0] == 'O' && row[|row| - 1] == 'O'
  {
  }

  lemma {:induction false} SidesErrorNone(rows: seq<string>, negIndex: bool)
    ensures SidesError(rows, negIndex).None? <==>
      forall i :: 0 <= i < |rows| ==> |rows[i]| >= 1 && rows[i][0] == 'O' && rows[i][|rows[i]| - 1] == 'O'
  {
    if |rows| > 0 {
      RowSidesNone(rows[0], negIndex);
      SidesErrorNone(rows[1..], negIndex);
      if SidesError(rows, negIndex).None? {
        forall i | 0 <= i < |rows|
          ensures |rows[i]| >= 1 && rows[i][0] == 'O' && rows[i][|rows[i]| - 1] == 'O'
        {
          if i > 0 { assert rows[i] == rows[1..][i - 1]; }
        }
      } else if RowSides(rows[0], negIndex).None? {
        var k :| 0 <= k < |rows[1..]| && !(|rows[1..][k]| >= 1 && rows[1..][k][0] == 'O' && rows[1..][k][|rows[1..][k]| - 1] == 'O');
        assert rows[1..][k] == rows[k + 1];
      }
    }
  }

  /**
   * The side check only ever raises `IndexError` or the boundary
   * `ValueError`, whichever indexing style is used.
   */
  lemma {:induction false} SidesErrorKinds(rows: seq<string>, negIndex: bool)
    ensures SidesError(rows, negIndex) in {None, Some(IndexError), Some(ValueError(NonOceanBoundary))}
  {
    if |rows| > 0 {
      SidesErrorKinds(rows[1..], negIndex);
    }
  }

  /**
   * `check_map_input` accepts exactly the well-formed maps, and each
   * exception corresponds to the first rule that fails.
   */
  lemma CheckRowsAccepts(rows: seq<string>, negIndex: bool)
    requires |rows| >= 1
    ensures CheckRows(rows, negIndex) == Pass <==> WellFormed(rows)
    ensures CheckRows(rows, negIndex) == Fail(ValueError(InconsistentLineLength)) <==> !Rectangular(rows)
    ensures CheckRows(rows, negIndex) == Fail(ValueError(InvalidLandscapeType)) <==>
      Rectangular(rows) && !ValidCodes(rows)
    ensures CheckRows(rows, negIndex) == Fail(IndexError) <==>
      Rectangular(rows) && ValidCodes(rows) && |rows[0]| == 0
    ensures CheckRows(rows, negIndex) == Fail(ValueError(NonOceanBoundary)) <==>
      Rectangular(rows) && ValidCodes(rows) && |rows[0]| >= 1 && !WellFormed(rows)
  {
    SidesErrorNone(rows, negIndex);
    SidesErrorKinds(rows, negIndex);
    if Rectangular(rows) && |rows[0]| == 0 {
      assert RowSides(rows[0], negIndex) == Some(IndexError);
    }
    if Rectangular(rows) && |rows[0]| >= 1 {
      assert SidesError(rows, negIndex) != Some(IndexError) by {
        SidesNeverIndexError(rows, negIndex);
      }
    }
  }

  /** Once every row has the first row's non-zero length, no row raises `IndexError`. */
  lemma {:induction false} SidesNeverIndexError(rows: seq<string>, negIndex: bool)
    requires forall i :: 0 <= i < |rows| ==> |rows[i]| >= 1
    ensures SidesError(rows, negIndex) != Some(IndexError)
  {
    if |rows| > 0 {
      SidesNeverIndexError(rows[1..], negIndex);
    }
  }

  /**
   * The `rows[-1]` / `row[-1]` reading and the `rows[n-1]` /
   * `row[num_cells-1]` reading of the boundary rule accept and reject the
   * same maps with the same exception.
   */
  lemma {:induction false} IndexStylesAgree(rows: seq<string>)
    requires |rows| >= 1
    ensures CheckRows(rows, true) == CheckRows(rows, false)
  {
    SidesStylesAgree(rows);
  }

  lemma {:induction false} SidesStylesAgree(rows: seq<string>)
    ensures SidesError(rows, true) == SidesError(rows, false)
  {
    if |rows| > 0 {
      assert RowSides(rows[0], true) == RowSides(rows[0], false);
      SidesStylesAgree(rows[1..]);
    }
  }

  // ---------------------------------------------------------------------
  // Coordinates of the characters of a map
  // ---------------------------------------------------------------------

  /** `l` is the key of a character when rows and columns are counted from `base`. */
  predicate InLayout(rows: seq<string>, base: int, l: Loc) {
    0 <= l.0 - base < |rows| && 0 <= l.1 - base < |rows[l.0 - base]|
  }

  /** The key `l` has been made by the nested loops counting from 1 once the rows before `i`, and `j` characters of row `i`, are done. */
  predicate Visited(rows: seq<string>, i: int, j: int, l: Loc) {
    InLayout(rows, 1, l) && (l.0 - 1 < i || (l.0 - 1 == i && l.1 - 1 < j))
  }

  function CharAt(rows: seq<string>, base: int, l: Loc): char
    requires InLayout(rows, base, l)
  {
    rows[l.0 - base][l.1 - base]
  }

  /** The keys of row `i`, left to right. */
  function RowLocs(i: int, width: nat, base: int): (r: seq<Loc>)
    ensures |r| == width
  {
    seq(width, j => (i + base, j + base))
  }

  /** Row `i` gets one key per column, each once. */
  lemma RowLocsCover(i: int, width: nat, base: int)
    ensures Distinct(RowLocs(i, width, base))
    ensures forall l :: l in RowLocs(i, width, base) <==> l.0 == i + base && base <= l.1 < base + width
  {
    var r := RowLocs(i, width, base);
    assert forall l: Loc | l.0 == i + base && base <= l.1 < base + width :: r[l.1 - base] == l;
  }

  /** The keys in the order the nested `enumerate` loops insert them (row-major). */
  function Order(rows: seq<string>, base: int): seq<Loc> {
    if |rows| == 0 then []
    else Order(rows[..|rows| - 1], base) + RowLocs(|rows| - 1, |rows[|rows| - 1]|, base)
  }

  /** Every character gets exactly one key, and the keys are all visited once. */
  lemma {:induction false} OrderIsLayout(rows: seq<string>, base: int)
    ensures forall l :: l in Order(rows, base) <==> InLayout(rows, base, l)
    ensures Distinct(Order(rows, base))
    ensures forall k :: 0 <= k < |Order(rows, base)| ==> Order(rows, base)[k].0 - base < |rows|
  {
    if |rows| > 0 {
      var init := rows[..|rows| - 1];
      var n := |rows| - 1;
      OrderIsLayout(init, base);
      var o := Order(init, base);
      var last := RowLocs(n, |rows[n]|, base);
      assert Order(rows, base) == o + last;
      forall l
        ensures l in o + last <==> InLayout(rows, base, l)
      {
        if l in last {
          var j :| 0 <= j < |last| && last[j] == l;
        }
        if InLayout(rows, base, l) && l.0 - base < n {
          assert InLayout(init, base, l);
        }
        if InLayout(rows, base, l) && l.0 - base == n {
          assert last[l.1 - base] == l;
        }
      }
      forall x, y | 0 <= x < y < |o + last|
        ensures (o + last)[x] != (o + last)[y]
      {
        if y >= |o| && x < |o| {
          assert o[x].0 - base < n;
        }
      }
    }
  }

  // ---------------------------------------------------------------------
  // Neighbours (MigrationProbabilityCalculator)
  // ---------------------------------------------------------------------

  function Abs(x: int): nat {
    if x < 0 then -x else x
  }

  /** Manhattan distance one: the two coordinates differ in exactly one place, by one. */
  predicate Adjacent(a: Loc, b: Loc) {
    Abs(a.0 - b.0) + Abs(a.1 - b.1) == 1
  }

  /** The candidate cells of a move: left, right, up, down, in that order. */
  function Neighbours(l: Loc): (r: seq<Loc>)
    ensures |r| == 4 && Distinct(r)
    ensures forall k :: 0 <= k < 4 ==> Adjacent(l, r[k])
    ensures forall k :: 0 <= k < 4 ==> (r[k].0 == l.0) != (r[k].1 == l.1)
  {
    [(l.0, l.1 - 1), (l.0, l.1 + 1), (l.0 - 1, l.1), (l.0 + 1, l.1)]
  }

  /** The neighbour list holds every orthogonally adjacent cell and nothing else. */
  lemma NeighboursAreAdjacent(l: Loc, m: Loc)
    ensures m in Neighbours(l) <==> Adjacent(l, m)
  {
    var n := Neighbours(l);
    if Adjacent(l, m) {
      if m.0 == l.0 {
        assert m == n[0] || m == n[1];
      } else {
        assert m == n[2] || m == n[3];
      }
    }
  }

  /**
   * In a map that `check_map_input` accepts, a passable cell lies strictly
   * inside the border, so all four neighbours the migration code looks up
   * are keys of the (0-based) map.
   */
  lemma PassableIsInterior(rows: seq<string>, l: Loc)
    requires WellFormed(rows)
    requires InLayout(rows, 0, l)
    requires CharAt(rows, 0, l) != 'O' && CharAt(rows, 0, l) != 'M'
    ensures 0 < l.0 < |rows| - 1 && 0 < l.1 < |rows[l.0]| - 1
    ensures forall k :: 0 <= k < 4 ==> InLayout(rows, 0, Neighbours(l)[k])
  {
    assert rows[l.0][0] == 'O' && rows[l.0][|rows[l.0]| - 1] == 'O';
    assert |rows[0]| == |rows[l.0]| == |rows[|rows| - 1]|;
    assert rows[0][l.1] == 'O' && rows[|rows| - 1][l.1] == 'O';
    assert |rows[l.0 - 1]| == |rows[l.0]| == |rows[l.0 + 1]|;
  }
}
