/**
 * The island Rossumøya: the map of cells built from a map string, the
 * migration probabilities of `MigrationProbabilityCalculator`, and the
 * island-wide passes (population, procreation, migration, death).
 */
module Rossumoya {
  import opened Wrappers
  import opened Errors
  import opened Seqs
  import opened Text
  import opened IslandMap
  import opened Animal
  import opened Cell

  // ---------------------------------------------------------------------
  // The classes whose attributes the cells and animals share
  // ---------------------------------------------------------------------

  /**
   * The Python classes `Savannah`, `Jungle`, `Desert`, `Mountain`, `Ocean`,
   * `Herbivore` and `Carnivore`, whose class attributes every instance reads.
   */
  datatype Classes = Classes(
    savannah: TerrainParams, jungle: TerrainParams, desert: TerrainParams,
    mountain: TerrainParams, ocean: TerrainParams,
    herbivore: SpeciesParams, carnivore: SpeciesParams)
  {
    /** The class of the cells of terrain `t`. */
    function Of(t: Terrain): TerrainParams {
      match t
      case Savannah => savannah
      case Jungle => jungle
      case Desert => desert
      case Mountain => mountain
      case Ocean => ocean
    }

    function Terrains(): set<object> {
      {savannah, jungle, desert, mountain, ocean}
    }

    /** The class attributes `f_max` and `alpha` of the five terrain classes. */
    function Attributes(): map<Terrain, (real, real)>
      reads Terrains()
    {
      map[Savannah := (savannah.fMax, savannah.alpha), Jungle := (jungle.fMax, jungle.alpha),
          Desert := (desert.fMax, desert.alpha), Mountain := (mountain.fMax, mountain.alpha),
          Ocean := (ocean.fMax, ocean.alpha)]
    }

    function Objects(): set<object> {
      Terrains() + {herbivore, carnivore}
    }

    ghost predicate Valid()
      reads Objects()
    {
      && savannah.kind == Savannah && savannah.Valid()
      && jungle.kind == Jungle && jungle.Valid()
      && desert.kind == Desert && desert.Valid()
      && mountain.kind == Mountain && mountain.Valid()
      && ocean.kind == Ocean && ocean.Valid()
      && herbivore.species == Herbivore && herbivore.Valid()
      && carnivore.species == Carnivore && carnivore.Valid()
    }
  }

  /** A cell built for the island: of its own terrain's class, sharing the two animal classes. */
  ghost predicate MemberCell(c: Cell, cls: Classes)
    reads c, cls.Objects()
  {
    && c.params == cls.Of(c.kind)
    && c.herbivores == cls.herbivore && c.carnivores == cls.carnivore
    && c.Valid()
  }

  // ---------------------------------------------------------------------
  // check_map_input
  // ---------------------------------------------------------------------

  /** The lines of a map string. */
  function Rows(input: string): seq<string> {
    Split(input, '\n')
  }

  /**
   * `Rossumoya.check_map_input(island_map)`: the rules of `CheckRows` on the
   * lines of the string, the last row and the last character read with
   * index -1. It returns `True` exactly for a well-formed island; an empty
   * first line gets past the other rules and raises `IndexError` at `row[0]`.
   */
  function CheckMapInput(input: string): (r: Outcome<Error>)
    ensures r == Pass <==> WellFormed(Rows(input))
    ensures r.Fail? ==> r.error in {ValueError(InconsistentLineLength), ValueError(InvalidLandscapeType),
                                    ValueError(NonOceanBoundary), IndexError}
  {
    CheckRowsAccepts(Rows(input), true);
    CheckRows(Rows(input), true)
  }

  // ---------------------------------------------------------------------
  // make_geography_coordinates
  // ---------------------------------------------------------------------

  /** The terrain of a character the map accepts. */
  function KindOf(c: char): Terrain
    requires CellCode(c).Some?
  {
    CellCode(c).value
  }

  /** The fodder a new cell of terrain `t` starts with when its class holds the default `f_max`. */
  function StartFodder(t: Terrain): real {
    if t == Savannah || t == Jungle then OrZero(DefaultFMax(t)) else 0.0
  }

  /** The keys `make_geography_coordinates` has made once rows before `i`, and `j` characters of row `i`, are done. */
  predicate Covered(rows: seq<string>, i: int, j: int, l: Loc) {
    (0 <= l.0 < i && l.0 < |rows| && 0 <= l.1 < |rows[l.0]|) || (l.0 == i < |rows| && 0 <= l.1 < j)
  }

  /** The characters before row `i`, column `j`, are all landscape codes. */
  predicate CodesBefore(rows: seq<string>, i: int, j: int)
    requires 0 <= i <= |rows|
    requires i < |rows| ==> 0 <= j <= |rows[i]|
  {
    && (forall a, b :: 0 <= a < i && 0 <= b < |rows[a]| ==> CellCode(rows[a][b]).Some?)
    && (i < |rows| ==> forall b :: 0 <= b < j ==> CellCode(rows[i][b]).Some?)
  }


  /** A map of cells, the dictionary `island_map`, with its keys in insertion order. */
  datatype Geography = Geography(order: seq<Loc>, cells: map<Loc, Cell>)

  /** Distinct keys hold distinct cells. */
  predicate Injective(cells: map<Loc, Cell>) {
    forall l, m :: l in cells && m in cells && l != m ==> cells[l] != cells[m]
  }

  /** What a finished map holds: one new, empty cell per character, of that character's terrain. */
  ghost predicate Built(g: Geography, rows: seq<string>, cls: Classes)
    reads g.cells.Values, cls.Objects()
  {
    && ValidCodes(rows)
    && g.order == Order(rows, 0)
    && (forall l :: l in g.cells <==> InLayout(rows, 0, l))
    && Injective(g.cells)
    && forall l :: l in g.cells ==>
         && InLayout(rows, 0, l)
         && g.cells[l].kind == KindOf(CharAt(rows, 0, l))
         && g.cells[l].animals == []
         && g.cells[l].fodder == StartFodder(g.cells[l].kind)
         && MemberCell(g.cells[l], cls)
  }

  /** The state of the dictionary once the characters before row `i`, column `j`, have their cells. */
  ghost predicate Partial(cells: map<Loc, Cell>, rows: seq<string>, i: int, j: int, cls: Classes)
    reads cells.Values, cls.Objects()
  {
    && 0 <= i <= |rows| && (i < |rows| ==> 0 <= j <= |rows[i]|)
    && CodesBefore(rows, i, j)
    && (forall l :: l in cells <==> Covered(rows, i, j, l))
    && Injective(cells)
    && forall l :: l in cells ==>
         && cells[l].kind == KindOf(rows[l.0][l.1])
         && cells[l].animals == [] && cells[l].fodder == StartFodder(cells[l].kind)
         && MemberCell(cells[l], cls)
         && cls.Of(cells[l].kind).fMax == OrZero(DefaultFMax(cells[l].kind))
  }

  /**
   * The attributes of terrain class `t` after `set_parameters()` with its
   * defaults (cell.py:46): the default `f_max`, and the default `alpha` for
   * the savannah, whose setter is the only one that stores it.
   */
  function Reset(t: Terrain, attrs: (real, real)): (r: (real, real))
    ensures r.0 == OrZero(DefaultFMax(t))
    ensures r.1 == if t == Savannah then DefaultAlpha else attrs.1
  {
    (OrZero(DefaultFMax(t)), if t == Savannah then DefaultAlpha else attrs.1)
  }

  /** Resetting twice is resetting once. */
  lemma ResetIdempotent(t: Terrain, attrs: (real, real))
    ensures Reset(t, Reset(t, attrs)) == Reset(t, attrs)
  {
  }

  /** Some character before row `i`, column `j`, is the code of terrain `t`. */
  ghost predicate Made(rows: seq<string>, i: int, j: int, t: Terrain) {
    exists l :: Covered(rows, i, j, l) && 0 <= l.0 < |rows| && 0 <= l.1 < |rows[l.0]| && CellCode(rows[l.0][l.1]) == Some(t)
  }

  /**
   * The terrain attributes `now`, once the characters before row `i`, column
   * `j`, have their cells, starting from `before`: a class that got a cell
   * has been reset, every other class keeps what it had.
   */
  ghost predicate AttributesAfter(now: map<Terrain, (real, real)>, rows: seq<string>, i: int, j: int,
                                  before: map<Terrain, (real, real)>)
  {
    && now.Keys == before.Keys
    && forall t :: t in before ==> now[t] == if Made(rows, i, j, t) then Reset(t, before[t]) else before[t]
  }

  /** Nothing is made before the first character. */
  lemma AttributesAtStart(attrs: map<Terrain, (real, real)>, rows: seq<string>)
    ensures AttributesAfter(attrs, rows, 0, 0, attrs)
  {
    forall t | t in attrs
      ensures !Made(rows, 0, 0, t)
    {
    }
  }

  /** The character at row `i`, column `j`, adds its own terrain to those made. */
  lemma MadeStep(rows: seq<string>, i: int, j: int, t: Terrain)
    requires 0 <= i < |rows| && 0 <= j < |rows[i]|
    ensures Made(rows, i, j + 1, t) <==> Made(rows, i, j, t) || CellCode(rows[i][j]) == Some(t)
  {
    if CellCode(rows[i][j]) == Some(t) {
      assert Covered(rows, i, j + 1, (i, j));
    }
    if Made(rows, i, j + 1, t) {
      var l :| Covered(rows, i, j + 1, l) && 0 <= l.0 < |rows| && 0 <= l.1 < |rows[l.0]| && CellCode(rows[l.0][l.1]) == Some(t);
      if l != (i, j) {
        assert Covered(rows, i, j, l);
      }
    }
    if Made(rows, i, j, t) {
      var l :| Covered(rows, i, j, l) && 0 <= l.0 < |rows| && 0 <= l.1 < |rows[l.0]| && CellCode(rows[l.0][l.1]) == Some(t);
      assert Covered(rows, i, j + 1, l);
    }
  }

  /** Proof step of `BuildRow`: one more cell of terrain `kind` resets its class. */
  lemma AttributesStep(pre: map<Terrain, (real, real)>, rows: seq<string>, i: int, j: int,
                       before: map<Terrain, (real, real)>, kind: Terrain)
    requires 0 <= i < |rows| && 0 <= j < |rows[i]| && CellCode(rows[i][j]) == Some(kind)
    requires AttributesAfter(pre, rows, i, j, before) && kind in pre
    ensures AttributesAfter(pre[kind := Reset(kind, pre[kind])], rows, i, j + 1, before)
  {
    forall t | t in before
      ensures Made(rows, i, j + 1, t) <==> Made(rows, i, j, t) || t == kind
    {
      MadeStep(rows, i, j, t);
    }
    ResetIdempotent(kind, before[kind]);
  }

  /** The end of row `i` is the start of row `i + 1`. */
  lemma MadeRowDone(rows: seq<string>, i: int, t: Terrain)
    requires 0 <= i < |rows|
    ensures Made(rows, i, |rows[i]|, t) <==> Made(rows, i + 1, 0, t)
  {
    if Made(rows, i, |rows[i]|, t) {
      var l :| Covered(rows, i, |rows[i]|, l) && 0 <= l.0 < |rows| && 0 <= l.1 < |rows[l.0]| && CellCode(rows[l.0][l.1]) == Some(t);
      assert Covered(rows, i + 1, 0, l);
    }
    if Made(rows, i + 1, 0, t) {
      var l :| Covered(rows, i + 1, 0, l) && 0 <= l.0 < |rows| && 0 <= l.1 < |rows[l.0]| && CellCode(rows[l.0][l.1]) == Some(t);
      assert Covered(rows, i, |rows[i]|, l);
    }
  }

  /**
   * `cell_code[c]()`: a new cell of terrain `kind`. Its class runs
   * `set_parameters()` again and gets the default `f_max` (and, for the
   * savannah, the default `alpha`); the other classes are untouched.
   */
  method MakeCell(kind: Terrain, cls: Classes) returns (c: Cell)
    requires cls.Valid()
    modifies cls.Of(kind)
    ensures cls.Valid() && fresh(c)
    ensures c.kind == kind && c.animals == [] && c.fodder == StartFodder(kind) && MemberCell(c, cls)
    ensures cls.Of(kind).fMax == OrZero(DefaultFMax(kind))
    ensures cls.Attributes() == old(cls.Attributes())[kind := Reset(kind, old(cls.Attributes())[kind])]
  {
    c := new Cell(kind, cls.Of(kind), cls.herbivore, cls.carnivore);
  }

  /**
   * `MakeCell` while the dictionary is being filled: the cells already in
   * `cells` keep their state, and those of terrain `kind` still find the
   * default `f_max` in their class.
   */
  method NewCell(kind: Terrain, cls: Classes, ghost cells: map<Loc, Cell>, ghost rows: seq<string>, ghost i: int, ghost j: int)
    returns (c: Cell)
    requires cls.Valid() && Partial(cells, rows, i, j, cls)
    modifies cls.Of(kind)
    ensures cls.Valid() && fresh(c) && Partial(cells, rows, i, j, cls)
    ensures c.kind == kind && c.animals == [] && c.fodder == StartFodder(kind) && MemberCell(c, cls)
    ensures cls.Of(kind).fMax == OrZero(DefaultFMax(kind))
    ensures cls.Attributes() == old(cls.Attributes())[kind := Reset(kind, old(cls.Attributes())[kind])]
  {
    c := MakeCell(kind, cls);
  }

  /**
   * The state of `BuildRow` after the first `j` characters of row `i`: the
   * dictionary, the key order and the terrain attributes are those the
   * characters before `(i, j)` give.
   */
  ghost predicate RowProgress(cells: map<Loc, Cell>, order: seq<Loc>, rows: seq<string>, i: int, j: int,
                              cls: Classes, before: map<Terrain, (real, real)>)
    reads cells.Values, cls.Objects()
  {
    && 0 <= i < |rows| && 0 <= j <= |rows[i]|
    && cls.Valid() && Partial(cells, rows, i, j, cls)
    && order == Order(rows[..i], 0) + RowLocs(i, j, 0)
    && AttributesAfter(cls.Attributes(), rows, i, j, before)
  }

  /**
   * Proof step of `BuildRow`: the character at row `i`, column `j`, a known
   * code, gets its cell under the key `(i, j)`.
   */
  method AddCell(rows: seq<string>, i: int, j: int, cls: Classes, cells0: map<Loc, Cell>, order0: seq<Loc>,
                 ghost before: map<Terrain, (real, real)>)
    returns (cells: map<Loc, Cell>, order: seq<Loc>)
    requires RowProgress(cells0, order0, rows, i, j, cls, before)
    requires j < |rows[i]| && CellCode(rows[i][j]).Some?
    modifies cls.Terrains()
    ensures RowProgress(cells, order, rows, i, j + 1, cls, before)
    ensures forall l :: l in cells ==> (l in cells0 && cells[l] == cells0[l]) || fresh(cells[l])
  {
    var kind := CellCode(rows[i][j]).value;
    ghost var pre := cls.Attributes();
    var c := NewCell(kind, cls, cells0, rows, i, j);
    RowProgressStep(cells0, order0, rows, i, j, cls, before, pre, c);
    cells := cells0[(i, j) := c];
    order := order0 + [(i, j)];
  }

  /** The proof of `AddCell`, in the state after the new cell is made. */
  lemma RowProgressStep(cells: map<Loc, Cell>, order: seq<Loc>, rows: seq<string>, i: int, j: int,
                        cls: Classes, before: map<Terrain, (real, real)>, pre: map<Terrain, (real, real)>, c: Cell)
    requires 0 <= i < |rows| && 0 <= j < |rows[i]| && CellCode(rows[i][j]).Some?
    requires cls.Valid() && Partial(cells, rows, i, j, cls) && order == Order(rows[..i], 0) + RowLocs(i, j, 0)
    requires AttributesAfter(pre, rows, i, j, before)
    requires c !in cells.Values
    requires c.kind == KindOf(rows[i][j]) && c.animals == [] && c.fodder == StartFodder(c.kind) && MemberCell(c, cls)
    requires cls.Of(c.kind).fMax == OrZero(DefaultFMax(c.kind))
    requires Some(c.kind) == CellCode(rows[i][j]) && c.kind in pre
    requires cls.Attributes() == pre[c.kind := Reset(c.kind, pre[c.kind])]
    ensures RowProgress(cells[(i, j) := c], order + [(i, j)], rows, i, j + 1, cls, before)
  {
    AttributesStep(pre, rows, i, j, before, c.kind);
    PartialStep(cells, rows, i, j, cls, c);
    assert RowLocs(i, j + 1, 0) == RowLocs(i, j, 0) + [(i, j)];
  }

  /** Nothing of row `i` is done when the rows before it are. */
  lemma RowProgressStart(cells: map<Loc, Cell>, order: seq<Loc>, rows: seq<string>, i: int,
                         cls: Classes, before: map<Terrain, (real, real)>)
    requires 0 <= i < |rows| && cls.Valid()
    requires Partial(cells, rows, i, 0, cls) && order == Order(rows[..i], 0)
    requires AttributesAfter(cls.Attributes(), rows, i, 0, before)
    ensures RowProgress(cells, order, rows, i, 0, cls, before)
  {
    assert RowLocs(i, 0, 0) == [];
    assert order == Order(rows[..i], 0) + RowLocs(i, 0, 0);
  }

  /** A character `cell_code` does not know stops the row with the attributes of the characters before it. */
  lemma RowProgressStopped(cells: map<Loc, Cell>, order: seq<Loc>, rows: seq<string>, i: int, j: int,
                           cls: Classes, before: map<Terrain, (real, real)>)
    requires RowProgress(cells, order, rows, i, j, cls, before)
    requires j < |rows[i]| && CellCode(rows[i][j]).None?
    ensures !forall b :: 0 <= b < |rows[i]| ==> CellCode(rows[i][b]).Some?
    ensures CodesBefore(rows, i, j) && cls.Valid()
    ensures AttributesAfter(cls.Attributes(), rows, i, j, before)
  {
  }

  /** A row whose every character got its cell leaves the next row to start. */
  lemma RowProgressDone(cells: map<Loc, Cell>, order: seq<Loc>, rows: seq<string>, i: int,
                        cls: Classes, before: map<Terrain, (real, real)>)
    requires 0 <= i < |rows| && RowProgress(cells, order, rows, i, |rows[i]|, cls, before)
    ensures forall b :: 0 <= b < |rows[i]| ==> CellCode(rows[i][b]).Some?
    ensures Partial(cells, rows, i + 1, 0, cls) && order == Order(rows[..i + 1], 0)
    ensures AttributesAfter(cls.Attributes(), rows, i + 1, 0, before)
  {
    PartialRowDone(cells, rows, i, cls);
    assert rows[..i + 1][..i] == rows[..i];
    AttributesRowDone(cls.Attributes(), rows, i, before);
  }

  /** The end of row `i` is the start of row `i + 1`, for the terrain attributes. */
  lemma AttributesRowDone(now: map<Terrain, (real, real)>, rows: seq<string>, i: int, before: map<Terrain, (real, real)>)
    requires 0 <= i < |rows| && AttributesAfter(now, rows, i, |rows[i]|, before)
    ensures AttributesAfter(now, rows, i + 1, 0, before)
  {
    forall t | t in before
      ensures Made(rows, i, |rows[i]|, t) <==> Made(rows, i + 1, 0, t)
    {
      MadeRowDone(rows, i, t);
    }
  }

  /** Giving the next character its cell extends the dictionary by one key. */
  lemma PartialStep(cells: map<Loc, Cell>, rows: seq<string>, i: int, j: int, cls: Classes, c: Cell)
    requires Partial(cells, rows, i, j, cls)
    requires 0 <= i < |rows| && 0 <= j < |rows[i]| && CellCode(rows[i][j]).Some?
    requires c !in cells.Values
    requires c.kind == KindOf(rows[i][j]) && c.animals == [] && c.fodder == StartFodder(c.kind) && MemberCell(c, cls)
    requires cls.Of(c.kind).fMax == OrZero(DefaultFMax(c.kind))
    ensures Partial(cells[(i, j) := c], rows, i, j + 1, cls)
  {
    var next := cells[(i, j) := c];
    forall l, m | l in next && m in next && l != m
      ensures next[l] != next[m]
    {
      if l != (i, j) && m != (i, j) {
        assert next[l] == cells[l] && next[m] == cells[m];
      } else if l == (i, j) {
        assert next[m] == cells[m] && cells[m] in cells.Values;
      } else {
        assert next[l] == cells[l] && cells[l] in cells.Values;
      }
    }
  }

  /** At the end of a row the next row starts with nothing of it done. */
  lemma PartialRowDone(cells: map<Loc, Cell>, rows: seq<string>, i: int, cls: Classes)
    requires 0 <= i < |rows| && Partial(cells, rows, i, |rows[i]|, cls)
    ensures Partial(cells, rows, i + 1, 0, cls)
  {
  }

  /** When every row is done, the dictionary holds exactly the layout of the map. */
  lemma PartialDone(g: Geography, rows: seq<string>, cls: Classes)
    requires Partial(g.cells, rows, |rows|, 0, cls) && g.order == Order(rows, 0)
    ensures Built(g, rows, cls)
  {
    forall l
      ensures l in g.cells <==> InLayout(rows, 0, l)
    {
      assert Covered(rows, |rows|, 0, l) <==> InLayout(rows, 0, l);
    }
    assert forall l :: l in g.cells ==> InLayout(rows, 0, l) && CharAt(rows, 0, l) == rows[l.0][l.1];
  }

  /**
   * The inner loop of `make_geography_coordinates`: the characters of row
   * `i` get their cells left to right, until one `cell_code` does not know
   * (`ok` false) ends the row.
   */
  method BuildRow(rows: seq<string>, i: int, cls: Classes, cells0: map<Loc, Cell>, order0: seq<Loc>,
                  ghost before: map<Terrain, (real, real)>)
    returns (ok: bool, cells: map<Loc, Cell>, order: seq<Loc>, ghost stop: int)
    requires 0 <= i < |rows| && cls.Valid()
    requires Partial(cells0, rows, i, 0, cls) && order0 == Order(rows[..i], 0)
    requires AttributesAfter(cls.Attributes(), rows, i, 0, before)
    modifies cls.Terrains()
    ensures cls.Valid()
    ensures ok <==> forall b :: 0 <= b < |rows[i]| ==> CellCode(rows[i][b]).Some?
    ensures ok ==> Partial(cells, rows, i + 1, 0, cls) && order == Order(rows[..i + 1], 0)
    ensures ok ==> AttributesAfter(cls.Attributes(), rows, i + 1, 0, before)
    ensures !ok ==> 0 <= stop < |rows[i]| && CodesBefore(rows, i, stop) && CellCode(rows[i][stop]).None?
    ensures !ok ==> AttributesAfter(cls.Attributes(), rows, i, stop, before)
    ensures forall l :: l in cells ==> (l in cells0 && cells[l] == cells0[l]) || fresh(cells[l])
  {
    var line := rows[i];
    cells, order := cells0, order0;
    var j := 0;
    RowProgressStart(cells, order, rows, i, cls, before);
    while j < |line| && CellCode(line[j]).Some?
      invariant RowProgress(cells, order, rows, i, j, cls, before)
      invariant forall l :: l in cells ==> (l in cells0 && cells[l] == cells0[l]) || fresh(cells[l])
    {
      cells, order := AddCell(rows, i, j, cls, cells, order, before);
      j := j + 1;
    }
    if j < |line| {
      RowProgressStopped(cells, order, rows, i, j, cls, before);
      return false, cells, order, j;
    }
    RowProgressDone(cells, order, rows, i, cls, before);
    ok, stop := true, 0;
  }

  /**
   * `make_geography_coordinates(input_map)`: row by row and character by
   * character, the key `(i, j)` (counted from 0) gets a new cell of the
   * class `cell_code` names for the character; a character `cell_code` does
   * not know raises `KeyError`. Each new cell resets its class's `f_max`
   * (and the savannah's `alpha`) to the defaults: afterwards every terrain
   * class that got a cell (before the unknown character, on the `KeyError`
   * path) holds its defaults, and every other one keeps its attributes.
   */
  method MakeGeography(input: string, cls: Classes) returns (r: Result<Geography, Error>)
    requires cls.Valid()
    modifies cls.Terrains()
    ensures cls.Valid()
    ensures r.Failure? <==> !ValidCodes(Rows(input))
    ensures r.Failure? ==> r.error == KeyError
    ensures r.Success? ==> Built(r.value, Rows(input), cls)
    ensures r.Success? ==> forall l :: l in r.value.cells ==> fresh(r.value.cells[l])
    ensures r.Success? ==> AttributesAfter(cls.Attributes(), Rows(input), |Rows(input)|, 0, old(cls.Attributes()))
    ensures r.Failure? ==>
      exists i, j :: (&& 0 <= i < |Rows(input)| && 0 <= j < |Rows(input)[i]|
                      && CodesBefore(Rows(input), i, j) && CellCode(Rows(input)[i][j]).None?
                      && AttributesAfter(cls.Attributes(), Rows(input), i, j, old(cls.Attributes())))
  {
    var rows := Split(input, '\n');
    var order: seq<Loc> := [];
    var cells: map<Loc, Cell> := map[];
    ghost var before := cls.Attributes();
    AttributesAtStart(before, rows);
    var i := 0;
    while i < |rows|
      invariant 0 <= i <= |rows|
      invariant cls.Valid()
      invariant Partial(cells, rows, i, 0, cls)
      invariant order == Order(rows[..i], 0)
      invariant AttributesAfter(cls.Attributes(), rows, i, 0, before)
      invariant forall l :: l in cells ==> fresh(cells[l])
    {
      var ok;
      ghost var stop;
      ok, cells, order, stop := BuildRow(rows, i, cls, cells, order, before);
      if !ok {
        return Failure(KeyError);
      }
      i := i + 1;
    }
    assert rows[..i] == rows;
    PartialDone(Geography(order, cells), rows, cls);
    r := Success(Geography(order, cells));
  }

  // ---------------------------------------------------------------------
  // MigrationProbabilityCalculator
  // ---------------------------------------------------------------------

  /** `MigrationProbabilityCalculator(loc, island_map, species)`: its three attributes. */
  datatype Calculator = Calculator(locations: seq<Loc>, islandMap: map<Loc, Cell>, species: string)

  /** The constructor: the four orthogonal neighbours of `loc`, left, right, up and down. */
  function NewCalculator(loc: Loc, islandMap: map<Loc, Cell>, species: string): (c: Calculator)
    ensures |c.locations| == 4 && Distinct(c.locations)
    ensures forall m :: m in c.locations <==> Adjacent(loc, m)
    ensures c.islandMap == islandMap && c.species == species
  {
    var c := Calculator(Neighbours(loc), islandMap, species);
    assert forall m :: m in c.locations <==> Adjacent(loc, m) by {
      forall m
        ensures m in c.locations <==> Adjacent(loc, m)
      {
        NeighboursAreAdjacent(loc, m);
      }
    }
    c
  }

  /** `np.exp` gives positive values only. */
  ghost predicate PositiveExp(exp: real -> real) {
    forall x :: exp(x) > 0.0
  }

  /**
   * `propensity_migration_herb` or `propensity_migration_carn` of a cell,
   * for species `s`: 0 in mountain and ocean, positive elsewhere, unless the
   * species' appetite is 0, which divides by zero.
   */
  function CellPropensity(c: Cell, s: Species, exp: real -> real): (r: Result<real, Error>)
    reads c, c.herbivores, c.carnivores, c.animals
    ensures !Passable(c.kind) ==> r == Success(0.0)
    ensures r.Failure? ==> r.error == ZeroDivisionError
    ensures PositiveExp(exp) && Passable(c.kind) && r.Success? ==> r.value > 0.0
  {
    if s == Herbivore then c.PropensityHerbivores(exp) else c.CarnivorePropensity(exp)
  }

  /** What the propensity of a cell of `m` reads: the cell, its species' parameters and its residents. */
  ghost function PropensityReads(m: map<Loc, Cell>): set<object>
    reads m.Values
  {
    m.Values + (set c | c in m.Values :: c.herbivores) + (set c | c in m.Values :: c.carnivores)
      + (set c, x | c in m.Values && x in c.animals :: x)
  }

  /**
   * The propensities of the locations `locs` of the map `m` for species
   * `s`, looked up left to right: the first location that is not on the
   * map raises `KeyError`, and the first cell whose propensity raises
   * gives its error.
   */
  function PropensityRow(locs: seq<Loc>, m: map<Loc, Cell>, s: Species, exp: real -> real): (r: Result<seq<real>, Error>)
    reads PropensityReads(m)
    ensures r.Success? ==> |r.value| == |locs|
  {
    if |locs| == 0 then Success([])
    else
      var init := PropensityRow(locs[..|locs| - 1], m, s, exp);
      var l := locs[|locs| - 1];
      if init.Failure? then init
      else if l !in m then Failure(KeyError)
      else
        var c := m[l];
        assert c in m.Values && forall x :: x in c.animals ==> x in PropensityReads(m);
        var p := CellPropensity(c, s, exp);
        if p.Failure? then Failure(p.error) else Success(init.value + [p.value])
  }

  /** Propensities computed one by one for the first locations make up that prefix of the row. */
  lemma {:induction false} PropensityRowOf(locs: seq<Loc>, m: map<Loc, Cell>, s: Species, exp: real -> real, props: seq<real>)
    requires |props| <= |locs|
    requires forall j :: 0 <= j < |props| ==> locs[j] in m && CellPropensity(m[locs[j]], s, exp) == Success(props[j])
    ensures PropensityRow(locs[..|props|], m, s, exp) == Success(props)
    ensures |props| == |locs| ==> PropensityRow(locs, m, s, exp) == Success(props)
  {
    assert locs[..|locs|] == locs;
    var n := |props|;
    if n > 0 {
      PropensityRowOf(locs, m, s, exp, props[..n - 1]);
      assert locs[..n][..n - 1] == locs[..n - 1];
      assert props == props[..n - 1] + [props[n - 1]];
    }
  }

  /**
   * After the propensities `props` of the first locations, a location off
   * the map (`KeyError`) or a cell whose propensity raises `e` makes the
   * whole row fail with that error.
   */
  lemma PropensityRowFailsAt(locs: seq<Loc>, m: map<Loc, Cell>, s: Species, exp: real -> real, props: seq<real>, e: Error)
    requires |props| < |locs|
    requires forall j :: 0 <= j < |props| ==> locs[j] in m && CellPropensity(m[locs[j]], s, exp) == Success(props[j])
    requires locs[|props|] !in m ==> e == KeyError
    requires locs[|props|] in m ==> CellPropensity(m[locs[|props|]], s, exp) == Failure(e)
    ensures PropensityRow(locs, m, s, exp) == Failure(e)
  {
    var k := |props|;
    PropensityRowOf(locs, m, s, exp, props);
    assert locs[..k + 1][..k] == locs[..k];
    PropensityRowFails(locs, k + 1, m, s, exp);
  }

  /** Once a prefix of the locations fails, the whole row fails the same way. */
  lemma {:induction false} PropensityRowFails(locs: seq<Loc>, k: nat, m: map<Loc, Cell>, s: Species, exp: real -> real)
    requires k <= |locs| && PropensityRow(locs[..k], m, s, exp).Failure?
    ensures PropensityRow(locs, m, s, exp) == PropensityRow(locs[..k], m, s, exp)
    decreases |locs| - k
  {
    if k < |locs| {
      assert locs[..k + 1][..k] == locs[..k];
      PropensityRowFails(locs, k + 1, m, s, exp);
    } else {
      assert locs[..k] == locs;
    }
  }

  /**
   * A row that is computed holds each location's propensity: non-negative
   * for a positive `exp`, and non-zero only for a cell that can be
   * entered. A row that fails does so at a location after which all before
   * it were on the map with a propensity: one missing from the map raises
   * `KeyError`, a cell's propensity its `ZeroDivisionError`.
   */
  lemma {:induction false} PropensityRowMeaning(locs: seq<Loc>, m: map<Loc, Cell>, s: Species, exp: real -> real)
    ensures var r := PropensityRow(locs, m, s, exp);
      r.Success? ==> forall k :: 0 <= k < |locs| ==> locs[k] in m && CellPropensity(m[locs[k]], s, exp) == Success(r.value[k])
    ensures var r := PropensityRow(locs, m, s, exp);
      r.Success? && PositiveExp(exp) ==> forall k :: 0 <= k < |r.value| ==> r.value[k] >= 0.0
    ensures var r := PropensityRow(locs, m, s, exp);
      r.Success? ==> forall k :: 0 <= k < |r.value| && r.value[k] != 0.0 ==> Passable(m[locs[k]].kind)
    ensures var r := PropensityRow(locs, m, s, exp);
      r.Failure? ==> r.error == KeyError || r.error == ZeroDivisionError
    ensures var r := PropensityRow(locs, m, s, exp);
      r.Failure? ==>
        exists k :: 0 <= k < |locs|
          && (forall j :: 0 <= j < k ==> locs[j] in m && CellPropensity(m[locs[j]], s, exp).Success?)
          && if locs[k] in m then CellPropensity(m[locs[k]], s, exp) == Failure(r.error) else r.error == KeyError
  {
    if |locs| > 0 {
      var init := locs[..|locs| - 1];
      PropensityRowMeaning(init, m, s, exp);
      var r, ri := PropensityRow(locs, m, s, exp), PropensityRow(init, m, s, exp);
      var n := |locs| - 1;
      if ri.Failure? {
        var k :| 0 <= k < |init|
          && (forall j :: 0 <= j < k ==> init[j] in m && CellPropensity(m[init[j]], s, exp).Success?)
          && if init[k] in m then CellPropensity(m[init[k]], s, exp) == Failure(ri.error) else ri.error == KeyError;
        assert locs[k] == init[k] && forall j :: 0 <= j < k ==> locs[j] == init[j];
      } else if r.Success? {
        forall k | 0 <= k < |locs|
          ensures locs[k] in m && CellPropensity(m[locs[k]], s, exp) == Success(r.value[k])
        {
          if k < n {
            assert locs[k] == init[k] && r.value[k] == ri.value[k];
          }
        }
        if PositiveExp(exp) {
          forall k | 0 <= k < |r.value|
            ensures r.value[k] >= 0.0
          {
            assert CellPropensity(m[locs[k]], s, exp) == Success(r.value[k]);
          }
        }
      } else {
        assert forall j :: 0 <= j < n ==> locs[j] == init[j];
      }
    }
  }

  /**
   * `propensity_herb()` (`s` the herbivore) and `propensity_carns()`: the
   * propensities of the neighbours, in order. Looking up a location that is
   * not on the map raises `KeyError`; a cell's propensity raises
   * `ZeroDivisionError` when the species' appetite is 0.
   */
  method Propensities(calculator: Calculator, s: Species, exp: real -> real) returns (r: Result<seq<real>, Error>)
    ensures r == PropensityRow(calculator.locations, calculator.islandMap, s, exp)
    ensures r.Success? ==>
      && |r.value| == |calculator.locations|
      && forall k :: 0 <= k < |calculator.locations| ==>
           calculator.locations[k] in calculator.islandMap
           && CellPropensity(calculator.islandMap[calculator.locations[k]], s, exp) == Success(r.value[k])
    ensures r.Success? && PositiveExp(exp) ==> forall k :: 0 <= k < |r.value| ==> r.value[k] >= 0.0
    ensures r.Success? ==> forall k :: 0 <= k < |r.value| && r.value[k] != 0.0 ==>
      Passable(calculator.islandMap[calculator.locations[k]].kind)
    ensures r.Failure? ==> r.error == KeyError || r.error == ZeroDivisionError
    ensures r.Failure? ==>
      exists k :: 0 <= k < |calculator.locations|
        && (forall j :: 0 <= j < k ==>
              calculator.locations[j] in calculator.islandMap
              && CellPropensity(calculator.islandMap[calculator.locations[j]], s, exp).Success?)
        && if calculator.locations[k] in calculator.islandMap
           then CellPropensity(calculator.islandMap[calculator.locations[k]], s, exp) == Failure(r.error)
           else r.error == KeyError
  {
    ghost var m := calculator.islandMap;
    var props: seq<real> := [];
    var k := 0;
    while k < |calculator.locations|
      invariant 0 <= k <= |calculator.locations| && |props| == k
      invariant forall j :: 0 <= j < k ==>
        calculator.locations[j] in calculator.islandMap
        && CellPropensity(calculator.islandMap[calculator.locations[j]], s, exp) == Success(props[j])
    {
      var l := calculator.locations[k];
      if l !in calculator.islandMap {
        PropensityRowFailsAt(calculator.locations, m, s, exp, props, KeyError);
        return Failure(KeyError);
      }
      var c := calculator.islandMap[l];
      var p: Result<real, Error>;
      if s == Herbivore {
        p := c.PropensityHerbivores(exp);
      } else {
        p := c.PropensityCarnivores(exp);
      }
      if p.Failure? {
        assert p == CellPropensity(c, s, exp);
        PropensityRowFailsAt(calculator.locations, m, s, exp, props, p.error);
        return Failure(p.error);
      }
      props := props + [p.value];
      k := k + 1;
    }
    PropensityRowOf(calculator.locations, m, s, exp, props);
    r := Success(props);
  }

  /** `sum(xs)`, added up from the left. */
  function Total(xs: seq<real>): real {
    if |xs| == 0 then 0.0 else Total(xs[..|xs| - 1]) + xs[|xs| - 1]
  }

  /** A sum of non-negative terms is at least each of them. */
  lemma {:induction false} TotalBounds(xs: seq<real>)
    requires forall k :: 0 <= k < |xs| ==> xs[k] >= 0.0
    ensures Total(xs) >= 0.0
    ensures forall k :: 0 <= k < |xs| ==> xs[k] <= Total(xs)
  {
    if |xs| > 0 {
      var init := xs[..|xs| - 1];
      TotalBounds(init);
      forall k | 0 <= k < |xs|
        ensures xs[k] <= Total(xs)
      {
        if k < |xs| - 1 {
          assert xs[k] == init[k];
        }
      }
    }
  }

  /** Every term divided by `d`. */
  function Scaled(xs: seq<real>, d: real): (r: seq<real>)
    requires d != 0.0
    ensures |r| == |xs|
  {
    seq(|xs|, k requires 0 <= k < |xs| => xs[k] / d)
  }

  /** Dividing every term by `d` divides the sum by `d`. */
  lemma {:induction false} TotalScaled(xs: seq<real>, d: real)
    requires d != 0.0
    ensures Total(Scaled(xs, d)) == Total(xs) / d
  {
    if |xs| > 0 {
      var init := xs[..|xs| - 1];
      TotalScaled(init, d);
      assert Scaled(xs, d)[..|xs| - 1] == Scaled(init, d);
    }
  }

  /** The sum of four terms. */
  lemma TotalOfFour(a: real, b: real, c: real, d: real)
    ensures Total([a, b, c, d]) == a + b + c + d
  {
    assert Total([a]) == a by {
      assert [a][..0] == [];
    }
    assert Total([a, b]) == a + b by {
      assert [a, b][..1] == [a];
    }
    assert Total([a, b, c]) == a + b + c by {
      assert [a, b, c][..2] == [a, b];
    }
    assert [a, b, c, d][..3] == [a, b, c];
  }

  /**
   * The list the loop of `probability` builds, as written: `prop / sum *
   * prop` for each propensity `prop`.
   */
  function AsWritten(ps: seq<real>): (r: seq<real>)
    requires |ps| == 0 || Total(ps) != 0.0
    ensures |r| == |ps|
  {
    seq(|ps|, k requires 0 <= k < |ps| => ps[k] / Total(ps) * ps[k])
  }

  /** With non-negative propensities, the values as written are non-negative. */
  lemma AsWrittenNonNegative(ps: seq<real>)
    requires forall k :: 0 <= k < |ps| ==> ps[k] >= 0.0
    requires |ps| == 0 || Total(ps) != 0.0
    ensures forall k :: 0 <= k < |ps| ==> AsWritten(ps)[k] >= 0.0
  {
    TotalBounds(ps);
    forall k | 0 <= k < |ps|
      ensures AsWritten(ps)[k] >= 0.0
    {
      var q := ps[k] / Total(ps);
      assert q >= 0.0;
      ProductNonNegative(q, ps[k]);
    }
  }

  /**
   * The values as written are not a distribution: for the propensities
   * 1, 1, 2, 0 they add up to 1.5.
   */
  lemma AsWrittenNotDistribution()
    ensures Total([1.0, 1.0, 2.0, 0.0]) == 4.0
    ensures Total(AsWritten([1.0, 1.0, 2.0, 0.0])) == 1.5
  {
    var ps := [1.0, 1.0, 2.0, 0.0];
    TotalOfFour(1.0, 1.0, 2.0, 0.0);
    assert AsWritten(ps) == [0.25, 0.25, 1.0, 0.0];
    TotalOfFour(0.25, 0.25, 1.0, 0.0);
  }

  /** The intended probabilities: each propensity divided by their sum. */
  function Normalised(ps: seq<real>): (r: seq<real>)
    requires |ps| == 0 || Total(ps) != 0.0
    ensures |r| == |ps|
  {
    if |ps| == 0 then [] else Scaled(ps, Total(ps))
  }

  /** A positive quotient by a positive divisor has a positive dividend. */
  lemma PositiveQuotient(x: real, t: real)
    requires t > 0.0 && x / t > 0.0
    ensures x > 0.0
  {
    assert x == x / t * t;
  }

  /** A part of a positive whole is a fraction in [0, 1] of it. */
  lemma PartOfWhole(x: real, t: real)
    requires 0.0 <= x <= t && t != 0.0
    ensures 0.0 <= x / t <= 1.0
  {
    assert x / t * t == x;
  }

  /**
   * Non-negative propensities with a positive sum normalise to a
   * distribution: values in [0, 1] that add up to 1.
   */
  lemma NormalisedIsDistribution(ps: seq<real>)
    requires forall k :: 0 <= k < |ps| ==> ps[k] >= 0.0
    requires Total(ps) != 0.0
    ensures forall k :: 0 <= k < |ps| ==> 0.0 <= Normalised(ps)[k] <= 1.0
    ensures Total(Normalised(ps)) == 1.0
  {
    var t := Total(ps);
    var n := Normalised(ps);
    assert n == Scaled(ps, t);
    assert Total(n) == 1.0 by {
      TotalScaled(ps, t);
      assert t / t == 1.0;
    }
    TotalBounds(ps);
    forall k | 0 <= k < |ps|
      ensures 0.0 <= n[k] <= 1.0
    {
      assert n[k] == ps[k] / t;
      PartOfWhole(ps[k], t);
    }
  }

  /**
   * The loop of `probability`: `prop / sum_propensities * prop` for each
   * propensity; a zero sum raises `ZeroDivisionError` at the first one.
   */
  method Shares(props: seq<real>) returns (r: Result<seq<real>, Error>)
    ensures r.Failure? <==> |props| > 0 && Total(props) == 0.0
    ensures r.Failure? ==> r.error == ZeroDivisionError
    ensures r.Success? ==> r.value == AsWritten(props)
  {
    var total := Total(props);
    var probabilities: seq<real> := [];
    var k := 0;
    while k < |props|
      invariant 0 <= k <= |props| && |probabilities| == k
      invariant k > 0 ==> total != 0.0
      invariant forall j :: 0 <= j < k ==> probabilities[j] == props[j] / total * props[j]
    {
      if total == 0.0 {
        return Failure(ZeroDivisionError);
      }
      probabilities := probabilities + [props[k] / total * props[k]];
      k := k + 1;
    }
    if |props| > 0 {
      assert total == Total(props);
      forall j | 0 <= j < |props|
        ensures probabilities[j] == AsWritten(props)[j]
      {
      }
    }
    r := Success(probabilities);
  }

  /** The intended loop: `prop / sum_propensities` for each propensity. */
  method NormalisedShares(props: seq<real>) returns (r: Result<seq<real>, Error>)
    ensures r.Failure? <==> |props| > 0 && Total(props) == 0.0
    ensures r.Failure? ==> r.error == ZeroDivisionError
    ensures r.Success? ==> r.value == Normalised(props)
  {
    var total := Total(props);
    var probabilities: seq<real> := [];
    var k := 0;
    while k < |props|
      invariant 0 <= k <= |props| && |probabilities| == k
      invariant k > 0 ==> total != 0.0
      invariant forall j :: 0 <= j < k ==> probabilities[j] == props[j] / total
    {
      if total == 0.0 {
        return Failure(ZeroDivisionError);
      }
      probabilities := probabilities + [props[k] / total];
      k := k + 1;
    }
    if |props| > 0 {
      assert total == Total(props);
      forall j | 0 <= j < |props|
        ensures probabilities[j] == Normalised(props)[j]
      {
      }
    }
    r := Success(probabilities);
  }

  /**
   * `probability()`: the propensities for the calculator's species, then
   * `prop / sum * prop` for each, returned with the locations. A species
   * name other than the two leaves `propensities` unassigned.
   */
  method Probability(calculator: Calculator, exp: real -> real) returns (r: Result<(seq<Loc>, seq<real>), Error>)
    ensures SpeciesNamed(calculator.species).None? ==> r == Failure(UnboundLocalError("propensities"))
    ensures r.Success? ==> r.value.0 == calculator.locations
    ensures r.Success? ==>
      SpeciesNamed(calculator.species).Some? &&
      exists ps: seq<real> ::
        && |ps| == |calculator.locations|
        && (forall k :: 0 <= k < |ps| ==>
              calculator.locations[k] in calculator.islandMap
              && CellPropensity(calculator.islandMap[calculator.locations[k]], SpeciesNamed(calculator.species).value, exp) == Success(ps[k]))
        && (|ps| == 0 || Total(ps) != 0.0)
        && r.value.1 == AsWritten(ps)
  {
    var s := SpeciesNamed(calculator.species);
    if s.None? {
      return Failure(UnboundLocalError("propensities"));
    }
    var props := Propensities(calculator, s.value, exp);
    if props.Failure? {
      return Failure(props.error);
    }
    var shares := Shares(props.value);
    if shares.Failure? {
      return Failure(shares.error);
    }
    ghost var ps := props.value;
    assert forall k :: 0 <= k < |ps| ==>
      calculator.locations[k] in calculator.islandMap
      && CellPropensity(calculator.islandMap[calculator.locations[k]], s.value, exp) == Success(ps[k]);
    assert |ps| == |calculator.locations| && (|ps| == 0 || Total(ps) != 0.0) && shares.value == AsWritten(ps);
    r := Success((calculator.locations, shares.value));
  }

  // ---------------------------------------------------------------------
  // choose_cell
  // ---------------------------------------------------------------------

  /** The message of unpacking an object that is not a pair. */
  const UnpackMessage := "cannot unpack non-iterable MigrationProbabilityCalculator object"

  /**
   * `choose_cell(loc, species)` as written: the calculator object itself,
   * not the pair its `probability()` returns, is unpacked into
   * `locations, probabilities`, which raises `TypeError`.
   */
  function ChooseCellAsWritten(loc: Loc, islandMap: map<Loc, Cell>, species: string): Result<Loc, Error> {
    var calculator := NewCalculator(loc, islandMap, species);
    Failure(TypeError(UnpackMessage))
  }

  /** As written, no animal ever gets a destination. */
  lemma ChooseCellNeverChooses(loc: Loc, islandMap: map<Loc, Cell>, species: string)
    ensures ChooseCellAsWritten(loc, islandMap, species).Failure?
    ensures ChooseCellAsWritten(loc, islandMap, species).error.TypeError?
  {
  }

  /** An index into the four neighbours `np.random.choice` draws from. */
  type Choice = k: int | 0 <= k < 4

  /** A draw over four locations only picks one whose probability is positive. */
  ghost predicate HonestPick(pick: seq<real> -> Choice) {
    forall p: seq<real> ::
      |p| == 4 && (forall k :: 0 <= k < 4 ==> p[k] >= 0.0) && Total(p) == 1.0 ==> p[pick(p)] > 0.0
  }

  /** An honest draw from normalised propensities picks a neighbour of positive propensity. */
  lemma PickedPositive(ps: seq<real>, pick: seq<real> -> Choice)
    requires |ps| == 4 && (forall k :: 0 <= k < 4 ==> ps[k] >= 0.0) && Total(ps) != 0.0
    requires HonestPick(pick)
    ensures ps[pick(Normalised(ps))] > 0.0
  {
    NormalisedIsDistribution(ps);
    var k := pick(Normalised(ps));
    TotalBounds(ps);
    PositiveQuotient(ps[k], Total(ps));
  }

  /**
   * The cell `choose_cell(loc, species)` picks as intended, for species
   * `s`: the propensities of the four neighbours, and the neighbour `pick`
   * draws with their shares of the sum. A failed lookup gives its error and
   * a zero sum `ZeroDivisionError`.
   */
  ghost function Chosen(loc: Loc, m: map<Loc, Cell>, s: Species, exp: real -> real, pick: seq<real> -> Choice): Result<Loc, Error>
    reads PropensityReads(m)
  {
    var locs := NewCalculator(loc, m, SpeciesName(s)).locations;
    var ps := PropensityRow(locs, m, s, exp);
    if ps.Failure? then Failure(ps.error)
    else if Total(ps.value) == 0.0 then Failure(ZeroDivisionError)
    else Success(locs[pick(Normalised(ps.value))])
  }

  /**
   * With a positive `exp` and an honest draw, the chosen cell is next to
   * `loc`, on the map and can be entered; a failure is a `KeyError` or a
   * `ZeroDivisionError`.
   */
  lemma ChosenIsOpen(loc: Loc, m: map<Loc, Cell>, s: Species, exp: real -> real, pick: seq<real> -> Choice)
    requires PositiveExp(exp) && HonestPick(pick)
    ensures var r := Chosen(loc, m, s, exp, pick);
      r.Success? ==> Adjacent(loc, r.value) && r.value in m && Passable(m[r.value].kind)
    ensures var r := Chosen(loc, m, s, exp, pick);
      r.Failure? ==> r.error == KeyError || r.error == ZeroDivisionError
  {
    var locs := NewCalculator(loc, m, SpeciesName(s)).locations;
    var ps := PropensityRow(locs, m, s, exp);
    PropensityRowMeaning(locs, m, s, exp);
    if ps.Success? && Total(ps.value) != 0.0 {
      PickedPositive(ps.value, pick);
    }
  }

  /**
   * `choose_cell(loc, species)` as intended: the four neighbours with the
   * propensities of the species divided by their sum, and the neighbour the
   * draw `pick` selects with these probabilities. The destination is next
   * to `loc`, on the map, and can be entered.
   */
  method ChooseCell(loc: Loc, islandMap: map<Loc, Cell>, s: Species, exp: real -> real, pick: seq<real> -> Choice)
    returns (r: Result<Loc, Error>)
    requires PositiveExp(exp) && HonestPick(pick)
    ensures var locs := NewCalculator(loc, islandMap, SpeciesName(s)).locations;
      var ps := PropensityRow(locs, islandMap, s, exp);
      && (ps.Failure? ==> r == Failure(ps.error))
      && (ps.Success? && Total(ps.value) == 0.0 ==> r == Failure(ZeroDivisionError))
      && (ps.Success? && Total(ps.value) != 0.0 ==> r == Success(locs[pick(Normalised(ps.value))]))
    ensures r == old(Chosen(loc, islandMap, s, exp, pick))
    ensures r.Success? ==> Adjacent(loc, r.value) && r.value in islandMap && Passable(islandMap[r.value].kind)
    ensures r.Failure? ==> r.error == KeyError || r.error == ZeroDivisionError
  {
    var calculator := NewCalculator(loc, islandMap, SpeciesName(s));
    assert forall o :: o in PropensityReads(islandMap) ==> allocated(o);
    var props := Propensities(calculator, s, exp);
    if props.Failure? {
      return Failure(props.error);
    }
    var ps := props.value;
    var p := NormalisedShares(ps);
    assert props == PropensityRow(calculator.locations, islandMap, s, exp);
    if p.Failure? {
      return Failure(p.error);
    }
    var k := pick(p.value);
    PickedPositive(ps, pick);
    r := Success(calculator.locations[k]);
  }

  // ---------------------------------------------------------------------
  // death
  // ---------------------------------------------------------------------

  /** `dead_animals`: the animals of `xs` whose test is truthy, in order. */
  function Picked<T>(xs: seq<T>, test: T -> bool): (r: seq<T>)
    ensures forall k :: 0 <= k < |r| ==> r[k] in xs && test(r[k])
    ensures forall k :: 0 <= k < |xs| && test(xs[k]) ==> xs[k] in r
  {
    if |xs| == 0 then [] else (if test(xs[0]) then [xs[0]] else []) + Picked(xs[1..], test)
  }

  /** The animals of `xs` whose test is falsy, in order. */
  function Survivors<T>(xs: seq<T>, test: T -> bool): (r: seq<T>)
    ensures forall k :: 0 <= k < |r| ==> r[k] in xs && !test(r[k])
    ensures forall k :: 0 <= k < |xs| && !test(xs[k]) ==> xs[k] in r
  {
    if |xs| == 0 then [] else (if test(xs[0]) then [] else [xs[0]]) + Survivors(xs[1..], test)
  }

  /** Picking one more animal. */
  lemma PickedSnoc<T>(xs: seq<T>, x: T, test: T -> bool)
    ensures Picked(xs + [x], test) == Picked(xs, test) + (if test(x) then [x] else [])
  {
    if |xs| > 0 {
      assert (xs + [x])[1..] == xs[1..] + [x];
      PickedSnoc(xs[1..], x, test);
    } else {
      assert xs + [x] == [x];
    }
  }

  /** The picked animals of a list without duplicates are distinct. */
  lemma {:induction false} PickedDistinct<T>(xs: seq<T>, test: T -> bool)
    requires Distinct(xs)
    ensures Distinct(Picked(xs, test))
  {
    if |xs| > 0 {
      PickedDistinct(xs[1..], test);
    }
  }

  /** Removing a set that holds exactly the animals the test picks leaves the others, in order. */
  lemma {:induction false} WithoutMatching<T>(xs: seq<T>, gone: set<T>, test: T -> bool)
    requires forall k :: 0 <= k < |xs| ==> (xs[k] in gone <==> test(xs[k]))
    ensures Without(xs, gone) == Survivors(xs, test)
  {
    if |xs| > 0 {
      WithoutMatching(xs[1..], gone, test);
    }
  }

  /** Removing the picked animals leaves the others, in order. */
  lemma WithoutPicked<T>(xs: seq<T>, test: T -> bool)
    ensures Without(xs, ToSet(Picked(xs, test))) == Survivors(xs, test)
  {
    var p := Picked(xs, test);
    forall k | 0 <= k < |xs|
      ensures xs[k] in ToSet(p) <==> test(xs[k])
    {
      if xs[k] in ToSet(p) {
        var m :| 0 <= m < |p| && p[m] == xs[k];
      }
    }
    WithoutMatching(xs, ToSet(p), test);
  }

  /**
   * The death pass in one cell: the animals whose test is truthy are
   * collected, then each is removed with `list.remove`; the others stay,
   * in order.
   */
  method CellDeath(c: Cell, test: Animal -> bool)
    requires c.Valid()
    modifies c`animals
    ensures c.Valid()
    ensures c.animals == Survivors(old(c.animals), test)
  {
    var xs := c.animals;
    var dead: seq<Animal> := [];
    var i := 0;
    while i < |xs|
      invariant 0 <= i <= |xs|
      invariant dead == Picked(xs[..i], test)
      modifies {}
    {
      assert xs[..i + 1] == xs[..i] + [xs[i]];
      PickedSnoc(xs[..i], xs[i], test);
      if test(xs[i]) {
        dead := dead + [xs[i]];
      }
      i := i + 1;
    }
    assert xs[..i] == xs;
    PickedDistinct(xs, test);
    forall d | d in dead
      ensures d in xs
    {
      var k :| 0 <= k < |dead| && dead[k] == d;
    }
    RemoveEachDistinct(xs, dead);
    RemovedWhenSucceeds(xs, dead);
    WithoutPicked(xs, test);
    var r := c.RemoveAnimals(dead);
  }

  // ---------------------------------------------------------------------
  // The island
  // ---------------------------------------------------------------------

  /** Who lives where: the resident list of every cell. */
  type Census = map<Loc, seq<Animal>>

  /** No animal lives in two cells. */
  predicate Separate(census: Census) {
    forall l, m, a :: l in census && m in census && l != m && a in census[l] ==> a !in census[m]
  }

  /** Every resident list only lost animals. */
  predicate Shrunk(before: Census, after: Census) {
    && after.Keys == before.Keys
    && forall l, a :: l in after && a in after[l] ==> a in before[l]
  }

  /** Losing animals keeps the cells apart. */
  lemma ShrunkSeparate(before: Census, after: Census)
    requires Separate(before) && Shrunk(before, after)
    ensures Separate(after)
  {
  }

  /** The resident lists after the death pass has visited the cells of `done`. */
  function AfterDeath(census: Census, done: set<Loc>, test: Animal -> bool): (r: Census)
    ensures r.Keys == census.Keys
  {
    map l | l in census :: if l in done then Survivors(census[l], test) else census[l]
  }

  /** The death pass only removes animals. */
  lemma AfterDeathShrinks(census: Census, done: set<Loc>, test: Animal -> bool)
    ensures Shrunk(census, AfterDeath(census, done, test))
  {
    var after := AfterDeath(census, done, test);
    forall l, a | l in after && a in after[l]
      ensures a in census[l]
    {
      if l in done {
        var k :| 0 <= k < |after[l]| && after[l][k] == a;
      }
    }
  }

  /** Visiting one more cell replaces its resident list by the survivors. */
  lemma DeathStep(census: Census, done: set<Loc>, l: Loc, test: Animal -> bool)
    requires l in census && l !in done
    ensures AfterDeath(census, done, test)[l := Survivors(AfterDeath(census, done, test)[l], test)]
      == AfterDeath(census, done + {l}, test)
  {
  }

  /** The test `animal.prob_death` as written: a bound method, which is always truthy. */
  function BoundMethodTest(a: Animal): bool {
    true
  }

  /** Nobody survives a test that is always truthy. */
  lemma NoSurvivors(xs: seq<Animal>)
    ensures Survivors(xs, BoundMethodTest) == []
  {
    if |xs| > 0 {
      NoSurvivors(xs[1..]);
    }
  }

  /** The number of residents of the cells `locs`. */
  function Headcount(census: Census, locs: seq<Loc>): nat {
    if |locs| == 0 then 0
    else
      var l := locs[|locs| - 1];
      Headcount(census, locs[..|locs| - 1]) + (if l in census then |census[l]| else 0)
  }

  /** Changing the residents of a cell not among `locs` changes no count of `locs`. */
  lemma {:induction false} HeadcountElsewhere(census: Census, locs: seq<Loc>, l: Loc, xs: seq<Animal>)
    requires l !in locs
    ensures Headcount(census[l := xs], locs) == Headcount(census, locs)
  {
    if |locs| > 0 {
      HeadcountElsewhere(census, locs[..|locs| - 1], l, xs);
    }
  }

  /** Changing the residents of one of the cells `locs` to `xs` changes the count by the difference. */
  lemma {:induction false} HeadcountUpdate(census: Census, locs: seq<Loc>, l: Loc, xs: seq<Animal>)
    requires Distinct(locs) && l in census && l in locs
    ensures Headcount(census[l := xs], locs) == Headcount(census, locs) - |census[l]| + |xs|
  {
    var init, last := locs[..|locs| - 1], locs[|locs| - 1];
    if last == l {
      forall j | 0 <= j < |init|
        ensures init[j] != l
      {
        assert init[j] == locs[j];
      }
      HeadcountElsewhere(census, init, l, xs);
    } else {
      assert l in init by {
        var j :| 0 <= j < |locs| && locs[j] == l;
        assert init[j] == l;
      }
      assert Distinct(init) by {
        forall i, j | 0 <= i < j < |init|
          ensures init[i] != init[j]
        {
          assert locs[i] == init[i] && locs[j] == init[j];
        }
      }
      HeadcountUpdate(census, init, l, xs);
    }
  }

  /** Moving `a` from the cell `from` to the cell `to` keeps the island's headcount. */
  lemma MoveKeepsHeadcount(census: Census, locs: seq<Loc>, from: Loc, to: Loc, a: Animal)
    requires Distinct(locs) && from in census && to in census && from in locs && to in locs
    requires from != to && a in census[from]
    ensures Headcount(Moved(census, from, to, a), locs) == Headcount(census, locs)
  {
    var grown := census[to := census[to] + [a]];
    HeadcountUpdate(census, locs, to, census[to] + [a]);
    HeadcountUpdate(grown, locs, from, RemoveFirst(census[from], a).value);
  }

  /** Nobody leaves the island: every resident of `before` lives in some cell of `after`. */
  ghost predicate Stays(before: Census, after: Census) {
    forall l, x :: l in before && x in before[l] ==> exists m :: m in after && x in after[m]
  }

  /** Staying on the island twice is staying on it. */
  lemma StaysTrans(a: Census, b: Census, c: Census)
    requires Stays(a, b) && Stays(b, c)
    ensures Stays(a, c)
  {
  }

  /** The residents after `a` moves from `from` to `to`: appended there, then removed here. */
  function Moved(census: Census, from: Loc, to: Loc, a: Animal): (r: Census)
    requires from in census && to in census && a in census[from]
    ensures r.Keys == census.Keys
  {
    census[to := census[to] + [a]][from := RemoveFirst(census[from], a).value]
  }

  /** A census that differs from `census` only at `from` and `to`, as a move makes it, is `Moved`. */
  lemma MovedKeyed(census: Census, after: Census, from: Loc, to: Loc, a: Animal)
    requires from in census && to in census && a in census[from] && from != to
    requires after.Keys == census.Keys
    requires after[from] == RemoveFirst(census[from], a).value && after[to] == census[to] + [a]
    requires forall m :: m in census && m != from && m != to ==> after[m] == census[m]
    ensures after == Moved(census, from, to, a)
  {
    var moved := Moved(census, from, to, a);
    assert forall m :: m in after ==> after[m] == moved[m];
  }

  /** After the move `a` lives in `to` only, and every cell keeps its other residents. */
  lemma MoveSeparate(census: Census, from: Loc, to: Loc, a: Animal)
    requires Separate(census) && from in census && to in census && from != to
    requires a in census[from] && Distinct(census[from])
    ensures Separate(Moved(census, from, to, a))
    ensures a in Moved(census, from, to, a)[to] && a !in Moved(census, from, to, a)[from]
  {
    var after := Moved(census, from, to, a);
    RemoveFirstDistinct(census[from], a);
    assert forall x :: x in after[from] ==> x in census[from] && x != a;
    assert forall x :: x in after[to] ==> x in census[to] || x == a;
    forall l, m, x | l in after && m in after && l != m && x in after[l]
      ensures x !in after[m]
    {
      if x == a {
        assert l == to;
      }
    }
  }

  /** Every resident that does not migrate is still in its cell. */
  ghost predicate Kept(before: Census, after: Census, migrates: Animal -> bool) {
    forall l, x :: l in before && x in before[l] && !migrates(x) ==> l in after && x in after[l]
  }

  /** Every resident except `a` is still in its cell. */
  ghost predicate KeptBut(before: Census, after: Census, a: Animal) {
    forall l, x :: l in before && x in before[l] && x != a ==> l in after && x in after[l]
  }

  /**
   * The places after part of a migration pass: a resident of `before` that
   * has not moved (`has_migrated` unset) is still in its cell, one that has
   * moved is in a cell of `open` next to its own, and every animal that has
   * not moved lives where it lived before.
   */
  ghost predicate Placed(before: Census, now: Census, moved: set<Animal>, open: set<Loc>) {
    && now.Keys == before.Keys
    && (forall l, x :: l in before && x in before[l] ==> Lives(now, x, l, moved, open))
    && (forall m, x :: m in now && x in now[m] && x !in moved ==> x in before[m])
  }

  /** Every animal of `moved` is one that `migrates` lets move. */
  ghost predicate AllMigrate(moved: set<Animal>, migrates: Animal -> bool) {
    forall x :: x in moved ==> migrates(x)
  }

  /** A migrant joins the animals that have moved. */
  lemma AllMigrateAdd(moved: set<Animal>, migrates: Animal -> bool, a: Animal)
    requires AllMigrate(moved, migrates) && migrates(a)
    ensures AllMigrate(moved + {a}, migrates)
  {
  }

  /**
   * The animals the inner loop of `migration` sends off from a cell whose
   * resident list is `xs`: one that `migrates` and has not moved yet leaves,
   * and since it is removed from the very list being iterated, the animal
   * that followed it is passed over.
   */
  function Going(xs: seq<Animal>, moved: set<Animal>, migrates: Animal -> bool): (r: seq<Animal>)
    ensures forall x :: x in r ==> x in xs && migrates(x) && x !in moved
    decreases |xs|
  {
    if |xs| == 0 then []
    else if migrates(xs[0]) && xs[0] !in moved then
      [xs[0]] + (if |xs| < 2 then [] else Going(xs[2..], moved, migrates))
    else Going(xs[1..], moved, migrates)
  }

  /** From a list of animals that have all moved, nobody leaves. */
  lemma GoingNone(xs: seq<Animal>, moved: set<Animal>, migrates: Animal -> bool)
    requires forall x :: x in xs ==> x in moved
    ensures Going(xs, moved, migrates) == []
  {
    var r := Going(xs, moved, migrates);
    assert forall k :: 0 <= k < |r| ==> r[k] in r;
  }

  /** Animals appended after the others that have all moved already change nothing about who leaves. */
  lemma {:induction false} GoingAppend(xs: seq<Animal>, ys: seq<Animal>, moved: set<Animal>, migrates: Animal -> bool)
    requires forall y :: y in ys ==> y in moved
    ensures Going(xs + ys, moved, migrates) == Going(xs, moved, migrates)
    decreases |xs|
  {
    if |xs| == 0 {
      assert xs + ys == ys;
      GoingNone(ys, moved, migrates);
    } else if migrates(xs[0]) && xs[0] !in moved {
      if |xs| >= 2 {
        assert (xs + ys)[2..] == xs[2..] + ys;
        GoingAppend(xs[2..], ys, moved, migrates);
      } else if |ys| >= 1 {
        assert (xs + ys)[2..] == ys[1..];
        GoingNone(ys[1..], moved, migrates);
      }
    } else {
      assert (xs + ys)[1..] == xs[1..] + ys;
      GoingAppend(xs[1..], ys, moved, migrates);
    }
  }

  /** Who leaves a list does not depend on animals outside it having moved. */
  lemma {:induction false} GoingFresh(xs: seq<Animal>, moved: set<Animal>, migrates: Animal -> bool)
    requires forall x :: x in xs ==> x !in moved
    ensures Going(xs, moved, migrates) == Going(xs, {}, migrates)
    decreases |xs|
  {
    if |xs| >= 2 && migrates(xs[0]) {
      GoingFresh(xs[2..], moved, migrates);
    } else if |xs| > 0 {
      GoingFresh(xs[1..], moved, migrates);
    }
  }

  /**
   * Where the inner loop of `migration` over a cell stands: `ys` is the
   * cell's current list and `i` the loop's index into it, `xs` the list
   * the loop started with and `j` the index in `xs` of the animal at `i`,
   * `done` the animals sent off so far in order, `moved0` the animals that
   * had moved before the loop and `now` those that have moved by this
   * turn. The rest of the current list is the rest of `xs`, and the
   * animals still to go are those `Going` picks from it.
   */
  ghost predicate Sending(ys: seq<Animal>, i: nat, xs: seq<Animal>, j: nat, done: seq<Animal>,
                          moved0: set<Animal>, now: set<Animal>, migrates: Animal -> bool)
  {
    && j <= |xs|
    && Going(xs, moved0, migrates) == done + Going(xs[j..], moved0, migrates)
    && (if i <= |ys| then ys[i..] == xs[j..] else j == |xs|)
    && (forall x :: x in now ==> x in moved0 || x in done)
    && moved0 <= now && (forall x :: x in done ==> x in now)
    && (forall x :: x in ys ==> x in xs)
    && (forall x :: x in done ==> x in xs && x !in ys)
  }

  /** The loop starts with nobody sent off. */
  lemma SendingStart(xs: seq<Animal>, moved0: set<Animal>, migrates: Animal -> bool)
    ensures Sending(xs, 0, xs, 0, [], moved0, moved0, migrates)
  {
    assert xs[0..] == xs && [] + Going(xs, moved0, migrates) == Going(xs, moved0, migrates);
  }

  /** Where the pass over `xs` stands after the animal at `j` left: the one after it is passed over. */
  function AfterLeaving(xs: seq<Animal>, j: nat): nat {
    if j + 2 <= |xs| then j + 2 else |xs|
  }

  /** A turn of the loop stands at the animal `j` of `xs`. */
  lemma SendingAt(ys: seq<Animal>, i: nat, xs: seq<Animal>, j: nat, done: seq<Animal>, moved0: set<Animal>,
                  now: set<Animal>, migrates: Animal -> bool)
    requires Sending(ys, i, xs, j, done, moved0, now, migrates) && i < |ys|
    ensures j < |xs| && ys[i] == xs[j] && (ys[i] in now <==> ys[i] in moved0)
  {
    assert ys[i..][0] == ys[i] && xs[j..][0] == xs[j];
    assert ys[i] in ys;
  }

  /** A turn that passes an animal by: the index advances in the list and in `xs`. */
  lemma SendingPass(ys: seq<Animal>, i: nat, xs: seq<Animal>, j: nat, done: seq<Animal>, moved0: set<Animal>,
                    now: set<Animal>, migrates: Animal -> bool)
    requires Sending(ys, i, xs, j, done, moved0, now, migrates) && i < |ys|
    requires !(migrates(ys[i]) && ys[i] !in now)
    ensures Sending(ys, i + 1, xs, j + 1, done, moved0, now, migrates)
  {
    SendingAt(ys, i, xs, j, done, moved0, now, migrates);
    var tail := xs[j..];
    assert tail[1..] == xs[j + 1..] && ys[i..][1..] == ys[i + 1..];
    assert Going(tail, moved0, migrates) == Going(xs[j + 1..], moved0, migrates);
  }

  /**
   * A turn that sends off a migrant that has not moved: it is spliced out
   * of the list and joins `done`, and the loop's index then lands past the
   * animal that followed it.
   */
  lemma SendingLeave(ys: seq<Animal>, i: nat, xs: seq<Animal>, j: nat, done: seq<Animal>, moved0: set<Animal>,
                     now: set<Animal>, migrates: Animal -> bool)
    requires Sending(ys, i, xs, j, done, moved0, now, migrates) && i < |ys| && Distinct(ys)
    requires migrates(ys[i]) && ys[i] !in now
    ensures Sending(ys[..i] + ys[i + 1..], i + 1, xs, AfterLeaving(xs, j), done + [ys[i]], moved0, now + {ys[i]}, migrates)
  {
    SendingAt(ys, i, xs, j, done, moved0, now, migrates);
    var a := ys[i];
    var zs := ys[..i] + ys[i + 1..];
    var done', now' := done + [a], now + {a};
    var j' := AfterLeaving(xs, j);
    SendingRest(ys, i, xs, j, moved0, migrates);
    assert Going(xs, moved0, migrates) == done' + Going(xs[j'..], moved0, migrates);
    assert if i + 1 <= |zs| then zs[i + 1..] == xs[j'..] else j' == |xs|;
    SpliceMembers(ys, i);
    assert forall x :: x in zs ==> x in xs;
    assert forall x :: x in done' ==> x in xs && x !in zs;
    assert forall x :: x in now' ==> x in moved0 || x in done';
    assert j' <= |xs| && moved0 <= now' && forall x :: x in done' ==> x in now';
  }

  /** Splicing the element at `i` out of a list without duplicates leaves the others, and only them. */
  lemma SpliceMembers(ys: seq<Animal>, i: nat)
    requires i < |ys| && Distinct(ys)
    ensures forall x :: x in ys[..i] + ys[i + 1..] ==> x in ys && x != ys[i]
  {
    var zs := ys[..i] + ys[i + 1..];
    forall x | x in zs
      ensures x in ys && x != ys[i]
    {
      var k :| 0 <= k < |zs| && zs[k] == x;
      if k < i {
        assert x == ys[k];
      } else {
        assert x == ys[k + 1];
      }
    }
  }

  /** After a migrant at `j` leaves, the list past the index is `xs` past the animal that followed it. */
  lemma SendingRest(ys: seq<Animal>, i: nat, xs: seq<Animal>, j: nat, moved0: set<Animal>, migrates: Animal -> bool)
    requires i < |ys| && j < |xs| && ys[i..] == xs[j..]
    requires migrates(xs[j]) && xs[j] !in moved0
    ensures Going(xs[j..], moved0, migrates) == [xs[j]] + Going(xs[AfterLeaving(xs, j)..], moved0, migrates)
    ensures var zs := ys[..i] + ys[i + 1..];
      if i + 1 <= |zs| then zs[i + 1..] == xs[AfterLeaving(xs, j)..] else AfterLeaving(xs, j) == |xs|
  {
    var tail := xs[j..];
    if |tail| >= 2 {
      assert tail[2..] == xs[j + 2..];
      assert ys[i..][2..] == ys[i + 2..];
      assert (ys[..i] + ys[i + 1..])[i + 1..] == ys[i + 2..];
    } else {
      assert xs[AfterLeaving(xs, j)..] == [];
    }
  }

  /** Once the index has run past the list, exactly the animals `Going` picks have moved. */
  lemma SendingDone(ys: seq<Animal>, i: nat, xs: seq<Animal>, j: nat, done: seq<Animal>, moved0: set<Animal>,
                    now: set<Animal>, migrates: Animal -> bool)
    requires Sending(ys, i, xs, j, done, moved0, now, migrates) && i >= |ys|
    ensures now == moved0 + ToSet(Going(xs, moved0, migrates))
  {
    if i == |ys| {
      assert ys[i..] == [];
    }
    assert xs[j..] == [];
    assert done == Going(xs, moved0, migrates);
  }

  /**
   * The island `census` part way through the migration pass over the cell
   * at `l`, which began with `before`: nobody left the island or a cell
   * unless it migrates, everyone lives within a step of where `start` had
   * them, and the other cells only gained animals that have moved.
   */
  ghost predicate Midway(start: Census, before: Census, census: Census, l: Loc, moved: set<Animal>, open: set<Loc>,
                         migrates: Animal -> bool, order: seq<Loc>)
  {
    && Placed(start, census, moved, open)
    && before.Keys == census.Keys
    && Headcount(census, order) == Headcount(before, order)
    && Kept(before, census, migrates) && Stays(before, census)
    && forall m :: m in census && m != l ==> Grows(before[m], census[m], moved)
  }

  /** The pass over a cell starts midway with nothing changed yet. */
  lemma PlacedMidway(start: Census, before: Census, l: Loc, moved: set<Animal>, open: set<Loc>,
                     migrates: Animal -> bool, order: seq<Loc>)
    requires Placed(start, before, moved, open)
    ensures Midway(start, before, before, l, moved, open, migrates, order)
  {
  }

  /**
   * The island `census` during a migration pass that began with `before`:
   * nobody left the island or a cell unless it migrates, and everyone
   * lives within a step of where the year started.
   */
  ghost predicate Partway(before: Census, census: Census, moved: set<Animal>, open: set<Loc>,
                          migrates: Animal -> bool, order: seq<Loc>)
  {
    && Placed(before, census, moved, open)
    && Headcount(census, order) == Headcount(before, order)
    && Kept(before, census, migrates) && Stays(before, census)
  }

  /**
   * The pass has visited the first `k` cells of `order`: exactly the
   * `Leavers` of those have moved, and every cell not visited yet is
   * `Ahead`.
   */
  ghost predicate PassedOver(before: Census, census: Census, moved: set<Animal>, order: seq<Loc>, k: nat,
                          enterable: set<Loc>, migrates: Animal -> bool)
  {
    && k <= |order|
    && moved == Leavers(before, order[..k], enterable, migrates)
    && (forall j :: 0 <= j < |order| ==> order[j] in before && order[j] in census)
    && forall j :: k <= j < |order| ==> Ahead(before[order[j]], census[order[j]], moved)
  }

  /** A cell's turn that keeps the pass `Partway` extends it. */
  lemma PartwayStep(before: Census, census: Census, after: Census, moved: set<Animal>, moved': set<Animal>,
                    open: set<Loc>, migrates: Animal -> bool, order: seq<Loc>)
    requires Partway(before, census, moved, open, migrates, order)
    requires Placed(before, after, moved', open)
    requires Headcount(after, order) == Headcount(census, order)
    requires Kept(census, after, migrates) && Stays(census, after)
    ensures Partway(before, after, moved', open, migrates, order)
  {
    KeptTrans(before, census, after, migrates);
    StaysTrans(before, census, after);
  }

  /** Passing over a cell nobody may enter moves nobody. */
  lemma PassedSkip(before: Census, census: Census, moved: set<Animal>, order: seq<Loc>, k: nat,
                   enterable: set<Loc>, migrates: Animal -> bool)
    requires k < |order| && order[k] !in enterable
    requires PassedOver(before, census, moved, order, k, enterable, migrates)
    ensures PassedOver(before, census, moved, order, k + 1, enterable, migrates)
  {
    assert order[..k + 1][..k] == order[..k];
  }

  /** After the `k`-th cell sent off its `Going` migrants, the pass has reached the next cell. */
  lemma PassedStep(before: Census, census: Census, after: Census, order: seq<Loc>, k: nat, enterable: set<Loc>,
                   migrates: Animal -> bool, moved: set<Animal>, moved': set<Animal>)
    requires k < |order| && Distinct(order) && Separate(before) && after.Keys == census.Keys
    requires PassedOver(before, census, moved, order, k, enterable, migrates)
    requires order[k] in enterable
    requires moved' == moved + ToSet(Going(census[order[k]], moved, migrates))
    requires forall x :: x in moved' ==> x in moved || x in census[order[k]]
    requires forall m :: m in census && m != order[k] ==> Grows(census[m], after[m], moved')
    ensures PassedOver(before, after, moved', order, k + 1, enterable, migrates)
  {
    LeaversStep(before, census, after, order, k, enterable, migrates, moved, moved');
  }

  /** A pass starts with nothing visited and nobody moved. */
  lemma PartwayStart(before: Census, order: seq<Loc>, enterable: set<Loc>, open: set<Loc>, migrates: Animal -> bool)
    requires Placed(before, before, {}, open)
    requires forall j :: 0 <= j < |order| ==> order[j] in before
    ensures Partway(before, before, {}, open, migrates, order)
    ensures PassedOver(before, before, {}, order, 0, enterable, migrates)
  {
    assert order[..0] == [];
  }

  /** `ys` is `xs` with only animals of `moved` appended. */
  predicate Grows(xs: seq<Animal>, ys: seq<Animal>, moved: set<Animal>) {
    xs <= ys && forall n :: |xs| <= n < |ys| ==> ys[n] in moved
  }

  /** A list that only grew holds its old animals and animals of `moved`. */
  lemma GrowsMembers(xs: seq<Animal>, ys: seq<Animal>, moved: set<Animal>)
    requires Grows(xs, ys, moved)
    ensures forall y :: y in ys ==> y in xs || y in moved
  {
    forall y | y in ys
      ensures y in xs || y in moved
    {
      var n :| 0 <= n < |ys| && ys[n] == y;
      if n < |xs| {
        assert xs[n] == y;
      }
    }
  }

  /** Growing twice is growing. */
  lemma GrowsTrans(xs: seq<Animal>, ys: seq<Animal>, zs: seq<Animal>, moved: set<Animal>, moved': set<Animal>)
    requires Grows(xs, ys, moved) && Grows(ys, zs, moved') && moved <= moved'
    ensures Grows(xs, zs, moved')
  {
  }

  /**
   * A cell the pass has not reached yet: its residents of the year's
   * start `xs` are all still there, none of them has moved, and only
   * animals that have moved joined them.
   */
  predicate Ahead(xs: seq<Animal>, ys: seq<Animal>, moved: set<Animal>) {
    Grows(xs, ys, moved) && forall x :: x in xs ==> x !in moved
  }

  /**
   * The animals a migration pass sends off from the cells `ls`, visited in
   * order: from each cell of `open`, those `Going` picks from the residents
   * it had at the start of the year.
   */
  function Leavers(start: Census, ls: seq<Loc>, open: set<Loc>, migrates: Animal -> bool): set<Animal>
  {
    if |ls| == 0 then {}
    else
      var l := ls[|ls| - 1];
      Leavers(start, ls[..|ls| - 1], open, migrates) +
        (if l in open && l in start then ToSet(Going(start[l], {}, migrates)) else {})
  }

  /**
   * One passable cell of the pass: the animals that left it are those
   * `Going` picks from its residents of the year's start, since the animals
   * that joined it earlier in the pass have all moved; the cells not reached
   * yet keep their residents and none of them has moved.
   */
  lemma LeaversStep(before: Census, census: Census, after: Census, order: seq<Loc>, k: nat, open: set<Loc>,
                    migrates: Animal -> bool, moved: set<Animal>, moved': set<Animal>)
    requires k < |order| && Distinct(order) && Separate(before)
    requires forall j :: 0 <= j < |order| ==> order[j] in before && order[j] in census && order[j] in after
    requires moved == Leavers(before, order[..k], open, migrates)
    requires forall j :: k <= j < |order| ==> Ahead(before[order[j]], census[order[j]], moved)
    requires order[k] in open
    requires moved' == moved + ToSet(Going(census[order[k]], moved, migrates))
    requires forall x :: x in moved' ==> x in moved || x in census[order[k]]
    requires forall m :: m in census && m != order[k] ==> m in after && Grows(census[m], after[m], moved')
    ensures moved' == Leavers(before, order[..k + 1], open, migrates)
    ensures forall j :: k < j < |order| ==> Ahead(before[order[j]], after[order[j]], moved')
  {
    assert Ahead(before[order[k]], census[order[k]], moved);
    LeaversNext(before, census, order, k, open, migrates, moved, moved');
    AheadNext(before, census, after, order, k, moved, moved');
  }

  /** The animals leaving the `k`-th cell, whose list is its start list followed by moved animals, are its start list's `Going`. */
  lemma LeaversNext(before: Census, census: Census, order: seq<Loc>, k: nat, open: set<Loc>,
                    migrates: Animal -> bool, moved: set<Animal>, moved': set<Animal>)
    requires k < |order| && order[k] in before && order[k] in census && order[k] in open
    requires moved == Leavers(before, order[..k], open, migrates)
    requires Ahead(before[order[k]], census[order[k]], moved)
    requires moved' == moved + ToSet(Going(census[order[k]], moved, migrates))
    ensures moved' == Leavers(before, order[..k + 1], open, migrates)
  {
    var xs, ys := before[order[k]], census[order[k]];
    assert ys == xs + ys[|xs|..];
    GoingAppend(xs, ys[|xs|..], moved, migrates);
    GoingFresh(xs, moved, migrates);
    assert order[..k + 1][..k] == order[..k];
  }

  /** The cells after the `k`-th keep their start residents ahead of the animals that have moved. */
  lemma AheadNext(before: Census, census: Census, after: Census, order: seq<Loc>, k: nat,
                  moved: set<Animal>, moved': set<Animal>)
    requires k < |order| && Distinct(order) && Separate(before) && moved <= moved'
    requires forall j :: 0 <= j < |order| ==> order[j] in before && order[j] in census && order[j] in after
    requires forall j :: k <= j < |order| ==> Ahead(before[order[j]], census[order[j]], moved)
    requires forall x :: x in moved' ==> x in moved || x in census[order[k]]
    requires forall m :: m in census && m != order[k] ==> m in after && Grows(census[m], after[m], moved')
    ensures forall j :: k < j < |order| ==> Ahead(before[order[j]], after[order[j]], moved')
  {
    var l := order[k];
    assert Ahead(before[l], census[l], moved);
    GrowsMembers(before[l], census[l], moved);
    forall j | k < j < |order|
      ensures Ahead(before[order[j]], after[order[j]], moved')
    {
      var m := order[j];
      assert m != l;
      assert Ahead(before[m], census[m], moved);
      GrowsTrans(before[m], census[m], after[m], moved, moved');
      forall x | x in before[m]
        ensures x !in moved'
      {
        assert x !in before[l] && x !in moved;
      }
    }
  }

  /** A move out of `from` only appends, to the other cells, the animal that moved. */
  lemma MovedGrows(before: Census, census: Census, from: Loc, to: Loc, a: Animal, moved: set<Animal>)
    requires from in census && to in census && a in census[from] && from != to
    requires forall m :: m in census && m != from ==> m in before && Grows(before[m], census[m], moved)
    ensures forall m :: m in census && m != from ==>
      Grows(before[m], Moved(census, from, to, a)[m], moved + {a})
  {
    var after := Moved(census, from, to, a);
    forall m | m in census && m != from
      ensures Grows(before[m], after[m], moved + {a})
    {
      if m == to {
        assert after[m] == census[m] + [a];
      }
    }
  }

  /** `x`, from the cell at `l`, lives in `l` or, once moved, in an adjacent cell of `open`. */
  ghost predicate Lives(now: Census, x: Animal, l: Loc, moved: set<Animal>, open: set<Loc>) {
    exists m :: m in now && x in now[m] && Near(l, m, x in moved, open)
  }

  /** Where an animal from `l` may be: `l` itself, or an adjacent cell of `open` once it has moved. */
  predicate Near(l: Loc, m: Loc, hasMoved: bool, open: set<Loc>) {
    if hasMoved then Adjacent(l, m) && m in open else m == l
  }

  /** At the start of the pass nobody has moved. */
  lemma PlacedStart(before: Census, open: set<Loc>)
    ensures Placed(before, before, {}, open)
  {
    forall l, x | l in before && x in before[l]
      ensures Lives(before, x, l, {}, open)
    {
      assert Near(l, l, false, open);
    }
  }

  /**
   * Moving `a`, which has not moved yet, from its cell to an adjacent open
   * cell keeps every animal within one step of home.
   */
  lemma PlacedMove(before: Census, now: Census, moved: set<Animal>, open: set<Loc>, from: Loc, to: Loc, a: Animal)
    requires Placed(before, now, moved, open) && Separate(before)
    requires from in now && to in now && from != to && a in now[from] && a !in moved
    requires Adjacent(from, to) && to in open && Distinct(now[from])
    ensures Placed(before, Moved(now, from, to, a), moved + {a}, open)
  {
    var after := Moved(now, from, to, a);
    MovedMembers(now, from, to, a);
    assert a in before[from];
    forall l, x | l in before && x in before[l]
      ensures Lives(after, x, l, moved + {a}, open)
    {
      if x == a {
        assert l == from;
        assert to in after && a in after[to] && Near(l, to, true, open);
      } else {
        assert Lives(now, x, l, moved, open);
        var m :| m in now && x in now[m] && Near(l, m, x in moved, open);
        assert m in after && x in after[m] && (x in moved + {a}) == (x in moved);
      }
    }
    forall m, x | m in after && x in after[m] && x !in moved + {a}
      ensures x in before[m]
    {
      assert x in now[m];
    }
  }

  /** A move changes the whereabouts of the moved animal only. */
  lemma MovedMembers(now: Census, from: Loc, to: Loc, a: Animal)
    requires from in now && to in now && from != to && a in now[from] && Distinct(now[from])
    ensures a in Moved(now, from, to, a)[to]
    ensures forall m, x :: m in now && x != a ==> (x in Moved(now, from, to, a)[m] <==> x in now[m])
  {
    var after := Moved(now, from, to, a);
    RemoveFirstDistinct(now[from], a);
    assert forall x :: x in after[from] ==> x in now[from] && x != a;
    assert forall x :: x in now[from] && x != a ==> x in after[from];
    assert forall x :: x in after[to] <==> x in now[to] || x == a;
  }

  /** When only a migrant may have left its cell, every resident that does not migrate stayed. */
  lemma KeptButMigrant(before: Census, after: Census, a: Animal, migrates: Animal -> bool)
    requires KeptBut(before, after, a) && migrates(a)
    ensures Kept(before, after, migrates)
  {
  }

  /** Staying put twice is staying put. */
  lemma KeptTrans(a: Census, b: Census, c: Census, migrates: Animal -> bool)
    requires Kept(a, b, migrates) && Kept(b, c, migrates)
    ensures Kept(a, c, migrates)
  {
  }

  /** Only a migrant leaves its cell, and it arrives in another. */
  lemma MoveKept(census: Census, from: Loc, to: Loc, a: Animal)
    requires from in census && to in census && from != to && a in census[from]
    requires Distinct(census[from])
    ensures KeptBut(census, Moved(census, from, to, a), a)
    ensures Stays(census, Moved(census, from, to, a))
  {
    var after := Moved(census, from, to, a);
    MovedMembers(census, from, to, a);
    forall l, x | l in census && x in census[l]
      ensures exists m :: m in after && x in after[m]
    {
      if x == a {
        assert to in after && a in after[to];
      } else {
        assert l in after && x in after[l];
      }
    }
  }

  /** `a` joins the residents of `c`, which keeps it a member cell. */
  method Arrive(a: Animal, c: Cell, cls: Classes)
    requires MemberCell(c, cls) && a !in c.animals
    requires a.params == c.herbivores || a.params == c.carnivores
    modifies c`animals
    ensures c.animals == old(c.animals) + [a] && MemberCell(c, cls)
  {
    c.animals := c.animals + [a];
    assert c.animals[|c.animals| - 1] == a;
  }

  /** The first `a` leaves the residents of `c`, which keeps it a member cell. */
  method Leave(a: Animal, c: Cell, cls: Classes)
    requires MemberCell(c, cls) && a in c.animals
    modifies c`animals
    ensures c.animals == RemoveFirst(old(c.animals), a).value && MemberCell(c, cls)
  {
    RemoveFirstDistinct(c.animals, a);
    var stay := RemoveFirst(c.animals, a).value;
    forall k | 0 <= k < |stay|
      ensures stay[k].params == c.herbivores || stay[k].params == c.carnivores
    {
      assert stay[k] in c.animals;
    }
    c.animals := stay;
  }

  // ---------------------------------------------------------------------
  // add_population, procreation
  // ---------------------------------------------------------------------

  /** One dictionary of the population list: its `'loc'` and its `'pop'`. */
  datatype Placement = Placement(loc: Loc, pop: seq<PopEntry>)

  /** The position of the first placement that raises, or `|ps|`: an unknown location or an entry the constructor rejects. */
  function FirstFailingPlacement(ps: seq<Placement>, keys: set<Loc>): (k: nat)
    ensures k <= |ps|
  {
    if |ps| == 0 then 0
    else if ps[0].loc !in keys || AddOutcome(ps[0].pop).Fail? then 0
    else 1 + FirstFailingPlacement(ps[1..], keys)
  }

  /** Every placement before the first failing one passes, and that one raises. */
  lemma {:induction false} FirstFailingPlacementIs(ps: seq<Placement>, keys: set<Loc>)
    ensures forall j :: 0 <= j < FirstFailingPlacement(ps, keys) ==> ps[j].loc in keys && AddOutcome(ps[j].pop).Pass?
    ensures FirstFailingPlacement(ps, keys) < |ps| ==>
      ps[FirstFailingPlacement(ps, keys)].loc !in keys || AddOutcome(ps[FirstFailingPlacement(ps, keys)].pop).Fail?
  {
    if |ps| > 0 && ps[0].loc in keys && AddOutcome(ps[0].pop).Pass? {
      FirstFailingPlacementIs(ps[1..], keys);
    }
  }

  /** What `add_population(population)` raises on a map with the locations `keys`, if anything. */
  function PlacementOutcome(ps: seq<Placement>, keys: set<Loc>): Outcome<Error> {
    var k := FirstFailingPlacement(ps, keys);
    if k == |ps| then Pass
    else if ps[k].loc !in keys then Fail(KeyError)
    else AddOutcome(ps[k].pop)
  }

  /**
   * The population list is added without an error exactly when every
   * location is on the map and every animal entry has a non-negative age
   * and weight; otherwise a `KeyError` or the constructor's `ValueError`
   * is raised.
   */
  lemma PlacementOutcomeMeaning(ps: seq<Placement>, keys: set<Loc>)
    ensures PlacementOutcome(ps, keys).Pass? <==>
      forall j :: 0 <= j < |ps| ==> ps[j].loc in keys && forall i :: 0 <= i < |ps[j].pop| ==> EntryError(ps[j].pop[i]).None?
    ensures PlacementOutcome(ps, keys).Fail? ==>
      PlacementOutcome(ps, keys).error == KeyError || PlacementOutcome(ps, keys).error.ValueError?
  {
    var k := FirstFailingPlacement(ps, keys);
    FirstFailingPlacementIs(ps, keys);
    forall j | 0 <= j < |ps| && ps[j].loc in keys
      ensures AddOutcome(ps[j].pop).Pass? <==> forall i :: 0 <= i < |ps[j].pop| ==> EntryError(ps[j].pop[i]).None?
    {
      AddOutcomeMeaning(ps[j].pop);
    }
    if k < |ps| && ps[k].loc in keys {
      AddOutcomeMeaning(ps[k].pop);
    }
  }

  /** A census that differs from `census` at most at `l`, where it holds `xs`, is `census[l := xs]`. */
  lemma AddedKeyed(census: Census, after: Census, l: Loc, xs: seq<Animal>)
    requires l in census && after.Keys == census.Keys && after[l] == xs
    requires forall m :: m in census && m != l ==> after[m] == census[m]
    ensures after == census[l := xs]
  {
  }

  /** A second update at a coordinate overrides the first. */
  lemma UpdatedTwice(census: Census, l: Loc, xs: seq<Animal>, ys: seq<Animal>)
    ensures census[l := xs][l := ys] == census[l := ys]
  {
  }

  /** Two censuses over the same coordinates that agree at each of them are one census. */
  lemma SameKeyed(census: Census, after: Census)
    requires after.Keys == census.Keys
    requires forall m :: m in census ==> after[m] == census[m]
    ensures after == census
  {
  }

  /** Appending animals found in no other cell keeps the cells separate. */
  lemma AddSeparate(census: Census, l: Loc, xs: seq<Animal>)
    requires Separate(census) && l in census && census[l] <= xs
    requires forall m, x :: m in census && m != l && x in census[m] ==> x !in xs[|census[l]|..]
    ensures Separate(census[l := xs])
  {
    var after := census[l := xs];
    var added := xs[|census[l]|..];
    forall x | x in xs
      ensures x in census[l] || x in added
    {
      var i :| 0 <= i < |xs| && xs[i] == x;
      if i < |census[l]| {
        assert x == census[l][i];
      } else {
        assert x == added[i - |census[l]|];
      }
    }
  }

  /** Every cell kept its earlier residents as the start of its list. */
  predicate Grown(before: Census, after: Census) {
    && after.Keys == before.Keys
    && forall m :: m in before ==> before[m] <= after[m]
  }

  /** The cells that none of the first `n` placements names kept their residents. */
  predicate Untouched(before: Census, after: Census, ps: seq<Placement>, n: nat)
    requires n <= |ps|
  {
    forall m :: m in before && m in after && (forall i :: 0 <= i < n ==> ps[i].loc != m) ==> after[m] == before[m]
  }

  /** A cell no placement among more names is one none among fewer names. */
  lemma UntouchedWider(before: Census, after: Census, ps: seq<Placement>, j: nat, n: nat)
    requires j <= n <= |ps| && Untouched(before, after, ps, j)
    ensures Untouched(before, after, ps, n)
  {
  }

  /**
   * After placement `j` the census `after` differs from `census` at most
   * in the named cell, whose list grew: both properties now hold for
   * `j + 1` placements.
   */
  lemma PlacedStep(ps: seq<Placement>, j: nat, before: Census, census: Census, after: Census)
    requires j < |ps| && Grown(before, census) && Untouched(before, census, ps, j)
    requires ps[j].loc !in census ==> after == census
    requires ps[j].loc in census ==>
      ps[j].loc in after && after == census[ps[j].loc := after[ps[j].loc]] && census[ps[j].loc] <= after[ps[j].loc]
    ensures Grown(before, after) && Untouched(before, after, ps, j + 1)
  {
    var l := ps[j].loc;
    if l in census {
      var prefix := before[l];
      assert prefix == after[l][..|prefix|] by {
        assert prefix == census[l][..|prefix|];
        assert census[l] == after[l][..|census[l]|];
      }
    }
  }

  /** A passing placement adds the animals its list builds to the headcount. */
  lemma PlacedCount(ps: seq<Placement>, j: nat, before: Census, census: Census, xs: seq<Animal>, order: seq<Loc>)
    requires j < |ps| && Distinct(order) && ps[j].loc in order && ps[j].loc in census
    requires |xs| == |census[ps[j].loc]| + |Described(ps[j].pop)|
    requires Headcount(census, order) == Headcount(before, order) + Newcomers(ps[..j])
    ensures Headcount(census[ps[j].loc := xs], order) == Headcount(before, order) + Newcomers(ps[..j + 1])
  {
    assert ps[..j + 1][..j] == ps[..j];
    HeadcountUpdate(census, order, ps[j].loc, xs);
  }



  /** Below the first failing placement, placement `j` either passes or is the one that raises. */
  lemma PlacementAt(ps: seq<Placement>, keys: set<Loc>, j: nat)
    requires j < |ps| && j <= FirstFailingPlacement(ps, keys)
    ensures ps[j].loc in keys && AddOutcome(ps[j].pop).Pass? ==> j < FirstFailingPlacement(ps, keys)
    ensures ps[j].loc !in keys ==> PlacementOutcome(ps, keys) == Fail(KeyError)
    ensures ps[j].loc in keys && AddOutcome(ps[j].pop).Fail? ==> PlacementOutcome(ps, keys) == AddOutcome(ps[j].pop)
  {
    FirstFailingPlacementIs(ps, keys);
  }

  /**
   * `after` is `before` with some lists extended, each by at most its own
   * length: one newborn per resident. Only the cells in `touched` changed.
   */
  predicate Bred(before: Census, after: Census, touched: set<Loc>) {
    && after.Keys == before.Keys
    && (forall m :: m in before ==> before[m] <= after[m] && |after[m]| <= 2 * |before[m]|)
    && forall m :: m in before && m !in touched ==> after[m] == before[m]
  }

  /** Breeding in one more cell, not touched before, keeps the bound. */
  lemma BredStep(before: Census, census: Census, after: Census, touched: set<Loc>, l: Loc)
    requires Bred(before, census, touched) && l !in touched && l in census
    requires l in after && after == census[l := after[l]]
    requires census[l] <= after[l] && |after[l]| <= 2 * |census[l]|
    ensures Bred(before, after, touched + {l})
  {
    assert census[l] == before[l];
  }

  /** Allowing more cells to change keeps the bound. */
  lemma BredWider(before: Census, after: Census, touched: set<Loc>, wider: set<Loc>)
    requires Bred(before, after, touched) && touched <= wider
    ensures Bred(before, after, wider)
  {
  }

  /** `ys` is `xs` followed by animals whose statuses are `added`, in order. */
  ghost predicate Appended(xs: seq<Animal>, ys: seq<Animal>, added: seq<(Species, int, real)>)
    reads set k | 0 <= k < |ys| :: ys[k]
  {
    && xs <= ys && |ys| == |xs| + |added|
    && forall k :: |xs| <= k < |ys| ==> Status(ys[k]) == added[k - |xs|]
  }

  /** A list that `add_population` adds without an error is added whole. */
  lemma PassingWhole(pop: seq<PopEntry>)
    ensures AddOutcome(pop).Pass? ==> pop[..FirstFailing(pop)] == pop
  {
  }

  /** How many placements `add_population(population)` gets to: all of them, or up to and including the one that raises. */
  function Processed(ps: seq<Placement>, keys: set<Loc>): (n: nat)
    ensures n <= |ps|
    ensures FirstFailingPlacement(ps, keys) < |ps| ==> n == FirstFailingPlacement(ps, keys) + 1
    ensures FirstFailingPlacement(ps, keys) == |ps| ==> n == |ps|
  {
    var k := FirstFailingPlacement(ps, keys);
    if k < |ps| then k + 1 else k
  }

  /**
   * The statuses the placements `ps` append at `l`, in order: for each
   * placement naming `l`, the animals its list builds up to the first
   * entry the constructor rejects.
   */
  function Arrivals(ps: seq<Placement>, l: Loc): seq<(Species, int, real)> {
    if |ps| == 0 then []
    else
      var p := ps[|ps| - 1];
      Arrivals(ps[..|ps| - 1], l) + (if p.loc == l then Described(p.pop[..FirstFailing(p.pop)]) else [])
  }

  /**
   * The list `ys` holds the list `xs` followed by animals, each in `born`
   * and recorded in `st` with the statuses `arr`, in order.
   */
  ghost predicate Holds(xs: seq<Animal>, ys: seq<Animal>, arr: seq<(Species, int, real)>, born: set<Animal>,
                        st: map<Animal, (Species, int, real)>)
  {
    && |ys| == |xs| + |arr|
    && forall k :: |xs| <= k < |ys| ==> ys[k] in born && ys[k] in st && st[ys[k]] == arr[k - |xs|]
  }

  /** Every animal `st` records has the status recorded. */
  ghost predicate Current(st: map<Animal, (Species, int, real)>)
    reads st.Keys
  {
    forall x :: x in st ==> Status(x) == st[x]
  }

  /**
   * The state of `add_population` after `j` placements from `before`:
   * every list grew, holds `Arrivals` after its old residents, and every
   * animal it gained is in `born`.
   */
  ghost predicate Placing(before: Census, after: Census, ps: seq<Placement>, j: nat, born: set<Animal>,
                          st: map<Animal, (Species, int, real)>)
  {
    && j <= |ps| && Grown(before, after)
    && forall l :: l in before && l in after ==> Holds(before[l], after[l], Arrivals(ps[..j], l), born, st)
  }

  /** The animals `ys` holds after its prefix `xs`. */
  ghost function Joined(xs: seq<Animal>, ys: seq<Animal>): set<Animal> {
    set k | |xs| <= k < |ys| :: ys[k]
  }

  /** `st` with the current status of each animal of `xs` recorded as well. */
  ghost function Recording(st: map<Animal, (Species, int, real)>, xs: set<Animal>): map<Animal, (Species, int, real)>
    reads xs
  {
    st + map x | x in xs :: Status(x)
  }

  /**
   * The animals appended after `xs`, none of which `st` records, are
   * recorded with their statuses `added`; what `st` recorded stays, and
   * the record stays current.
   */
  lemma NewcomersRecorded(xs: seq<Animal>, ys: seq<Animal>, added: seq<(Species, int, real)>,
                          st: map<Animal, (Species, int, real)>)
    requires Appended(xs, ys, added) && Current(st)
    requires forall k :: |xs| <= k < |ys| ==> ys[k] !in st
    ensures Current(Recording(st, Joined(xs, ys)))
    ensures forall x :: x in st ==> x in Recording(st, Joined(xs, ys)) && Recording(st, Joined(xs, ys))[x] == st[x]
    ensures forall k :: |xs| <= k < |ys| ==>
      var x := ys[k];
      x in Joined(xs, ys) && x in Recording(st, Joined(xs, ys)) && Recording(st, Joined(xs, ys))[x] == added[k - |xs|]
  {
    var news := Joined(xs, ys);
    var st' := Recording(st, news);
    forall k | |xs| <= k < |ys|
      ensures ys[k] in news && ys[k] in st' && st'[ys[k]] == added[k - |xs|]
    {
      assert ys[k] in news;
    }
    forall x | x in st
      ensures x in st' && st'[x] == st[x]
    {
      assert x !in news;
    }
  }

  /** After `Placing`, every animal a list gained is in `born` and has the status `Arrivals` gives it. */
  lemma PlacedStatuses(before: Census, after: Census, ps: seq<Placement>, n: nat, born: set<Animal>,
                       st: map<Animal, (Species, int, real)>)
    requires Placing(before, after, ps, n, born, st) && Current(st)
    ensures forall l :: l in before ==> |after[l]| == |before[l]| + |Arrivals(ps[..n], l)|
    ensures forall l, k :: l in before && |before[l]| <= k < |after[l]| ==>
      after[l][k] in born && Status(after[l][k]) == Arrivals(ps[..n], l)[k - |before[l]|]
  {
    forall l, k | l in before && |before[l]| <= k < |after[l]|
      ensures Status(after[l][k]) == Arrivals(ps[..n], l)[k - |before[l]|]
    {
      assert Holds(before[l], after[l], Arrivals(ps[..n], l), born, st);
      var x := after[l][k];
      assert x in st && st[x] == Arrivals(ps[..n], l)[k - |before[l]|];
    }
  }

  /**
   * The placement `p` took the census `census` to `after`: an unknown
   * location changed nothing; otherwise only its cell changed, gaining
   * after its old residents the animals its list builds, each in `born`
   * and recorded in `st` with its status.
   */
  ghost predicate Entered(census: Census, after: Census, p: Placement, born: set<Animal>,
                          st: map<Animal, (Species, int, real)>)
  {
    if p.loc !in census then after == census
    else
      var l, added := p.loc, Described(p.pop[..FirstFailing(p.pop)]);
      && l in after && after == census[l := after[l]] && census[l] <= after[l]
      && Holds(census[l], after[l], added, born, st)
  }

  /**
   * A list `ys` holding after `xs` animals recorded with the statuses
   * `arr`, then extended to `zs` by animals recorded with `added`, holds
   * after `xs` animals recorded with `arr + added`.
   */
  lemma ArrivalsExtend(xs: seq<Animal>, ys: seq<Animal>, zs: seq<Animal>, arr: seq<(Species, int, real)>,
                       added: seq<(Species, int, real)>, born: set<Animal>, born': set<Animal>,
                       st: map<Animal, (Species, int, real)>, st': map<Animal, (Species, int, real)>)
    requires Holds(xs, ys, arr, born, st) && ys <= zs && Holds(ys, zs, added, born', st')
    requires born <= born' && forall x :: x in st ==> x in st' && st'[x] == st[x]
    ensures Holds(xs, zs, arr + added, born', st')
  {
    forall k | |xs| <= k < |zs|
      ensures zs[k] in born' && zs[k] in st' && st'[zs[k]] == (arr + added)[k - |xs|]
    {
      if k < |ys| {
        assert zs[k] == ys[k];
      }
    }
  }

  /**
   * Placement `j`, which appended at its location, if that is a cell, the
   * animals `st'` records with the statuses its list builds, extends
   * `Placing` to `j + 1` placements; the new animals join `born`.
   */
  lemma PlacingStep(ps: seq<Placement>, j: nat, before: Census, census: Census, after: Census,
                    born: set<Animal>, born': set<Animal>, st: map<Animal, (Species, int, real)>,
                    st': map<Animal, (Species, int, real)>)
    requires j < |ps| && Placing(before, census, ps, j, born, st) && Untouched(before, census, ps, j)
    requires born <= born' && forall x :: x in st ==> x in st' && st'[x] == st[x]
    requires Entered(census, after, ps[j], born', st')
    ensures Placing(before, after, ps, j + 1, born', st') && Untouched(before, after, ps, j + 1)
  {
    assert ps[..j + 1][..j] == ps[..j];
    var loc := ps[j].loc;
    assert after.Keys == census.Keys;
    forall l | l in before && l in after
      ensures Holds(before[l], after[l], Arrivals(ps[..j + 1], l), born', st')
    {
      var arr := Arrivals(ps[..j], l);
      assert l in census && Holds(before[l], census[l], arr, born, st);
      if l != loc {
        assert Arrivals(ps[..j + 1], l) == arr + [];
        assert after[l] == census[l];
        ArrivalsExtend(before[l], census[l], census[l], arr, [], born, born', st, st');
      } else {
        var added := Described(ps[j].pop[..FirstFailing(ps[j].pop)]);
        assert Arrivals(ps[..j + 1], l) == arr + added;
        ArrivalsExtend(before[l], census[l], after[l], arr, added, born, born', st, st');
      }
    }
    PlacedStep(ps, j, before, census, after);
  }

  /**
   * The state of `add_population` after `j` placements that all passed:
   * `Placing`, the cells none of them names unchanged, and the headcount
   * grown by the animals their lists build.
   */
  ghost predicate Progressed(before: Census, now: Census, ps: seq<Placement>, j: nat, born: set<Animal>,
                             st: map<Animal, (Species, int, real)>, order: seq<Loc>)
  {
    && Placing(before, now, ps, j, born, st) && Untouched(before, now, ps, j)
    && Headcount(now, order) == Headcount(before, order) + Newcomers(ps[..j])
  }

  /** The number of animals the population list builds, placement by placement. */
  function Newcomers(ps: seq<Placement>): nat {
    if |ps| == 0 then 0 else Newcomers(ps[..|ps| - 1]) + |Described(ps[|ps| - 1].pop)|
  }
  /**
   * The draws of `np.random.normal` behind `draw_birth_weight`, one stream
   * per mother, named by her cell and her place among its residents: each
   * stream holds a positive value, so the loop ends.
   */
  ghost predicate PositiveDraws(draws: (Loc, nat) -> nat -> real) {
    forall l, k :: exists i: nat :: draws(l, k)(i) > 0.0
  }

  /** `add_offspring` as written: `draw_birth_weight` is a property, so calling its value raises. */
  const NotCallableMessage := "'float' object is not callable"

  /**
   * The draw `prob_procreation` makes for `a` in the cell `c`: `n` is the
   * cell's current number of animals of `a`'s own species.
   */
  function Births(c: Cell, a: Animal, curve: Curve, u: real): (r: Result<nat, Error>)
    reads c, a, a.params
    ensures a.weight < a.params.table.zeta * (a.params.table.wBirth + a.params.table.sigmaBirth) ==> r == Success(0)
    ensures r.Success? ==> r.value <= 1
    ensures r.Failure? ==> r.error.ValueError?
  {
    a.ProbProcreation(if a.params.species == Herbivore then c.TotalHerbivores() else c.TotalCarnivores(), curve, u)
  }

  /** A resident of the cell is counted among its species, so the draw is defined whenever `gamma` is not negative. */
  lemma BirthsDefined(c: Cell, a: Animal, curve: Curve, u: real)
    requires a in c.animals && a.params.table.gamma >= 0.0 && UnitCurve(curve)
    ensures Births(c, a, curve, u).Success?
  {
    var s := a.params.species;
    var k :| 0 <= k < |c.animals| && c.animals[k] == a;
    ResidentsComplete(c.animals, s, k);
    assert |Residents(c.animals, s)| >= 1;
  }

  /** The animal that a spared-by-the-test resident would have been: every truthy test removes it. */
  lemma DeathKillsTheSpared(xs: seq<Animal>, test: Animal -> bool, a: Animal)
    requires a in xs && !test(a)
    ensures a in Survivors(xs, test)
    ensures a !in Survivors(xs, BoundMethodTest)
  {
    NoSurvivors(xs);
  }

  /** How many of the statuses `ts` are of species `s`. */
  function Kin(ts: seq<(Species, int, real)>, s: Species): nat {
    if |ts| == 0 then 0 else Kin(ts[..|ts| - 1], s) + (if ts[|ts| - 1].0 == s then 1 else 0)
  }

  /** Animals whose species follow the statuses `ts` number as many of a species as `ts` holds. */
  lemma {:induction false} ResidentsAreKin(xs: seq<Animal>, ts: seq<(Species, int, real)>, s: Species)
    requires |xs| == |ts| && forall k :: 0 <= k < |xs| ==> xs[k].params.species == ts[k].0
    ensures |Residents(xs, s)| == Kin(ts, s)
  {
    if |xs| > 0 {
      var n := |xs| - 1;
      var ys := xs[..n];
      ResidentsAreKin(ys, ts[..n], s);
      ResidentsAppend(ys, [xs[n]], s);
      assert ys + [xs[n]] == xs;
    }
  }

  /**
   * The newborns of one cell's procreation pass, as statuses: for each
   * mother `herd[j]` whose entry `births[j]` is positive, an animal of her
   * species, age 0 and weight `births[j]`, in the mothers' order.
   */
  function Litter(herd: seq<Animal>, births: seq<real>): (r: seq<(Species, int, real)>)
    requires |births| <= |herd|
    ensures |r| <= |births|
  {
    if |births| == 0 then []
    else
      var j := |births| - 1;
      Litter(herd, births[..j]) + (if births[j] > 0.0 then [(herd[j].params.species, 0, births[j])] else [])
  }

  /**
   * The number of animals of `herd[j]`'s species in the cell when `herd[j]`
   * draws: the residents, and the newborns of the mothers before it.
   */
  function Count(herd: seq<Animal>, births: seq<real>, j: nat): nat
    requires j < |herd| && j <= |births|
  {
    var s := herd[j].params.species;
    |Residents(herd, s)| + Kin(Litter(herd, births[..j]), s)
  }

  /** What the procreation pass reads of a resident: its class's attributes, its age and its weight. */
  datatype Snapshot = Snapshot(table: AnimalParams, age: int, weight: real)

  /** The snapshot of `x` as it is now. */
  function Snap(x: Animal): (r: Snapshot)
    reads x, x.params
    ensures r.weight == x.weight && r.age == x.age && r.table == x.params.table
  {
    Snapshot(x.params.table, x.age, x.weight)
  }

  /** The statuses of the animals `xs`, in order. */
  ghost function StatusesOf(xs: seq<Animal>): (r: seq<(Species, int, real)>)
    reads set x | x in xs
    ensures |r| == |xs| && forall k :: 0 <= k < |xs| ==> r[k] == Status(xs[k])
  {
    seq(|xs|, k requires 0 <= k < |xs| reads set x | x in xs => Status(xs[k]))
  }

  /**
   * What the procreation pass did in a cell `c` whose residents were `herd`,
   * as `w0` records them, after the first `|births|` of them had their
   * turn: `births[j]` is the birth weight of `herd[j]`'s newborn, or 0 when
   * it had none. Each mother's draw, made with her recorded attributes and
   * the count of her species at her turn, was 1; the others' draws were 0.
   * The newborns follow the residents in the mothers' order, each of its
   * mother's species with age 0 and the birth weight, which is the first
   * positive of the mother's `draw_birth_weight` draws. Each mother weighs `loss` of her
   * weight and the birth weight, and every other resident weighs what it
   * weighed; no age and no class attribute changed.
   */
  ghost predicate BredIn(c: Cell, herd: seq<Animal>, births: seq<real>, w0: map<Animal, Snapshot>, curve: Curve,
                         u: Animal -> real, l: Loc, draws: (Loc, nat) -> nat -> real, loss: (real, real) -> real)
    reads c, set x | x in c.animals, set x | x in herd, set x | x in herd :: x.params
  {
    && Littered(c, herd, births)
    && Recorded(herd, w0)
    && Weighed(herd, births, w0, loss)
    && Drawn(herd, births, w0, curve, u, l, draws)
  }

  /** The newborns follow the residents `herd` of `c`, as `Litter` says. */
  ghost predicate Littered(c: Cell, herd: seq<Animal>, births: seq<real>)
    reads c, set x | x in c.animals
  {
    && |births| <= |herd| && herd <= c.animals
    && |c.animals| == |herd| + |Litter(herd, births)|
    && forall k :: 0 <= k < |Litter(herd, births)| ==> Status(c.animals[|herd| + k]) == Litter(herd, births)[k]
  }

  /** Every resident keeps the age and class attributes `w0` records. */
  ghost predicate Recorded(herd: seq<Animal>, w0: map<Animal, Snapshot>)
    reads (set x | x in herd)`age, set x | x in herd :: x.params
  {
    forall j :: 0 <= j < |herd| ==> herd[j] in w0 && herd[j].age == w0[herd[j]].age && herd[j].params.table == w0[herd[j]].table
  }

  /**
   * What `herd[j]` weighs after the turns `births`: `loss` of its recorded
   * weight and its birth weight when it is a mother, its recorded weight
   * otherwise.
   */
  function Weighs(herd: seq<Animal>, births: seq<real>, w0: map<Animal, Snapshot>, loss: (real, real) -> real, j: nat): real
    requires j < |herd| && herd[j] in w0
  {
    if j < |births| && births[j] > 0.0 then loss(w0[herd[j]].weight, births[j]) else w0[herd[j]].weight
  }

  /** Every resident weighs what `Weighs` says. */
  ghost predicate Weighed(herd: seq<Animal>, births: seq<real>, w0: map<Animal, Snapshot>, loss: (real, real) -> real)
    reads (set x | x in herd)`weight
  {
    forall j :: 0 <= j < |herd| ==> herd[j] in w0 && herd[j].weight == Weighs(herd, births, w0, loss, j)
  }

  /**
   * The draw `prob_procreation` makes for `herd[j]` at its turn, after the
   * turns `births[..j]`: with its recorded attributes and the count of its
   * species then.
   */
  function DrawAt(herd: seq<Animal>, births: seq<real>, w0: map<Animal, Snapshot>, curve: Curve, u: Animal -> real, j: nat)
    : (r: Result<nat, Error>)
    requires j < |herd| && j <= |births| && herd[j] in w0
    ensures r.Success? ==> r.value <= 1
    ensures r.Failure? ==> r.error.ValueError?
  {
    var x := herd[j];
    BirthChance(w0[x].table, w0[x].age, w0[x].weight, Count(herd, births, j), curve, u(x))
  }

  /** The draws of the first `|births|` residents: 1 for the mothers, whose birth weights were drawn, 0 for the others. */
  ghost predicate Drawn(herd: seq<Animal>, births: seq<real>, w0: map<Animal, Snapshot>, curve: Curve,
                        u: Animal -> real, l: Loc, draws: (Loc, nat) -> nat -> real)
  {
    && (forall x :: x in herd ==> x in w0)
    && DrewWeights(births, l, draws)
    && Decided(herd, births, w0, curve, u)
  }

  /** Each positive birth weight is the first positive of its mother's `draw_birth_weight` draws. */
  ghost predicate DrewWeights(births: seq<real>, l: Loc, draws: (Loc, nat) -> nat -> real) {
    forall j :: 0 <= j < |births| && births[j] > 0.0 ==> FirstPositive(draws(l, j), births[j])
  }

  /** Each of the first `|births|` residents drew 1 exactly when it is a mother. */
  ghost predicate Decided(herd: seq<Animal>, births: seq<real>, w0: map<Animal, Snapshot>, curve: Curve, u: Animal -> real) {
    forall j :: 0 <= j < |births| && j < |herd| && herd[j] in w0 ==>
      DrawAt(herd, births, w0, curve, u, j) == Success(if births[j] > 0.0 then 1 else 0)
  }

  /** One more turn keeps `Drawn` when its draw and birth weight are as described. */
  lemma DrawnNext(herd: seq<Animal>, births: seq<real>, w: real, w0: map<Animal, Snapshot>, curve: Curve,
                  u: Animal -> real, l: Loc, draws: (Loc, nat) -> nat -> real)
    requires |births| < |herd| && Drawn(herd, births, w0, curve, u, l, draws)
    requires DrawAt(herd, births, w0, curve, u, |births|) == Success(if w > 0.0 then 1 else 0)
    requires w > 0.0 ==> FirstPositive(draws(l, |births|), w)
    ensures Drawn(herd, births + [w], w0, curve, u, l, draws)
  {
    DrewNext(births, w, l, draws);
    DecidedNext(herd, births, w, w0, curve, u);
  }

  /** One more birth weight, drawn as described, keeps `DrewWeights`. */
  lemma DrewNext(births: seq<real>, w: real, l: Loc, draws: (Loc, nat) -> nat -> real)
    requires DrewWeights(births, l, draws)
    requires w > 0.0 ==> FirstPositive(draws(l, |births|), w)
    ensures DrewWeights(births + [w], l, draws)
  {
    var b := births + [w];
    forall j | 0 <= j < |b| && b[j] > 0.0
      ensures FirstPositive(draws(l, j), b[j])
    {
      if j < |births| {
        assert b[j] == births[j];
      }
    }
  }

  /** One more turn whose draw was 1 exactly for a birth keeps `Decided`: the earlier draws saw the same counts. */
  lemma DecidedNext(herd: seq<Animal>, births: seq<real>, w: real, w0: map<Animal, Snapshot>, curve: Curve, u: Animal -> real)
    requires |births| < |herd| && herd[|births|] in w0 && Decided(herd, births, w0, curve, u)
    requires DrawAt(herd, births, w0, curve, u, |births|) == Success(if w > 0.0 then 1 else 0)
    ensures Decided(herd, births + [w], w0, curve, u)
  {
    var b := births + [w];
    var n := |births|;
    forall j | 0 <= j < |b| && j < |herd| && herd[j] in w0
      ensures DrawAt(herd, b, w0, curve, u, j) == Success(if b[j] > 0.0 then 1 else 0)
    {
      assert b[..j] == births[..j];
      assert Count(herd, b, j) == Count(herd, births, j);
      if j < n {
        assert b[j] == births[j];
      }
    }
  }

  /**
   * `BredIn` stated on values: `animals` is the cell's list and `sts` the
   * statuses of its animals.
   */
  ghost predicate BredVal(animals: seq<Animal>, sts: seq<(Species, int, real)>, herd: seq<Animal>, births: seq<real>,
                          w0: map<Animal, Snapshot>, curve: Curve, u: Animal -> real, l: Loc,
                          draws: (Loc, nat) -> nat -> real, loss: (real, real) -> real)
  {
    && |births| <= |herd| <= |animals| == |sts| && animals[..|herd|] == herd
    && |animals| == |herd| + |Litter(herd, births)|
    && (forall k :: |herd| <= k < |animals| ==> sts[k] == Litter(herd, births)[k - |herd|])
    && (forall j :: 0 <= j < |herd| ==> herd[j] in w0 && sts[j].1 == w0[herd[j]].age && sts[j].2 == Weighs(herd, births, w0, loss, j))
    && Drawn(herd, births, w0, curve, u, l, draws)
  }

  /** `BredIn` of `c`, whose animals have the statuses `sts`, is `BredVal` of its list. */
  lemma BredInVal(c: Cell, herd: seq<Animal>, births: seq<real>, w0: map<Animal, Snapshot>, curve: Curve,
                  u: Animal -> real, l: Loc, draws: (Loc, nat) -> nat -> real, loss: (real, real) -> real,
                  sts: seq<(Species, int, real)>)
    requires BredIn(c, herd, births, w0, curve, u, l, draws, loss)
    requires |sts| == |c.animals| && forall k :: 0 <= k < |c.animals| ==> Status(c.animals[k]) == sts[k]
    ensures BredVal(c.animals, sts, herd, births, w0, curve, u, l, draws, loss)
  {
    assert c.animals[..|herd|] == herd;
    forall j | 0 <= j < |herd|
      ensures herd[j] in w0 && sts[j].1 == w0[herd[j]].age && sts[j].2 == Weighs(herd, births, w0, loss, j)
    {
      assert herd[j] == c.animals[j];
    }
  }

  /** `BredVal` of the list of `c` is `BredIn` of `c` when the statuses are its animals' and the class attributes are the recorded ones. */
  lemma ValBredIn(c: Cell, herd: seq<Animal>, births: seq<real>, w0: map<Animal, Snapshot>, curve: Curve,
                  u: Animal -> real, l: Loc, draws: (Loc, nat) -> nat -> real, loss: (real, real) -> real,
                  sts: seq<(Species, int, real)>)
    requires BredVal(c.animals, sts, herd, births, w0, curve, u, l, draws, loss)
    requires forall k :: 0 <= k < |c.animals| ==> Status(c.animals[k]) == sts[k]
    requires forall j :: 0 <= j < |herd| ==> herd[j].params.table == w0[herd[j]].table
    ensures BredIn(c, herd, births, w0, curve, u, l, draws, loss)
  {
    forall k | 0 <= k < |Litter(herd, births)|
      ensures Status(c.animals[|herd| + k]) == Litter(herd, births)[k]
    {
      assert sts[|herd| + k] == Litter(herd, births)[|herd| + k - |herd|];
    }
    forall j | 0 <= j < |herd|
      ensures herd[j].age == w0[herd[j]].age && herd[j].weight == Weighs(herd, births, w0, loss, j)
    {
      assert herd[j] == c.animals[j];
    }
  }

  /** A cell that bred as `BredVal` says kept its residents in front and at most doubled. */
  lemma BredValGrows(animals: seq<Animal>, sts: seq<(Species, int, real)>, herd: seq<Animal>, births: seq<real>,
                     w0: map<Animal, Snapshot>, curve: Curve, u: Animal -> real, l: Loc,
                     draws: (Loc, nat) -> nat -> real, loss: (real, real) -> real)
    requires BredVal(animals, sts, herd, births, w0, curve, u, l, draws, loss)
    ensures herd <= animals && |animals| <= 2 * |herd|
  {
  }

  /**
   * The pass over `order` reaching its `k`-th coordinate records that
   * cell exactly when animals can enter it.
   */
  lemma Reached(order: seq<Loc>, enterable: set<Loc>, k: nat, log0: map<Loc, seq<real>>, log: map<Loc, seq<real>>,
                births: seq<real>)
    requires k < |order| && Distinct(order)
    requires forall i :: k <= i < |order| ==> order[i] !in log0
    requires forall i :: 0 <= i < k && order[i] in enterable ==> order[i] in log0
    requires if order[k] in enterable then log == log0[order[k] := births] else log == log0
    ensures forall i :: k + 1 <= i < |order| ==> order[i] !in log
    ensures forall i :: 0 <= i < k + 1 && order[i] in enterable ==> order[i] in log
  {
    forall i | k + 1 <= i < |order|
      ensures order[i] !in log
    {
      assert order[i] != order[k];
    }
  }

  /**
   * The outcome of the pass after breeding in one more cell `l`: a pass
   * still running has recorded every resident of every cell reached, a
   * failed one stopped at the draw that raised.
   */
  lemma PassOutcome(before: Census, log0: map<Loc, seq<real>>, log: map<Loc, seq<real>>, l: Loc, births: seq<real>,
                w0: map<Animal, Snapshot>, curve: Curve, u: Animal -> real, r: Outcome<Error>)
    requires l in before && log == log0[l := births]
    requires forall m :: m in log0 ==> m in before && |log0[m]| == |before[m]|
    requires r.Pass? ==> |births| == |before[l]|
    requires r.Fail? ==> r.error.ValueError? && FailedAt(before[l], births, w0, curve, u, r.error)
    ensures r.Pass? ==> forall m :: m in log ==> |log[m]| == |before[m]|
    ensures r.Fail? ==> r.error.ValueError? && exists m :: m in log && FailedAt(before[m], log[m], w0, curve, u, r.error)
  {
    if r.Fail? {
      assert l in log && log[l] == births;
    }
  }

  /** The elements of `s` from index `n` on. */
  function Tail<T>(s: seq<T>, n: nat): (r: set<T>)
    ensures forall j :: n <= j < |s| ==> s[j] in r
    ensures forall x :: x in r ==> exists j :: n <= j < |s| && s[j] == x
  {
    set j | n <= j < |s| :: s[j]
  }

  /**
   * Every animal born in a cell the pass has reached is among `born`,
   * after breeding in one more cell `l` adds that cell's newborns.
   */
  lemma BornNext(before: Census, census0: Census, census: Census, log0: map<Loc, seq<real>>, log: map<Loc, seq<real>>,
                 l: Loc, births: seq<real>, born0: set<Animal>, born: set<Animal>)
    requires l in before && l in census0 && l in census && l !in log0
    requires log == log0[l := births] && census == census0[l := census[l]]
    requires born == born0 + Tail(census[l], |before[l]|)
    requires forall m :: m in log0 ==> m in census0 && m in before
    requires forall m, j :: m in log0 && |before[m]| <= j < |census0[m]| ==> census0[m][j] in born0
    ensures forall m, j :: m in log && |before[m]| <= j < |census[m]| ==> census[m][j] in born
  {
  }

  /**
   * The records of a pass over the cells of `order` that has visited
   * `order[..k]` and reached the `enterable` ones among them: `log` holds
   * their birth weights, `census` and `fin` their residents and statuses
   * as `Logged` says, `born` every newborn, and `r` the pass's outcome so
   * far.
   */
  ghost predicate Swept(order: seq<Loc>, enterable: set<Loc>, k: nat, r: Outcome<Error>, before: Census, census: Census,
                        fin: map<Loc, seq<(Species, int, real)>>, log: map<Loc, seq<real>>, born: set<Animal>,
                        w0: map<Animal, Snapshot>, curve: Curve, u: Animal -> real, draws: (Loc, nat) -> nat -> real,
                        loss: (real, real) -> real)
  {
    && Logged(census, fin, before, log, w0, curve, u, draws, loss)
    && Bred(before, census, log.Keys)
    && (forall i :: k <= i < |order| ==> order[i] !in log)
    && (forall i :: 0 <= i < k && i < |order| && order[i] in enterable ==> order[i] in log)
    && (forall m, j :: m in log && |before[m]| <= j < |census[m]| ==> census[m][j] in born)
    && (r.Pass? ==> forall m :: m in log ==> |log[m]| == |before[m]|)
    && (r.Fail? ==> r.error.ValueError? && exists m :: m in log && FailedAt(before[m], log[m], w0, curve, u, r.error))
  }

  /**
   * Visiting `order[k]` extends the records: an enterable cell adds its
   * birth weights, residents and newborns, any other cell changes nothing.
   */
  lemma SweptNext(order: seq<Loc>, enterable: set<Loc>, k: nat, r: Outcome<Error>, before: Census,
                  census0: Census, census: Census, fin0: map<Loc, seq<(Species, int, real)>>,
                  fin: map<Loc, seq<(Species, int, real)>>, log0: map<Loc, seq<real>>, log: map<Loc, seq<real>>,
                  born0: set<Animal>, born: set<Animal>, births: seq<real>, w0: map<Animal, Snapshot>, curve: Curve,
                  u: Animal -> real, draws: (Loc, nat) -> nat -> real, loss: (real, real) -> real)
    requires k < |order| && Distinct(order) && order[k] in before
    requires Swept(order, enterable, k, Pass, before, census0, fin0, log0, born0, w0, curve, u, draws, loss)
    requires order[k] in enterable ==>
      && Logged(census, fin, before, log, w0, curve, u, draws, loss) && Bred(before, census, log.Keys)
      && log == log0[order[k] := births] && order[k] in census0 && census == census0[order[k] := census[order[k]]]
      && born == born0 + Tail(census[order[k]], |before[order[k]]|)
      && (r.Pass? ==> |births| == |before[order[k]]|)
      && (r.Fail? ==> r.error.ValueError? && FailedAt(before[order[k]], births, w0, curve, u, r.error))
    requires order[k] !in enterable ==> log == log0 && census == census0 && fin == fin0 && born == born0 && r.Pass?
    ensures Swept(order, enterable, k + 1, r, before, census, fin, log, born, w0, curve, u, draws, loss)
  {
    var l := order[k];
    Reached(order, enterable, k, log0, log, births);
    if l in enterable {
      assert l !in log0;
      BornNext(before, census0, census, log0, log, l, births, born0, born);
      PassOutcome(before, log0, log, l, births, w0, curve, u, r);
    }
  }

  /** A finished pass: every enterable cell is reached unless a draw raised. */
  lemma SweptDone(order: seq<Loc>, enterable: set<Loc>, k: nat, r: Outcome<Error>, before: Census, census: Census,
                  fin: map<Loc, seq<(Species, int, real)>>, log: map<Loc, seq<real>>, born: set<Animal>,
                  w0: map<Animal, Snapshot>, curve: Curve, u: Animal -> real, draws: (Loc, nat) -> nat -> real,
                  loss: (real, real) -> real)
    requires Swept(order, enterable, k, r, before, census, fin, log, born, w0, curve, u, draws, loss)
    requires k <= |order| && (r.Pass? ==> k == |order|)
    ensures Logged(census, fin, before, log, w0, curve, u, draws, loss)
    ensures Bred(before, census, log.Keys)
    ensures forall m, j :: m in log && |before[m]| <= j < |census[m]| ==> census[m][j] in born
    ensures r.Pass? ==> (forall m :: m in enterable && m in order ==> m in log) && forall m :: m in log ==> |log[m]| == |before[m]|
    ensures r.Fail? ==> r.error.ValueError? && exists m :: m in log && FailedAt(before[m], log[m], w0, curve, u, r.error)
  {
    if r.Pass? {
      forall m | m in enterable && m in order
        ensures m in log
      {
        var i :| 0 <= i < |order| && order[i] == m;
      }
    }
  }

  /**
   * Every cell in `log` bred from its residents in `before` into its
   * residents in `census`, whose statuses `fin` records.
   */
  ghost predicate Logged(census: Census, fin: map<Loc, seq<(Species, int, real)>>, before: Census, log: map<Loc, seq<real>>,
                         w0: map<Animal, Snapshot>, curve: Curve, u: Animal -> real, draws: (Loc, nat) -> nat -> real,
                         loss: (real, real) -> real)
  {
    forall m :: m in log ==>
      && m in fin && m in census && m in before
      && BredVal(census[m], fin[m], before[m], log[m], w0, curve, u, m, draws, loss)
  }

  /**
   * What the procreation pass keeps about the animals: the residents
   * `before` of each cell reached keep their recorded class attributes,
   * the animals of each cell reached have the statuses `fin` records, and
   * the residents of every cell not reached are as `w0` records them.
   */
  ghost predicate Tracked(before: Census, census: Census, fin: map<Loc, seq<(Species, int, real)>>,
                          log: map<Loc, seq<real>>, w0: map<Animal, Snapshot>)
    reads set m: Loc, x: Animal | m in before && x in before[m] :: x
    reads set m: Loc, x: Animal | m in before && x in before[m] :: x.params
    reads set m: Loc, j: int | m in census && 0 <= j < |census[m]| :: census[m][j]
  {
    && (forall m :: m in log && m in before ==> forall x :: x in before[m] ==> x in w0 && x.params.table == w0[x].table)
    && (forall m, j :: m in log && m in census && m in fin && 0 <= j < |census[m]| && j < |fin[m]| ==>
          Status(census[m][j]) == fin[m][j])
    && (forall m :: m in before && m !in log ==> forall x :: x in before[m] ==> x in w0 && Snap(x) == w0[x])
  }

  /** The residents of a cell the pass did not reach weigh what `w0` records. */
  lemma TrackedUnreached(before: Census, census: Census, fin: map<Loc, seq<(Species, int, real)>>,
                         log: map<Loc, seq<real>>, w0: map<Animal, Snapshot>)
    requires Tracked(before, census, fin, log, w0)
    ensures forall m, x :: m in before && m !in log && x in before[m] ==> x in w0 && x.weight == w0[x].weight
  {
    forall m, x | m in before && m !in log && x in before[m]
      ensures x in w0 && x.weight == w0[x].weight
    {
      assert Snap(x) == w0[x];
    }
  }

  /** Breeding in one more cell keeps the other cells' records. */
  lemma LogStep(before: Census, census: Census, after: Census, log: map<Loc, seq<real>>, fin: map<Loc, seq<(Species, int, real)>>,
                l: Loc, births: seq<real>, sts: seq<(Species, int, real)>, w0: map<Animal, Snapshot>, curve: Curve,
                u: Animal -> real, draws: (Loc, nat) -> nat -> real, loss: (real, real) -> real)
    requires l in before && l in census && l in after && l !in log && before[l] == census[l]
    requires Logged(census, fin, before, log, w0, curve, u, draws, loss)
    requires after == census[l := after[l]]
    requires BredVal(after[l], sts, before[l], births, w0, curve, u, l, draws, loss)
    ensures Logged(after, fin[l := sts], before, log[l := births], w0, curve, u, draws, loss)
  {
  }

  /**
   * One more turn keeps `BredIn`: the resident `herd[|births|]` drew 1
   * exactly when `w` is positive, as `DrawAt` says; then the cell gained
   * the newborn described after `before` and the mother weighs `loss` of
   * her weight and `w`; no other animal of `before` changed.
   */
  lemma TurnBred(c: Cell, herd: seq<Animal>, births: seq<real>, w: real, w0: map<Animal, Snapshot>, curve: Curve,
                 u: Animal -> real, l: Loc, draws: (Loc, nat) -> nat -> real, loss: (real, real) -> real,
                 before: seq<Animal>, sts: seq<(Species, int, real)>, birth: Result<nat, Error>)
    requires |births| < |herd| && BredVal(before, sts, herd, births, w0, curve, u, l, draws, loss)
    requires Distinct(herd) && forall k :: |herd| <= k < |before| ==> before[k] !in herd
    requires birth == DrawAt(herd, births, w0, curve, u, |births|) && birth.Success?
    requires w > 0.0 <==> birth.Success? && birth.value != 0
    requires w > 0.0 ==> FirstPositive(draws(l, |births|), w)
    requires before <= c.animals && |c.animals| == |before| + (if w > 0.0 then 1 else 0)
    requires w > 0.0 ==> Status(c.animals[|before|]) == (before[|births|].params.species, 0, w)
    requires var i := |births|;
      before[i].weight == (if w > 0.0 then loss(sts[i].2, w) else sts[i].2) && before[i].age == sts[i].1
    requires forall k :: 0 <= k < |before| && before[k] != before[|births|] ==> Status(before[k]) == sts[k]
    requires forall j :: 0 <= j < |herd| ==> herd[j].params.table == w0[herd[j]].table
    ensures BredIn(c, herd, births + [w], w0, curve, u, l, draws, loss)
  {
    var i := |births|;
    DrawnNext(herd, births, w, w0, curve, u, l, draws);
    forall k | |herd| <= k < |before|
      ensures Status(before[k]) == sts[k]
    {
      assert before[k] != before[i];
    }
    LitteredNext(c, herd, births, w, before, sts);
    WeighedNext(herd, births, w, w0, loss, before, sts);
  }

  /** One more turn keeps `Littered` when the cell gained the newborn described, if any, after `before`. */
  lemma LitteredNext(c: Cell, herd: seq<Animal>, births: seq<real>, w: real, before: seq<Animal>, sts: seq<(Species, int, real)>)
    requires |births| < |herd| <= |before| == |sts| && before[..|herd|] == herd
    requires |before| == |herd| + |Litter(herd, births)|
    requires forall k :: |herd| <= k < |before| ==> sts[k] == Litter(herd, births)[k - |herd|]
    requires forall k :: |herd| <= k < |before| ==> Status(before[k]) == sts[k]
    requires before <= c.animals && |c.animals| == |before| + (if w > 0.0 then 1 else 0)
    requires w > 0.0 ==> Status(c.animals[|before|]) == (before[|births|].params.species, 0, w)
    ensures Littered(c, herd, births + [w])
  {
    LitterNext(herd, births, w);
    assert herd[|births|] == before[|births|];
    assert c.animals[..|herd|] == herd by {
      assert c.animals[..|before|] == before;
    }
    forall k | 0 <= k < |Litter(herd, births + [w])|
      ensures Status(c.animals[|herd| + k]) == Litter(herd, births + [w])[k]
    {
      if |herd| + k < |before| {
        assert c.animals[|herd| + k] == before[|herd| + k];
        assert sts[|herd| + k] == Litter(herd, births)[|herd| + k - |herd|];
      }
    }
  }

  /** One more turn keeps every resident's age and gives it the weight `Weighs` says. */
  lemma WeighedNext(herd: seq<Animal>, births: seq<real>, w: real, w0: map<Animal, Snapshot>, loss: (real, real) -> real,
                    before: seq<Animal>, sts: seq<(Species, int, real)>)
    requires |births| < |herd| <= |before| == |sts| && before[..|herd|] == herd && Distinct(herd)
    requires forall j :: 0 <= j < |herd| ==> herd[j] in w0 && sts[j].1 == w0[herd[j]].age && sts[j].2 == Weighs(herd, births, w0, loss, j)
    requires var i := |births|;
      before[i].weight == (if w > 0.0 then loss(sts[i].2, w) else sts[i].2) && before[i].age == sts[i].1
    requires forall k :: 0 <= k < |before| && before[k] != before[|births|] ==> Status(before[k]) == sts[k]
    ensures forall j :: 0 <= j < |herd| ==> herd[j].age == w0[herd[j]].age && herd[j].weight == Weighs(herd, births + [w], w0, loss, j)
  {
    var i := |births|;
    var b := births + [w];
    forall j | 0 <= j < |herd|
      ensures herd[j].age == w0[herd[j]].age && herd[j].weight == Weighs(herd, b, w0, loss, j)
    {
      assert herd[j] == before[j];
      assert herd[i] == before[i];
      if j < i {
        assert b[j] == births[j];
      }
    }
  }

  /** One more turn adds its newborn, if any, at the end of the litter. */
  lemma LitterNext(herd: seq<Animal>, births: seq<real>, w: real)
    requires |births| < |herd|
    ensures Litter(herd, births + [w]) == Litter(herd, births) + (if w > 0.0 then [(herd[|births|].params.species, 0, w)] else [])
  {
    assert (births + [w])[..|births|] == births;
  }

  /**
   * The draw a resident makes at its turn is the one `DrawAt` describes: its
   * attributes are still the recorded ones, and the count of its species is
   * the residents' count plus the newborns' so far.
   */
  lemma TurnDraw(c: Cell, herd: seq<Animal>, births: seq<real>, w0: map<Animal, Snapshot>, curve: Curve,
                 u: Animal -> real, l: Loc, draws: (Loc, nat) -> nat -> real, loss: (real, real) -> real)
    requires |births| < |herd| && BredIn(c, herd, births, w0, curve, u, l, draws, loss)
    ensures var a := herd[|births|];
      Births(c, a, curve, u(a)) == DrawAt(herd, births, w0, curve, u, |births|)
  {
    var i := |births|;
    var a := herd[i];
    var s := a.params.species;
    var newborns := c.animals[|herd|..];
    assert c.animals == herd + newborns;
    ResidentsAppend(herd, newborns, s);
    forall k | 0 <= k < |newborns|
      ensures newborns[k].params.species == Litter(herd, births)[k].0
    {
      assert newborns[k] == c.animals[|herd| + k];
    }
    ResidentsAreKin(newborns, Litter(herd, births), s);
    assert births[..i] == births;
    var n := |Residents(c.animals, s)|;
    assert n == Count(herd, births, i);
    assert Snap(a) == w0[a];
  }

  /** The draw of `herd[|births|]`, the next resident to have its turn, raises `e`. */
  ghost predicate FailedAt(herd: seq<Animal>, births: seq<real>, w0: map<Animal, Snapshot>, curve: Curve,
                           u: Animal -> real, e: Error)
  {
    var j := |births|;
    && j < |herd| && herd[j] in w0
    && DrawAt(herd, births, w0, curve, u, j) == Failure(e)
  }

  /** `weight_loss_birth(weight)`, which no class defines: the mother's weight becomes `loss(weight, birth weight)`. */
  method LoseBirthWeight(a: Animal, w: real, loss: (real, real) -> real)
    modifies a`weight
    ensures a.weight == loss(old(a.weight), w)
  {
    a.weight := loss(a.weight, w);
  }

  /** The population entry `add_offspring` hands to `add_population`: species `s`, age 0, weight `w`. */
  function OffspringEntry(s: Species, w: real): PopEntry {
    PopEntry(SpeciesName(s), Some(0), Some(w))
  }

  /** The offspring entry is accepted whenever its weight is not negative, and describes one animal of age 0. */
  lemma OffspringEntryAdds(s: Species, w: real)
    requires w >= 0.0
    ensures AddOutcome([OffspringEntry(s, w)]) == Pass
    ensures FirstFailing([OffspringEntry(s, w)]) == 1
    ensures Described([OffspringEntry(s, w)]) == [(s, 0, w)]
  {
    var e := OffspringEntry(s, w);
    NameRoundTrip(s);
    assert EntryError(e).None?;
    assert [e][..0] == [];
  }

  /** The island `Rossumoya`: `island_map`, its cells by coordinate in insertion order. */
  class Island {
    const cls: Classes
    /** The keys of `island_map`, in insertion order. */
    const order: seq<Loc>
    const cells: map<Loc, Cell>

    /** The resident list of every cell. */
    ghost function Residents(): (r: Census)
      reads this, cells.Values
      ensures r.Keys == cells.Keys
    {
      map l | l in cells :: cells[l].animals
    }

    ghost predicate Valid()
      reads this, cells.Values, cls.Objects()
    {
      && cls.Valid()
      && Distinct(order) && (forall l :: l in cells <==> l in order)
      && Injective(cells)
      && (forall l :: l in cells ==> MemberCell(cells[l], cls))
      && Separate(Residents())
    }

    /** An island over a freshly built map. */
    constructor (g: Geography, ghost rows: seq<string>, cls: Classes)
      requires cls.Valid() && Built(g, rows, cls)
      ensures Valid() && this.cls == cls && order == g.order && cells == g.cells
    {
      this.cls := cls;
      order := g.order;
      cells := g.cells;
      new;
      OrderIsLayout(rows, 0);
    }

    /** The death pass in the cell at `l`; no other cell changes. */
    method DeathAt(l: Loc, c: Cell, test: Animal -> bool)
      requires l in cells && cells[l] == c && Injective(cells)
      requires forall m :: m in cells ==> MemberCell(cells[m], cls)
      modifies c`animals
      ensures forall m :: m in cells ==> MemberCell(cells[m], cls)
      ensures Residents() == old(Residents())[l := Survivors(old(Residents())[l], test)]
    {
      CellDeath(c, test);
    }

    /**
     * The death pass with the test `test`: in every cell the animals whose
     * test is truthy are collected and removed; the others stay, in order.
     */
    method DeathWith(test: Animal -> bool)
      requires Valid()
      modifies cells.Values`animals
      ensures Valid()
      ensures Residents() == AfterDeath(old(Residents()), cells.Keys, test)
    {
      ghost var before := Residents();
      DeathEverywhere(test);
      AfterDeathShrinks(before, cells.Keys, test);
      ShrunkSeparate(before, Residents());
    }

    /** The cells visited in map order, each by `DeathAt`. */
    method DeathEverywhere(test: Animal -> bool)
      requires Distinct(order) && Injective(cells)
      requires forall l :: l in cells <==> l in order
      requires forall l :: l in cells ==> MemberCell(cells[l], cls)
      modifies cells.Values`animals
      ensures forall l :: l in cells ==> MemberCell(cells[l], cls)
      ensures Residents() == AfterDeath(old(Residents()), cells.Keys, test)
    {
      assert order[..0] == [];
      DeathFrom(0, test, Residents());
    }

    /** The loop of `death` from the `k`-th cell of the map order on, the census of the year's start being `before`. */
    method DeathFrom(k: nat, test: Animal -> bool, ghost before: Census)
      requires k <= |order| && Distinct(order) && Injective(cells)
      requires forall l :: l in cells <==> l in order
      requires forall l :: l in cells ==> MemberCell(cells[l], cls)
      requires before.Keys == cells.Keys
      requires Residents() == AfterDeath(before, ToSet(order[..k]), test)
      modifies cells.Values`animals
      decreases |order| - k
      ensures forall l :: l in cells ==> MemberCell(cells[l], cls)
      ensures Residents() == AfterDeath(before, cells.Keys, test)
    {
      if k == |order| {
        assert ToSet(order[..k]) == cells.Keys by {
          assert order[..k] == order;
        }
        return;
      }
      ToSetPrefixStep(order, k);
      DeathStep(before, ToSet(order[..k]), order[k], test);
      DeathAt(order[k], cells[order[k]], test);
      DeathFrom(k + 1, test, before);
    }

    /** One move of `migration`: `a` joins the residents of `to`, then leaves those of `from`. */
    method Move(a: Animal, from: Loc, src: Cell, to: Loc, dst: Cell)
      requires Valid()
      requires from in cells && cells[from] == src && to in cells && cells[to] == dst && from != to
      requires a in src.animals
      modifies src`animals, dst`animals
      ensures Valid()
      ensures Residents() == Moved(old(Residents()), from, to, a)
      ensures Headcount(Residents(), order) == Headcount(old(Residents()), order)
      ensures KeptBut(old(Residents()), Residents(), a)
      ensures Stays(old(Residents()), Residents())
    {
      ghost var census := Residents();
      assert a !in dst.animals;
      MoveSeparate(census, from, to, a);
      MoveKeepsHeadcount(census, order, from, to, a);
      assert src.Valid();
      MoveKept(census, from, to, a);
      MoveAt(a, from, src, to, dst);
    }

    /** The two resident lists that `Move` changes, as a frame step. */
    method MoveAt(a: Animal, from: Loc, src: Cell, to: Loc, dst: Cell)
      requires from in cells && cells[from] == src && to in cells && cells[to] == dst && from != to
      requires Injective(cells) && forall m :: m in cells ==> MemberCell(cells[m], cls)
      requires a in src.animals && a !in dst.animals
      modifies src`animals, dst`animals
      ensures forall m :: m in cells ==> MemberCell(cells[m], cls)
      ensures Residents() == Moved(old(Residents()), from, to, a)
    {
      ghost var census := Residents();
      assert a.params == dst.herbivores || a.params == dst.carnivores by {
        assert MemberCell(src, cls) && MemberCell(dst, cls);
        var k :| 0 <= k < |src.animals| && src.animals[k] == a;
      }
      Arrive(a, dst, cls);
      Leave(a, src, cls);
      forall m | m in cells
        ensures MemberCell(cells[m], cls)
        ensures m != from && m != to ==> Residents()[m] == census[m]
      {
        if m == from {
        } else if m == to {
          assert MemberCell(dst, cls);
        } else {
          assert cells[m] != src && cells[m] != dst;
          assert old(MemberCell(cells[m], cls));
        }
      }
      MovedKeyed(census, Residents(), from, to, a);
    }

    /**
     * The inner loop of `migration` in the cell at `l`: every resident for
     * which `migrates` holds is sent to the cell `choose_cell` selects. The
     * loop runs over the list it removes from, so the animal after each
     * migrant is passed over.
     */
    method MigrationFrom(l: Loc, c: Cell, migrates: Animal -> bool, exp: real -> real, pick: seq<real> -> Choice,
                         moved: set<Animal>, ghost start: Census)
      returns (r: Outcome<Error>, moved': set<Animal>)
      requires Valid() && l in cells && cells[l] == c
      requires PositiveExp(exp) && HonestPick(pick)
      requires Separate(start) && Placed(start, Residents(), moved, Open())
      requires AllMigrate(moved, migrates)
      modifies cells.Values`animals
      ensures Valid()
      ensures Headcount(Residents(), order) == Headcount(old(Residents()), order)
      ensures Kept(old(Residents()), Residents(), migrates) && Stays(old(Residents()), Residents())
      ensures moved <= moved' && AllMigrate(moved', migrates)
      ensures Placed(start, Residents(), moved', Open())
      ensures r.Fail? ==> r.error == KeyError || r.error == ZeroDivisionError
      ensures forall x :: x in moved' ==> x in moved || x in old(c.animals)
      ensures forall m :: m in cells && m != l ==> Grows(old(Residents())[m], Residents()[m], moved')
      ensures r.Pass? ==> moved' == moved + ToSet(Going(old(c.animals), moved, migrates))
    {
      ghost var before := Residents();
      SendingStart(c.animals, moved, migrates);
      PlacedMidway(start, before, l, moved, Open(), migrates, order);
      r, moved' := SendFrom(l, c, 0, migrates, exp, pick, moved, moved, start, before, c.animals, 0, []);
    }

    /**
     * The inner loop of `migration` from index `i` of the current list of
     * the cell at `l` on; `xs` is the list the loop started with, `done`
     * the animals sent off so far, `moved0` the animals that had moved
     * before and `now` those that have moved by this turn.
     */
    method SendFrom(l: Loc, c: Cell, i: nat, migrates: Animal -> bool, exp: real -> real, pick: seq<real> -> Choice,
                    ghost moved0: set<Animal>, now: set<Animal>, ghost start: Census, ghost before: Census,
                    ghost xs: seq<Animal>, ghost j: nat, ghost done: seq<Animal>)
      returns (r: Outcome<Error>, moved': set<Animal>)
      requires Valid() && l in cells && cells[l] == c
      requires PositiveExp(exp) && HonestPick(pick)
      requires Separate(start) && AllMigrate(now, migrates)
      requires Midway(start, before, Residents(), l, now, Open(), migrates, order)
      requires Sending(c.animals, i, xs, j, done, moved0, now, migrates)
      modifies cells.Values`animals
      decreases |c.animals| - i + 1
      ensures Valid() && moved0 <= moved' && AllMigrate(moved', migrates)
      ensures Midway(start, before, Residents(), l, moved', Open(), migrates, order)
      ensures r.Fail? ==> r.error == KeyError || r.error == ZeroDivisionError
      ensures forall x :: x in moved' ==> x in moved0 || x in xs
      ensures r.Pass? ==> moved' == moved0 + ToSet(Going(xs, moved0, migrates))
    {
      if i >= |c.animals| {
        SendingDone(c.animals, i, xs, j, done, moved0, now, migrates);
        return Pass, now;
      }
      var now';
      ghost var j', done';
      r, now', j', done' := SendTurn(l, c, i, migrates, exp, pick, moved0, now, start, before, xs, j, done);
      if r.Fail? {
        return r, now';
      }
      r, moved' := SendFrom(l, c, i + 1, migrates, exp, pick, moved0, now', start, before, xs, j', done');
    }

    /**
     * The turn of `SendFrom` at index `i`: an animal that migrates and has
     * not moved yet moves, any other is passed.
     */
    method SendTurn(l: Loc, c: Cell, i: nat, migrates: Animal -> bool, exp: real -> real, pick: seq<real> -> Choice,
                    ghost moved0: set<Animal>, now: set<Animal>, ghost start: Census, ghost before: Census,
                    ghost xs: seq<Animal>, ghost j: nat, ghost done: seq<Animal>)
      returns (r: Outcome<Error>, now': set<Animal>, ghost j': nat, ghost done': seq<Animal>)
      requires Valid() && l in cells && cells[l] == c
      requires PositiveExp(exp) && HonestPick(pick)
      requires Separate(start) && AllMigrate(now, migrates)
      requires Midway(start, before, Residents(), l, now, Open(), migrates, order)
      requires Sending(c.animals, i, xs, j, done, moved0, now, migrates)
      requires i < |c.animals|
      modifies cells.Values`animals
      ensures Valid() && AllMigrate(now', migrates)
      ensures Midway(start, before, Residents(), l, now', Open(), migrates, order)
      ensures r.Fail? ==> now' == now && (r.error == KeyError || r.error == ZeroDivisionError)
      ensures r.Pass? ==> Sending(c.animals, i + 1, xs, j', done', moved0, now', migrates)
      ensures r.Pass? ==> |c.animals| <= |old(c.animals)|
    {
      var a := c.animals[i];
      ghost var ys := c.animals;
      assert Distinct(ys) by {
        assert MemberCell(c, cls);
      }
      if !(migrates(a) && a !in now) {
        SendingPass(ys, i, xs, j, done, moved0, now, migrates);
        return Pass, now, j + 1, done;
      }
      SendingLeave(ys, i, xs, j, done, moved0, now, migrates);
      AllMigrateAdd(now, migrates, a);
      ghost var census := Residents();
      RemoveFirstAt(ys, i);
      var to;
      r, to := MigrateOne(l, c, a, migrates, exp, pick);
      KeptTrans(before, census, Residents(), migrates);
      StaysTrans(before, census, Residents());
      if r.Fail? {
        return r, now, j, done;
      }
      assert c.animals == ys[..i] + ys[i + 1..];
      PlacedMove(start, census, now, Open(), l, to, a);
      MovedGrows(before, census, l, to, a, now);
      now', j', done' := now + {a}, AfterLeaving(xs, j), done + [a];
    }

    /** One migrant `a` of the cell at `l` moves to the cell `choose_cell` selects. */
    method MigrateOne(l: Loc, c: Cell, a: Animal, migrates: Animal -> bool, exp: real -> real, pick: seq<real> -> Choice)
      returns (r: Outcome<Error>, to: Loc)
      requires Valid() && l in cells && cells[l] == c && a in c.animals && migrates(a)
      requires PositiveExp(exp) && HonestPick(pick)
      modifies cells.Values`animals
      ensures Valid()
      ensures Headcount(Residents(), order) == Headcount(old(Residents()), order)
      ensures Kept(old(Residents()), Residents(), migrates) && Stays(old(Residents()), Residents())
      ensures r.Fail? ==> r.error == KeyError || r.error == ZeroDivisionError
      ensures r.Fail? ==> Residents() == old(Residents()) && old(Chosen(l, cells, a.params.species, exp, pick)) == Failure(r.error)
      ensures r.Pass? ==> old(Chosen(l, cells, a.params.species, exp, pick)) == Success(to)
      ensures r.Pass? ==> c.animals == RemoveFirst(old(c.animals), a).value
      ensures r.Pass? ==> exists m :: m in cells && Adjacent(l, m) && Passable(cells[m].kind) && cells[m].animals == old(cells[m].animals) + [a]
      ensures r.Pass? ==> to in Open() && Adjacent(l, to) && to != l && Residents() == Moved(old(Residents()), l, to, a)
    {
      var dst := Destination(l, a.params.species, exp, pick);
      to := l;
      if dst.Failure? {
        return Fail(dst.error), to;
      }
      to := dst.value;
      ghost var census := Residents();
      assert to != l by {
        assert Adjacent(l, to);
      }
      Move(a, l, c, to, cells[to]);
      KeptButMigrant(census, Residents(), a, migrates);
      assert cells[to].animals == Residents()[to] == census[to] + [a];
      r := Pass;
    }

    /** The cells an animal can enter: neither mountain nor ocean. */
    ghost function Open(): set<Loc> {
      set m | m in cells && Passable(cells[m].kind)
    }

    /** `choose_cell` for an animal of species `s` at `l`, as intended; the island stays as it is. */
    method Destination(l: Loc, s: Species, exp: real -> real, pick: seq<real> -> Choice) returns (r: Result<Loc, Error>)
      requires Valid() && PositiveExp(exp) && HonestPick(pick)
      ensures Valid() && Residents() == old(Residents())
      ensures r == old(Chosen(l, cells, s, exp, pick))
      ensures r.Success? ==> Adjacent(l, r.value) && r.value in cells && Passable(cells[r.value].kind)
      ensures r.Failure? ==> r.error == KeyError || r.error == ZeroDivisionError
    {
      ghost var census := Residents();
      r := ChooseCell(l, cells, s, exp, pick);
      forall m | m in cells
        ensures Residents()[m] == census[m] && MemberCell(cells[m], cls)
      {
        assert old(MemberCell(cells[m], cls));
      }
      SameKeyed(census, Residents());
    }

    /**
     * `migration` with the decision `migrates` (for
     * `animal.prob_migration() and not animal.has_migrated`) and the
     * destination drawn by `choose_cell` as intended: the cells that can be
     * entered are visited in map order. `moved` collects the animals that
     * moved, as `has_migrated` would mark them, so none moves twice. Nobody
     * leaves or joins the island, no animal is in two cells, animals that
     * do not migrate stay, and each that moved is in a passable cell
     * adjacent to the one it started the year in.
     */
    method MigrationWith(migrates: Animal -> bool, exp: real -> real, pick: seq<real> -> Choice)
      returns (r: Outcome<Error>, moved: set<Animal>)
      requires Valid() && PositiveExp(exp) && HonestPick(pick)
      modifies cells.Values`animals
      ensures Valid()
      ensures Headcount(Residents(), order) == Headcount(old(Residents()), order)
      ensures Kept(old(Residents()), Residents(), migrates) && Stays(old(Residents()), Residents())
      ensures AllMigrate(moved, migrates)
      ensures Placed(old(Residents()), Residents(), moved, Open())
      ensures r.Fail? ==> r.error == KeyError || r.error == ZeroDivisionError
      ensures r.Pass? ==> moved == Leavers(old(Residents()), order, Enterable(), migrates)
    {
      ghost var before := Residents();
      PlacedStart(before, Open());
      PartwayStart(before, order, Enterable(), Open(), migrates);
      r, moved := MigrationOver(0, migrates, exp, pick, {}, before);
      assert order[..|order|] == order;
    }

    /** `migration` from the `k`-th cell of the map on, one cell's turn at a time. */
    method MigrationOver(k: nat, migrates: Animal -> bool, exp: real -> real, pick: seq<real> -> Choice,
                         moved: set<Animal>, ghost before: Census)
      returns (r: Outcome<Error>, moved': set<Animal>)
      requires Valid() && k <= |order| && PositiveExp(exp) && HonestPick(pick)
      requires Separate(before) && AllMigrate(moved, migrates)
      requires Partway(before, Residents(), moved, Open(), migrates, order)
      requires PassedOver(before, Residents(), moved, order, k, Enterable(), migrates)
      modifies cells.Values`animals
      decreases |order| - k
      ensures Valid() && AllMigrate(moved', migrates)
      ensures Partway(before, Residents(), moved', Open(), migrates, order)
      ensures r.Fail? ==> r.error == KeyError || r.error == ZeroDivisionError
      ensures r.Pass? ==> PassedOver(before, Residents(), moved', order, |order|, Enterable(), migrates)
    {
      if k == |order| {
        return Pass, moved;
      }
      r, moved' := MigrationTurn(k, migrates, exp, pick, moved, before);
      if r.Fail? {
        return;
      }
      r, moved' := MigrationOver(k + 1, migrates, exp, pick, moved', before);
    }

    /** The turn of `migration` at the `k`-th cell of the map: a passable cell sends off its migrants. */
    method MigrationTurn(k: nat, migrates: Animal -> bool, exp: real -> real, pick: seq<real> -> Choice,
                         moved: set<Animal>, ghost before: Census)
      returns (r: Outcome<Error>, moved': set<Animal>)
      requires Valid() && k < |order| && PositiveExp(exp) && HonestPick(pick)
      requires Separate(before) && AllMigrate(moved, migrates)
      requires Partway(before, Residents(), moved, Open(), migrates, order)
      requires PassedOver(before, Residents(), moved, order, k, Enterable(), migrates)
      modifies cells.Values`animals
      ensures Valid() && AllMigrate(moved', migrates)
      ensures Partway(before, Residents(), moved', Open(), migrates, order)
      ensures r.Fail? ==> r.error == KeyError || r.error == ZeroDivisionError
      ensures r.Pass? ==> PassedOver(before, Residents(), moved', order, k + 1, Enterable(), migrates)
    {
      var l := order[k];
      var c := cells[l];
      ghost var census := Residents();
      if !c.canEnter {
        PassedSkip(before, census, moved, order, k, Enterable(), migrates);
        return Pass, moved;
      }
      r, moved' := MigrationFrom(l, c, migrates, exp, pick, moved, before);
      PartwayStep(before, census, Residents(), moved, moved', Open(), migrates, order);
      if r.Fail? {
        return;
      }
      PassedStep(before, census, Residents(), order, k, Enterable(), migrates, moved, moved');
    }

    /**
     * `death` as written: the test `animal.prob_death` is the method
     * itself, not a call, so every animal of every cell is removed.
     */
    method Death()
      requires Valid()
      modifies cells.Values`animals
      ensures Valid()
      ensures forall l :: l in cells ==> cells[l].animals == []
    {
      DeathWith(BoundMethodTest);
      forall l | l in cells
        ensures cells[l].animals == []
      {
        NoSurvivors(old(cells[l].animals));
        assert cells[l].animals == Residents()[l];
      }
    }

    /**
     * `migration` as written: the test is the method `prob_migration`
     * itself (truthy), then `has_migrated`, which no class defines, so the
     * first animal reached raises `AttributeError`. Here `has_migrated` is
     * supplied as `hasMigrated`; the first animal that passes then reaches
     * `choose_cell`, whose unpacking raises `TypeError` before anything has
     * moved.
     */
    method MigrationAsWritten(hasMigrated: Animal -> bool) returns (r: Outcome<Error>)
      requires Valid()
      ensures r.Fail? <==>
        exists l, k :: l in cells && cells[l].canEnter && 0 <= k < |cells[l].animals| && !hasMigrated(cells[l].animals[k])
      ensures r.Fail? ==> r.error == TypeError(UnpackMessage)
    {
      var j := 0;
      while j < |order|
        invariant 0 <= j <= |order|
        invariant forall i, k :: 0 <= i < j && cells[order[i]].canEnter && 0 <= k < |cells[order[i]].animals| ==>
          hasMigrated(cells[order[i]].animals[k])
      {
        var c := cells[order[j]];
        if c.canEnter {
          var k := 0;
          while k < |c.animals|
            invariant 0 <= k <= |c.animals|
            invariant forall i :: 0 <= i < k ==> hasMigrated(c.animals[i])
          {
            if !hasMigrated(c.animals[k]) {
              var choice := ChooseCellAsWritten(order[j], cells, SpeciesName(c.animals[k].params.species));
              return Fail(choice.error);
            }
            k := k + 1;
          }
        }
        j := j + 1;
      }
      r := Pass;
      forall l, k | l in cells && cells[l].canEnter && 0 <= k < |cells[l].animals|
        ensures hasMigrated(cells[l].animals[k])
      {
        var i :| 0 <= i < |order| && order[i] == l;
      }
    }

    /** `cell.add_population(pop)` for the cell at `l`; the other cells keep their residents. */
    method AddAt(l: Loc, c: Cell, pop: seq<PopEntry>) returns (r: Outcome<Error>)
      requires Valid() && l in cells && cells[l] == c
      modifies c`animals
      ensures Valid() && r == AddOutcome(pop)
      ensures Residents() == old(Residents())[l := c.animals]
      ensures var added := Described(pop[..FirstFailing(pop)]);
        && |c.animals| == |old(c.animals)| + |added|
        && old(c.animals) <= c.animals
        && forall k :: |old(c.animals)| <= k < |c.animals| ==>
             fresh(c.animals[k]) && Status(c.animals[k]) == added[k - |old(c.animals)|]
      ensures Appended(old(c.animals), c.animals, Described(pop[..FirstFailing(pop)]))
    {
      ghost var census := Residents();
      r := AddAtFrame(l, c, pop);
      forall m, x | m in census && m != l && x in census[m]
        ensures x !in c.animals[|census[l]|..]
      {
        assert old(allocated(x));
      }
      AddSeparate(census, l, c.animals);
    }

    /** The frame step of `AddAt`: every cell stays a member cell and only the list at `l` changes. */
    method AddAtFrame(l: Loc, c: Cell, pop: seq<PopEntry>) returns (r: Outcome<Error>)
      requires l in cells && cells[l] == c
      requires Injective(cells) && forall m :: m in cells ==> MemberCell(cells[m], cls)
      modifies c`animals
      ensures forall m :: m in cells ==> MemberCell(cells[m], cls)
      ensures r == AddOutcome(pop)
      ensures Residents() == old(Residents())[l := c.animals]
      ensures var added := Described(pop[..FirstFailing(pop)]);
        && |c.animals| == |old(c.animals)| + |added|
        && old(c.animals) <= c.animals
        && forall k :: |old(c.animals)| <= k < |c.animals| ==>
             fresh(c.animals[k]) && Status(c.animals[k]) == added[k - |old(c.animals)|]
    {
      ghost var census := Residents();
      assert MemberCell(c, cls);
      r := c.AddPopulation(pop);
      assert old(c.animals) == c.animals[..|old(c.animals)|];
      forall m | m in cells
        ensures MemberCell(cells[m], cls)
        ensures m != l ==> Residents()[m] == census[m]
      {
        if m == l {
          assert cells[m] == c;
        } else {
          assert cells[m] != c;
          assert old(MemberCell(cells[m], cls));
        }
      }
      AddedKeyed(census, Residents(), l, c.animals);
    }

    /**
     * `add_population(population)`: each placement's list goes to the cell
     * at its location, in order. An unknown location raises `KeyError` and
     * a rejected entry the constructor's error; what was added before
     * stays. Old residents keep their places, every new resident is a new
     * animal, and a cell no placement names keeps its residents.
     */
    method AddPopulation(ps: seq<Placement>) returns (r: Outcome<Error>)
      requires Valid()
      modifies cells.Values`animals
      ensures Valid() && r == PlacementOutcome(ps, cells.Keys)
      ensures Grown(old(Residents()), Residents())
      ensures Untouched(old(Residents()), Residents(), ps, |ps|)
      ensures r.Pass? ==> Headcount(Residents(), order) == Headcount(old(Residents()), order) + Newcomers(ps)
      ensures forall l :: l in cells ==> |Residents()[l]| == |old(Residents())[l]| + |Arrivals(ps[..Processed(ps, cells.Keys)], l)|
      ensures forall l, k :: l in cells && |old(Residents())[l]| <= k < |Residents()[l]| ==>
        && fresh(Residents()[l][k])
        && Status(Residents()[l][k]) == Arrivals(ps[..Processed(ps, cells.Keys)], l)[k - |old(Residents())[l]|]
    {
      ghost var before := Residents();
      ghost var born, st;
      r, born, st := PlaceFrom(ps, 0, before, {}, map[]);
      PlacedStatuses(before, Residents(), ps, Processed(ps, cells.Keys), born, st);
    }

    /**
     * The loop of `add_population` from placement `j` on, one placement
     * per call, over the census `before` of the whole pass: `born` collects
     * the new animals, and `st` records the status each of them was given.
     */
    method PlaceFrom(ps: seq<Placement>, j: nat, ghost before: Census, ghost born0: set<Animal>,
                     ghost st0: map<Animal, (Species, int, real)>)
      returns (r: Outcome<Error>, ghost born: set<Animal>, ghost st: map<Animal, (Species, int, real)>)
      requires Valid() && Current(st0) && j <= FirstFailingPlacement(ps, cells.Keys)
      requires Progressed(before, Residents(), ps, j, born0, st0, order)
      modifies cells.Values`animals
      decreases |ps| - j
      ensures Valid() && r == PlacementOutcome(ps, cells.Keys)
      ensures Placing(before, Residents(), ps, Processed(ps, cells.Keys), born, st) && Current(st)
      ensures Untouched(before, Residents(), ps, |ps|)
      ensures r.Pass? ==> Headcount(Residents(), order) == Headcount(before, order) + Newcomers(ps)
      ensures forall x :: x in born ==> x in born0 || fresh(x)
    {
      if j == |ps| {
        assert ps[..j] == ps;
        return Pass, born0, st0;
      }
      ghost var now;
      r, now, born, st := PlaceNext(ps, j, before, Residents(), born0, st0);
      if r.Fail? {
        return;
      }
      r, born, st := PlaceFrom(ps, j + 1, before, born, st);
    }

    /**
     * Placement `j` of `add_population` within the whole pass from the
     * census `before`, the island's census being `census`: it passes and
     * comes before the first failing placement, or it is the one that
     * raises what the pass raises. The animals it adds are new; they join
     * those of earlier placements in `born`, and `st` records every
     * newcomer's status.
     */
    method PlaceNext(ps: seq<Placement>, j: nat, ghost before: Census, ghost census: Census, ghost born: set<Animal>,
                     ghost st: map<Animal, (Species, int, real)>)
      returns (r: Outcome<Error>, ghost now: Census, ghost born': set<Animal>,
               ghost st': map<Animal, (Species, int, real)>)
      requires Valid() && census == Residents() && Current(st)
      requires j < |ps| && j <= FirstFailingPlacement(ps, cells.Keys)
      requires Progressed(before, census, ps, j, born, st, order)
      modifies cells.Values`animals
      ensures Valid() && now == Residents() && Current(st')
      ensures Placing(before, now, ps, j + 1, born', st')
      ensures forall x :: x in born' ==> x in born || fresh(x)
      ensures r.Pass? ==> j < FirstFailingPlacement(ps, cells.Keys) && Progressed(before, now, ps, j + 1, born', st', order)
      ensures r.Fail? ==>
        && r == PlacementOutcome(ps, cells.Keys) && Processed(ps, cells.Keys) == j + 1
        && Untouched(before, now, ps, |ps|)
    {
      PlacementAt(ps, cells.Keys, j);
      r, now, born', st' := PlaceRecorded(ps[j], census, born, st);
      PlacingStep(ps, j, before, census, now, born, born', st, st');
      if r.Fail? {
        FirstFailingPlacementIs(ps, cells.Keys);
        assert FirstFailingPlacement(ps, cells.Keys) == j;
        UntouchedWider(before, now, ps, j + 1, |ps|);
      } else {
        PlacedCount(ps, j, before, census, now[ps[j].loc], order);
      }
    }

    /**
     * One placement, `Place(p)`, from the census `census`, with its
     * newcomers recorded: they join `born`, and `st` gains their statuses.
     */
    method PlaceRecorded(p: Placement, ghost census: Census, ghost born: set<Animal>,
                         ghost st: map<Animal, (Species, int, real)>)
      returns (r: Outcome<Error>, ghost now: Census, ghost born': set<Animal>,
               ghost st': map<Animal, (Species, int, real)>)
      requires Valid() && census == Residents() && Current(st)
      modifies cells.Values`animals
      ensures Valid() && now == Residents() && Current(st')
      ensures r == if p.loc in cells then AddOutcome(p.pop) else Fail(KeyError)
      ensures Entered(census, now, p, born', st')
      ensures p.loc in cells && r.Pass? ==> |now[p.loc]| == |census[p.loc]| + |Described(p.pop)|
      ensures born <= born' && forall x :: x in born' ==> x in born || fresh(x)
      ensures forall x :: x in st ==> x in st' && st'[x] == st[x]
    {
      var l := p.loc;
      born', st' := born, st;
      r := Place(p);
      now := Residents();
      assert Current(st);
      if l in cells {
        ghost var ys := cells[l].animals;
        ghost var added := Described(p.pop[..FirstFailing(p.pop)]);
        assert census[l] == old(cells[l].animals) && now[l] == ys;
        forall k | |census[l]| <= k < |ys|
          ensures ys[k] !in st
        {
          assert fresh(ys[k]);
        }
        NewcomersRecorded(census[l], ys, added, st);
        born', st' := born + Joined(census[l], ys), Recording(st, Joined(census[l], ys));
      }
    }

    /** One placement of `add_population`: `island_map[loc]`, then that cell's `add_population(pop)`. */
    method Place(p: Placement) returns (r: Outcome<Error>)
      requires Valid()
      modifies cells.Values`animals
      ensures Valid()
      ensures r == if p.loc in cells then AddOutcome(p.pop) else Fail(KeyError)
      ensures p.loc !in cells ==> Residents() == old(Residents())
      ensures p.loc in cells ==>
        && Residents() == old(Residents())[p.loc := Residents()[p.loc]]
        && old(Residents())[p.loc] <= Residents()[p.loc]
        && (r.Pass? ==> |Residents()[p.loc]| == |old(Residents())[p.loc]| + |Described(p.pop)|)
      ensures p.loc in cells ==>
        var xs, ys := old(cells[p.loc].animals), cells[p.loc].animals;
        && Appended(xs, ys, Described(p.pop[..FirstFailing(p.pop)]))
        && forall k :: |xs| <= k < |ys| ==> fresh(ys[k])
    {
      if p.loc !in cells {
        return Fail(KeyError);
      }
      PassingWhole(p.pop);
      r := AddAt(p.loc, cells[p.loc], p.pop);
    }

    /**
     * `add_offspring(animal, loc)` as intended: the birth weight is the
     * value of the property `draw_birth_weight` (the draws `draws`), an
     * age-0 animal of the mother's species with that weight joins the cell
     * at `loc` through `add_population`, and the mother's weight becomes
     * `loss(weight, birth weight)`, for `weight_loss_birth`.
     */
    method AddOffspring(a: Animal, l: Loc, c: Cell, draws: nat -> real, loss: (real, real) -> real) returns (w: real)
      requires Valid() && l in cells && cells[l] == c && a in c.animals
      requires exists i: nat :: draws(i) > 0.0
      modifies c`animals, a`weight
      ensures Valid() && w > 0.0 && FirstPositive(draws, w)
      ensures a.weight == loss(old(a.weight), w)
      ensures Residents() == old(Residents())[l := c.animals]
      ensures |c.animals| == |old(c.animals)| + 1 && old(c.animals) <= c.animals
      ensures fresh(c.animals[|old(c.animals)|]) && Status(c.animals[|old(c.animals)|]) == (a.params.species, 0, w)
    {
      w := Bear(a, draws, loss);
      Newborn(l, c, a.params.species, w);
    }

    /** `add_population([{'species': ..., 'age': 0, 'weight': w}])` at `l`: one new animal joins the cell. */
    method Newborn(l: Loc, c: Cell, s: Species, w: real)
      requires Valid() && l in cells && cells[l] == c && w >= 0.0
      modifies c`animals
      ensures Valid() && Residents() == old(Residents())[l := c.animals]
      ensures |c.animals| == |old(c.animals)| + 1 && old(c.animals) <= c.animals
      ensures fresh(c.animals[|old(c.animals)|]) && Status(c.animals[|old(c.animals)|]) == (s, 0, w)
    {
      OffspringEntryAdds(s, w);
      var r := AddAt(l, c, [OffspringEntry(s, w)]);
    }

    /**
     * The mother's part of `add_offspring`: the birth weight drawn by
     * `draw_birth_weight`, and the weight loss `weight_loss_birth`. The
     * island's cells and their residents stay as they are.
     */
    method Bear(a: Animal, draws: nat -> real, loss: (real, real) -> real) returns (w: real)
      requires Valid() && exists i: nat :: draws(i) > 0.0
      modifies a`weight
      ensures Valid() && Residents() == old(Residents())
      ensures w > 0.0 && FirstPositive(draws, w)
      ensures a.weight == loss(old(a.weight), w)
    {
      ghost var census := Residents();
      w := a.DrawBirthWeight(draws);
      LoseBirthWeight(a, w, loss);
      forall m | m in cells
        ensures Residents()[m] == census[m] && MemberCell(cells[m], cls)
      {
        assert old(MemberCell(cells[m], cls));
      }
      SameKeyed(census, Residents());
    }

    /**
     * `procreation` as written: the first truthy draw calls
     * `add_offspring`, whose call of the property value
     * `draw_birth_weight()` raises `TypeError` before anything changes. So
     * the pass either finds no birth at all or fails with the island as it
     * was; a draw that cannot be made raises its `ValueError` first.
     */
    method ProcreationAsWritten(curve: Curve, u: Animal -> real) returns (r: Outcome<Error>)
      requires Valid()
      ensures r.Pass? <==>
        forall l, k :: l in cells && cells[l].canEnter && 0 <= k < |cells[l].animals| ==>
          Births(cells[l], cells[l].animals[k], curve, u(cells[l].animals[k])) == Success(0)
      ensures r.Fail? ==> r.error == TypeError(NotCallableMessage) || r.error.ValueError?
    {
      var j := 0;
      while j < |order|
        invariant 0 <= j <= |order|
        invariant forall i, k :: 0 <= i < j && cells[order[i]].canEnter && 0 <= k < |cells[order[i]].animals| ==>
          Births(cells[order[i]], cells[order[i]].animals[k], curve, u(cells[order[i]].animals[k])) == Success(0)
      {
        var c := cells[order[j]];
        if c.canEnter {
          var k := 0;
          while k < |c.animals|
            invariant 0 <= k <= |c.animals|
            invariant forall i :: 0 <= i < k ==> Births(c, c.animals[i], curve, u(c.animals[i])) == Success(0)
          {
            var a := c.animals[k];
            var birth := Births(c, a, curve, u(a));
            if birth.Failure? {
              return Fail(birth.error);
            }
            if birth.value != 0 {
              return Fail(TypeError(NotCallableMessage));
            }
            k := k + 1;
          }
        }
        j := j + 1;
      }
      r := Pass;
      forall l, k | l in cells && cells[l].canEnter && 0 <= k < |cells[l].animals|
        ensures Births(cells[l], cells[l].animals[k], curve, u(cells[l].animals[k])) == Success(0)
      {
        var i :| 0 <= i < |order| && order[i] == l;
      }
    }

    /** `herds` holds every animal living on the island. */
    ghost predicate Holds(herds: set<Animal>)
      reads this, cells.Values
    {
      forall l, x :: l in cells && x in cells[l].animals ==> x in herds
    }

    /** The coordinates of the cells animals can enter. */
    ghost function Enterable(): set<Loc> {
      set l | l in cells && cells[l].canEnter
    }

    /**
     * `procreation` as intended: the passable cells in map order, each by
     * `ProcreationAt`. `w0` records the weights at the start and `log` the
     * birth weights of every cell the pass reached, as `BredIn` describes.
     * Only passable cells change, each keeps its residents in place and at
     * most doubles; the pass reaches every passable cell unless a draw
     * raises, and then stops with that draw's `ValueError`.
     */
    method ProcreationWith(curve: Curve, u: Animal -> real, draws: (Loc, nat) -> nat -> real, loss: (real, real) -> real,
                           ghost herds: set<Animal>)
      returns (r: Outcome<Error>, ghost w0: map<Animal, Snapshot>, ghost log: map<Loc, seq<real>>)
      requires Valid() && Holds(herds)
      requires PositiveDraws(draws)
      modifies cells.Values`animals, herds`weight
      ensures Valid()
      ensures Bred(old(Residents()), Residents(), Enterable())
      ensures forall x :: x in herds ==> x in w0 && w0[x] == old(Snap(x))
      ensures log.Keys <= Enterable()
      ensures forall m :: m in log ==> BredIn(cells[m], old(Residents())[m], log[m], w0, curve, u, m, draws, loss)
      ensures forall m, j :: m in log && |old(Residents())[m]| <= j < |cells[m].animals| ==> fresh(cells[m].animals[j])
      ensures forall m :: m in cells && m !in log ==> Residents()[m] == old(Residents())[m]
      ensures forall m, x :: m in cells && m !in log && x in old(Residents())[m] ==> x.weight == old(x.weight)
      ensures r.Pass? ==> log.Keys == Enterable() && forall m :: m in log ==> |log[m]| == |old(Residents())[m]|
      ensures r.Fail? ==> r.error.ValueError? && exists m :: m in log && FailedAt(old(Residents())[m], log[m], w0, curve, u, r.error)
    {
      ghost var before, census, fin, born, reached;
      r, w0, log, before, census, fin, born, reached := ProcreationSweep(curve, u, draws, loss, herds);
      SweepSummary(before, census, fin, log, born, reached, w0, r, curve, u, draws, loss);
      forall m, j | m in log && |before[m]| <= j < |cells[m].animals|
        ensures fresh(cells[m].animals[j])
      {
        assert cells[m].animals[j] in born;
      }
      forall m, x: Animal | m in cells && m !in log && x in before[m]
        ensures x.weight == old(x.weight)
      {
        assert x in old(cells[m].animals) && x in herds && x.weight == w0[x].weight;
      }
    }

    /**
     * What a finished pass of `ProcreationSweep` leaves, in terms of the
     * residents `before` it and the attributes `w0` it recorded: the cells
     * it reached bred as `BredIn` describes, every other cell and its
     * residents are as they were.
     */
    lemma SweepSummary(before: Census, census: Census, fin: map<Loc, seq<(Species, int, real)>>, log: map<Loc, seq<real>>,
                       born: set<Animal>, reached: nat, w0: map<Animal, Snapshot>, r: Outcome<Error>, curve: Curve,
                       u: Animal -> real, draws: (Loc, nat) -> nat -> real, loss: (real, real) -> real)
      requires (forall l :: l in cells ==> l in order) && census == Residents()
      requires reached <= |order| && (r.Pass? ==> reached == |order|)
      requires Swept(order, Enterable(), reached, r, before, census, fin, log, born, w0, curve, u, draws, loss)
      requires forall m :: m in log ==> m in fin && m in cells && cells[m].canEnter && |fin[m]| == |census[m]|
      requires Tracked(before, census, fin, log, w0)
      ensures Bred(before, Residents(), Enterable())
      ensures log.Keys <= Enterable()
      ensures forall m :: m in log ==> BredIn(cells[m], before[m], log[m], w0, curve, u, m, draws, loss)
      ensures forall m, j :: m in log && |before[m]| <= j < |cells[m].animals| ==> cells[m].animals[j] in born
      ensures forall m :: m in cells && m !in log ==> Residents()[m] == before[m]
      ensures forall m, x :: m in cells && m !in log && x in before[m] ==> x in w0 && x.weight == w0[x].weight
      ensures r.Pass? ==> log.Keys == Enterable() && forall m :: m in log ==> |log[m]| == |before[m]|
      ensures r.Fail? ==> r.error.ValueError? && exists m :: m in log && FailedAt(before[m], log[m], w0, curve, u, r.error)
    {
      SweptDone(order, Enterable(), reached, r, before, census, fin, log, born, w0, curve, u, draws, loss);
      LoggedBredIn(census, fin, before, log, w0, curve, u, draws, loss);
      TrackedUnreached(before, census, fin, log, w0);
      if r.Pass? {
        forall m | m in Enterable()
          ensures m in log
        {
          assert m in cells && m in order;
        }
      }
    }

    /**
     * The cells in `log`, whose residents `census` records with
     * statuses `fin`, bred from `before` as `BredIn` describes.
     */
    lemma LoggedBredIn(census: Census, fin: map<Loc, seq<(Species, int, real)>>, before: Census, log: map<Loc, seq<real>>,
                       w0: map<Animal, Snapshot>, curve: Curve, u: Animal -> real, draws: (Loc, nat) -> nat -> real,
                       loss: (real, real) -> real)
      requires census == Residents()
      requires forall m :: m in log ==> m in fin && m in cells && |fin[m]| == |census[m]|
      requires Logged(census, fin, before, log, w0, curve, u, draws, loss)
      requires Tracked(before, census, fin, log, w0)
      ensures forall m :: m in log ==> BredIn(cells[m], before[m], log[m], w0, curve, u, m, draws, loss)
    {
      forall m | m in log
        ensures BredIn(cells[m], before[m], log[m], w0, curve, u, m, draws, loss)
      {
        assert cells[m].animals == census[m];
        ValBredIn(cells[m], before[m], log[m], w0, curve, u, m, draws, loss, fin[m]);
      }
    }

    /**
     * The loop of `ProcreationWith`: the passable cells in map order, each
     * by `ProcreationStep`, until every cell is visited or a draw raises.
     * `census` holds the residents afterwards, `fin` their statuses for
     * every cell reached and `born` every newborn.
     */
    method ProcreationSweep(curve: Curve, u: Animal -> real, draws: (Loc, nat) -> nat -> real, loss: (real, real) -> real,
                            ghost herds: set<Animal>)
      returns (r: Outcome<Error>, ghost w0: map<Animal, Snapshot>, ghost log: map<Loc, seq<real>>,
               ghost before: Census, ghost census: Census, ghost fin: map<Loc, seq<(Species, int, real)>>,
               ghost born: set<Animal>, ghost reached: nat)
      requires Valid() && Holds(herds)
      requires PositiveDraws(draws)
      modifies cells.Values`animals, herds`weight
      ensures Valid() && census == Residents() && before == old(Residents())
      ensures forall x :: x in herds ==> x in w0 && w0[x] == old(Snap(x))
      ensures reached <= |order| && (r.Pass? ==> reached == |order|)
      ensures Swept(order, Enterable(), reached, r, before, census, fin, log, born, w0, curve, u, draws, loss)
      ensures forall m :: m in log ==> m in fin && m in cells && cells[m].canEnter && |fin[m]| == |census[m]|
      ensures Tracked(before, census, fin, log, w0)
      ensures forall x :: x in born ==> fresh(x)
    {
      before := Residents();
      w0 := map x | x in herds :: Snap(x);
      log, fin, census, born := map[], map[], before, {};
      r := Pass;
      var k := 0;
      while k < |order| && r.Pass?
        invariant 0 <= k <= |order|
        invariant Valid() && census == Residents()
        invariant Swept(order, Enterable(), k, r, before, census, fin, log, born, w0, curve, u, draws, loss)
        invariant forall m :: m in log ==> m in fin && m in cells && cells[m].canEnter && |fin[m]| == |census[m]|
        invariant Tracked(before, census, fin, log, w0)
        invariant forall x :: x in born ==> fresh(x)
      {
        ghost var born0 := born;
        r, log, fin, census, born := SweepStep(k, curve, u, draws, loss, herds, before, w0, log, fin, census, born);
        forall x | x in born
          ensures fresh(x)
        {
          if x !in born0 {
            assert fresh(x);
          }
        }
        k := k + 1;
      }
      reached := k;
    }

    /**
     * One cell of the pass of `ProcreationSweep`: the cell `order[k]`, by
     * `ProcreationStep` when it is passable; the records of the pass
     * describe one more cell of `order`.
     */
    method SweepStep(k: nat, curve: Curve, u: Animal -> real, draws: (Loc, nat) -> nat -> real, loss: (real, real) -> real,
                     ghost herds: set<Animal>, ghost before: Census, ghost w0: map<Animal, Snapshot>,
                     ghost log: map<Loc, seq<real>>, ghost fin: map<Loc, seq<(Species, int, real)>>, ghost census: Census,
                     ghost born: set<Animal>)
      returns (r: Outcome<Error>, ghost log': map<Loc, seq<real>>, ghost fin': map<Loc, seq<(Species, int, real)>>,
               ghost census': Census, ghost born': set<Animal>)
      requires k < |order| && Valid() && census == Residents() && before.Keys == cells.Keys
      requires Swept(order, Enterable(), k, Pass, before, census, fin, log, born, w0, curve, u, draws, loss)
      requires forall x :: x in w0 ==> x in herds
      requires PositiveDraws(draws)
      requires forall m :: m in log ==> m in fin && m in cells && cells[m].canEnter && |fin[m]| == |census[m]|
      requires Tracked(before, census, fin, log, w0)
      modifies cells.Values`animals, herds`weight
      ensures Valid() && census' == Residents()
      ensures Swept(order, Enterable(), k + 1, r, before, census', fin', log', born', w0, curve, u, draws, loss)
      ensures forall m :: m in log' ==> m in fin' && m in cells && cells[m].canEnter && |fin'[m]| == |census'[m]|
      ensures Tracked(before, census', fin', log', w0)
      ensures forall x :: x in born' ==> x in born || fresh(x)
    {
      var l := order[k];
      var c := cells[l];
      ghost var births: seq<real> := [];
      r, log', fin', census', born' := Pass, log, fin, census, born;
      if c.canEnter {
        assert l in Enterable() && l !in log && c.animals == census[l] == before[l];
        assert forall x :: x in c.animals ==> x in herds;
        ghost var sts, newborns;
        r, births, sts, log', fin', census', newborns := ProcreationStep(l, c, curve, u, draws, loss, before, w0, log, fin, census);
        born' := born + newborns;
      }
      SweptNext(order, Enterable(), k, r, before, census, census', fin, fin', log, log', born, born', births, w0, curve, u,
                draws, loss);
    }

    /**
     * The pass of `ProcreationWith` reaching the passable cell at `l`:
     * `ProcreationIn` there, with the residents of every other cell as
     * the animals that keep their state. `log` and `fin` gain the cell's
     * birth weights and final statuses and keep describing every cell
     * reached so far.
     */
    method ProcreationStep(l: Loc, c: Cell, curve: Curve, u: Animal -> real, draws: (Loc, nat) -> nat -> real,
                           loss: (real, real) -> real, ghost before: Census, ghost w0: map<Animal, Snapshot>,
                           ghost log: map<Loc, seq<real>>, ghost fin: map<Loc, seq<(Species, int, real)>>, ghost census: Census)
      returns (r: Outcome<Error>, ghost births: seq<real>, ghost sts: seq<(Species, int, real)>,
              ghost log': map<Loc, seq<real>>, ghost fin': map<Loc, seq<(Species, int, real)>>, ghost after: Census,
              ghost newborns: set<Animal>)
      requires Valid() && census == Residents() && l in cells && cells[l] == c && l !in log && l in before
      requires PositiveDraws(draws)
      requires forall m :: m in log ==> m in fin && m in cells && |fin[m]| == |census[m]|
      requires Bred(before, census, log.Keys)
      requires Logged(census, fin, before, log, w0, curve, u, draws, loss)
      requires forall m, j :: m in log && 0 <= j < |census[m]| ==> Status(census[m][j]) == fin[m][j]
      requires forall m :: m in before && m !in log ==> forall x :: x in before[m] ==> x in w0 && Snap(x) == w0[x]
      requires forall m :: m in log ==> forall x :: x in before[m] ==> x in w0 && x.params.table == w0[x].table
      modifies c`animals, ToSet(c.animals)`weight
      ensures Valid() && Residents() == after == census[l := c.animals]
      ensures log' == log[l := births] && fin' == fin[l := sts]
      ensures Bred(before, after, log'.Keys)
      ensures forall m :: m in log' ==> m in fin' && |fin'[m]| == |after[m]|
      ensures Logged(after, fin', before, log', w0, curve, u, draws, loss)
      ensures forall m, j :: m in log' && 0 <= j < |after[m]| ==> Status(after[m][j]) == fin'[m][j]
      ensures newborns == Tail(after[l], |before[l]|) && forall x :: x in newborns ==> fresh(x)
      ensures forall m :: m in before && m !in log' ==> forall x :: x in before[m] ==> x in w0 && Snap(x) == w0[x]
      ensures forall m :: m in log' ==> forall x :: x in before[m] ==> x in w0 && x.params.table == w0[x].table
      ensures r.Pass? ==> |births| == |before[l]|
      ensures r.Fail? ==> r.error.ValueError? && FailedAt(before[l], births, w0, curve, u, r.error)
    {
      assert c.animals == before[l] == census[l];
      r, births, sts, after, fin' := ProcreationKept(l, c, curve, u, draws, loss, w0, census, fin, log.Keys);
      BredStep(before, census, after, log.Keys, l);
      LogStep(before, census, after, log, fin, l, births, sts, w0, curve, u, draws, loss);
      log' := log[l := births];
      newborns := Tail(after[l], |before[l]|);
      forall m, x | m in before && m !in log' && x in before[m]
        ensures x in w0 && Snap(x) == w0[x]
      {
        assert m != l && m !in log.Keys;
        assert Bred(before, census, log.Keys);
        assert before[m] == census[m] && m in census;
        assert x in w0 && old(Snap(x)) == w0[x];
        assert Snap(x) == old(Snap(x));
      }
      forall m, x | m in log' && x in before[m]
        ensures x in w0 && x.params.table == w0[x].table
      {
        if m == l {
          var j :| 0 <= j < |before[l]| && before[l][j] == x;
          assert Recorded(before[l], w0);
        } else {
          assert m in log && before[m] <= census[m];
          assert x in census[m] && Snap(x) == old(Snap(x));
        }
      }
    }

    /**
     * `ProcreationIn` with the residents of every other cell as the
     * animals that keep their state; `census` is the island's residents
     * when the pass reaches the cell.
     */
    method ProcreationKept(l: Loc, c: Cell, curve: Curve, u: Animal -> real, draws: (Loc, nat) -> nat -> real,
                           loss: (real, real) -> real, ghost w0: map<Animal, Snapshot>, ghost census: Census,
                           ghost fin: map<Loc, seq<(Species, int, real)>>, ghost done: set<Loc>)
      returns (r: Outcome<Error>, ghost births: seq<real>, ghost sts: seq<(Species, int, real)>,
               ghost after: Census, ghost fin': map<Loc, seq<(Species, int, real)>>)
      requires Valid() && l in cells && cells[l] == c && census == Residents()
      requires l !in done && forall m :: m in done ==> m in census && m in fin && |fin[m]| == |census[m]|
      requires forall m, j :: m in done && 0 <= j < |census[m]| ==> Status(census[m][j]) == fin[m][j]
      requires forall x :: x in c.animals ==> x in w0 && Snap(x) == w0[x]
      requires PositiveDraws(draws)
      modifies c`animals, ToSet(c.animals)`weight
      ensures Valid() && Residents() == after == census[l := c.animals] && fin' == fin[l := sts]
      ensures BredVal(c.animals, sts, old(c.animals), births, w0, curve, u, l, draws, loss)
      ensures old(c.animals) <= c.animals && |c.animals| <= 2 * |old(c.animals)|
      ensures forall k :: 0 <= k < |c.animals| ==> Status(c.animals[k]) == sts[k]
      ensures forall k :: |old(c.animals)| <= k < |c.animals| ==> fresh(c.animals[k])
      ensures r.Pass? ==> |births| == |old(c.animals)|
      ensures r.Fail? ==> FailedAt(old(c.animals), births, w0, curve, u, r.error) && r.error.ValueError?
      ensures forall m, j :: (m in done || m == l) && 0 <= j < |after[m]| ==> Status(after[m][j]) == fin'[m][j]
      ensures forall m :: m in census && m != l ==> forall x :: x in census[m] ==> Snap(x) == old(Snap(x))
      ensures Recorded(old(c.animals), w0)
    {
      ghost var others := set m, x | m in census && m != l && x in census[m] :: x;
      assert forall x :: x in others ==> x !in c.animals;
      r, births, sts := ProcreationIn(l, c, curve, u, draws, loss, w0, others);
      after, fin' := census[l := c.animals], fin[l := sts];
      forall m, j | m in done && 0 <= j < |census[m]|
        ensures Status(census[m][j]) == fin[m][j]
      {
        assert census[m][j] in census[m];
        assert census[m][j] in others;
      }
      assert after[l] == c.animals && fin'[l] == sts;
      forall m, x | m in census && m != l && x in census[m]
        ensures Snap(x) == old(Snap(x))
      {
        assert x in others;
      }
    }

    /**
     * `ProcreationAt`, stated on values: `sts` holds the statuses of the
     * cell's animals afterwards, and the animals `others`, none of which
     * is in the cell, keep their statuses and attributes.
     */
    method ProcreationIn(l: Loc, c: Cell, curve: Curve, u: Animal -> real, draws: (Loc, nat) -> nat -> real, loss: (real, real) -> real,
                         ghost w0: map<Animal, Snapshot>, ghost others: set<Animal>)
      returns (r: Outcome<Error>, ghost births: seq<real>, ghost sts: seq<(Species, int, real)>)
      requires Valid() && l in cells && cells[l] == c && Distinct(c.animals)
      requires forall x :: x in c.animals ==> x in w0 && Snap(x) == w0[x]
      requires PositiveDraws(draws)
      requires forall x :: x in others ==> x !in c.animals
      modifies c`animals, ToSet(c.animals)`weight
      ensures Valid() && Residents() == old(Residents())[l := c.animals]
      ensures BredVal(c.animals, sts, old(c.animals), births, w0, curve, u, l, draws, loss)
      ensures old(c.animals) <= c.animals && |c.animals| <= 2 * |old(c.animals)|
      ensures forall k :: 0 <= k < |c.animals| ==> Status(c.animals[k]) == sts[k]
      ensures forall k :: |old(c.animals)| <= k < |c.animals| ==> fresh(c.animals[k])
      ensures r.Pass? ==> |births| == |old(c.animals)|
      ensures r.Fail? ==> FailedAt(old(c.animals), births, w0, curve, u, r.error) && r.error.ValueError?
      ensures forall x :: x in others ==> Status(x) == old(Status(x)) && Snap(x) == old(Snap(x))
      ensures Recorded(old(c.animals), w0)
    {
      r, births := ProcreationAt(l, c, curve, u, draws, loss, w0);
      sts := StatusesOf(c.animals);
      BredInVal(c, old(c.animals), births, w0, curve, u, l, draws, loss, sts);
      BredValGrows(c.animals, sts, old(c.animals), births, w0, curve, u, l, draws, loss);
    }

    /**
     * The inner loop of `procreation` in the passable cell at `l`, as
     * intended: each animal that was a resident when the pass reached the
     * cell draws `prob_procreation` with its species' current count, and
     * a draw of 1 calls `add_offspring`. `births` records each resident's
     * birth weight, or 0, as `BredIn` describes; the pass stops at a draw
     * that raises. Only this cell and its residents' weights change.
     */
    method ProcreationAt(l: Loc, c: Cell, curve: Curve, u: Animal -> real, draws: (Loc, nat) -> nat -> real, loss: (real, real) -> real,
                         ghost w0: map<Animal, Snapshot>)
      returns (r: Outcome<Error>, ghost births: seq<real>)
      requires Valid() && l in cells && cells[l] == c && Distinct(c.animals)
      requires forall x :: x in c.animals ==> x in w0 && Snap(x) == w0[x]
      requires PositiveDraws(draws)
      modifies c`animals, ToSet(c.animals)`weight
      ensures Valid()
      ensures Residents() == old(Residents())[l := c.animals]
      ensures BredIn(c, old(c.animals), births, w0, curve, u, l, draws, loss)
      ensures forall k :: |old(c.animals)| <= k < |c.animals| ==> fresh(c.animals[k])
      ensures r.Pass? ==> |births| == |old(c.animals)|
      ensures r.Fail? ==> FailedAt(old(c.animals), births, w0, curve, u, r.error) && r.error.ValueError?
    {
      var herd := c.animals;
      births := [];
      assert c.animals[|herd|..] == [];
      var i := 0;
      while i < |herd|
        invariant 0 <= i <= |herd| && |births| == i
        invariant Valid()
        invariant Residents() == old(Residents())[l := c.animals]
        invariant BredIn(c, herd, births, w0, curve, u, l, draws, loss)
        invariant forall k :: |herd| <= k < |c.animals| ==> fresh(c.animals[k])
        invariant forall k :: |herd| <= k < |c.animals| ==> c.animals[k] !in herd
      {
        ghost var prev := c.animals;
        assert forall k :: |herd| <= k < |prev| ==> fresh(prev[k]) && prev[k] !in herd;
        assert herd[i] in ToSet(herd);
        var w;
        r, w := BirthTurn(l, c, herd, i, curve, u, draws, loss, w0, births);
        UpdatedTwice(old(Residents()), l, prev, c.animals);
        AfterTurnFresh(herd, prev, c.animals);
        if r.Fail? {
          return;
        }
        births := births + [w];
        i := i + 1;
      }
      r := Pass;
    }

    /**
     * A list whose animals after the herd are new, grown by at most one new
     * animal, still has only new animals after the herd.
     */
    twostate lemma AfterTurnFresh(herd: seq<Animal>, new prev: seq<Animal>, new now: seq<Animal>)
      requires forall k :: |herd| <= k < |prev| ==> fresh(prev[k]) && prev[k] !in herd
      requires prev <= now && |now| <= |prev| + 1
      requires |now| == |prev| + 1 ==> fresh(now[|prev|])
      ensures forall k :: |herd| <= k < |now| ==> fresh(now[k]) && now[k] !in herd
    {
      forall k | |herd| <= k < |now|
        ensures fresh(now[k]) && now[k] !in herd
      {
        if k < |prev| {
          assert now[k] == prev[k];
        }
      }
    }

    /**
     * The turn of `herd[i]` in `ProcreationAt`, after the turns `births`
     * records: its draw, which stops the pass when it raises, and on a
     * draw of 1 its newborn and weight loss, so that `births + [w]`
     * describes the pass so far.
     */
    method BirthTurn(l: Loc, c: Cell, herd: seq<Animal>, i: nat, curve: Curve, u: Animal -> real,
                     draws: (Loc, nat) -> nat -> real, loss: (real, real) -> real,
                     ghost w0: map<Animal, Snapshot>, ghost births: seq<real>)
      returns (r: Outcome<Error>, w: real)
      requires Valid() && l in cells && cells[l] == c && i == |births| < |herd|
      requires BredIn(c, herd, births, w0, curve, u, l, draws, loss) && Distinct(herd)
      requires forall k :: |herd| <= k < |c.animals| ==> c.animals[k] !in herd
      requires PositiveDraws(draws)
      modifies c`animals, {herd[i]}`weight
      ensures Valid() && Residents() == old(Residents())[l := c.animals]
      ensures old(c.animals) <= c.animals && |c.animals| <= |old(c.animals)| + 1
      ensures |c.animals| == |old(c.animals)| + 1 ==> fresh(c.animals[|old(c.animals)|])
      ensures r.Pass? ==> BredIn(c, herd, births + [w], w0, curve, u, l, draws, loss)
      ensures r.Fail? ==> BredIn(c, herd, births, w0, curve, u, l, draws, loss)
      ensures r.Fail? ==> FailedAt(herd, births, w0, curve, u, r.error) && r.error.ValueError?
    {
      var a := herd[i];
      assert a == c.animals[i];
      TurnDraw(c, herd, births, w0, curve, u, l, draws, loss);
      var draw := Births(c, a, curve, u(a));
      if draw.Failure? {
        return Fail(draw.error), 0.0;
      }
      w := Deliver(l, c, herd, i, draw.value, curve, u, draws, loss, w0, births);
      r := Pass;
    }

    /**
     * The rest of the turn of `herd[i]` after its draw `birth`: on a draw
     * of 1, its newborn and weight loss, so that `births + [w]` describes
     * the pass so far.
     */
    method Deliver(l: Loc, c: Cell, herd: seq<Animal>, i: nat, birth: nat, curve: Curve, u: Animal -> real,
                     draws: (Loc, nat) -> nat -> real, loss: (real, real) -> real,
                     ghost w0: map<Animal, Snapshot>, ghost births: seq<real>)
      returns (w: real)
      requires Valid() && l in cells && cells[l] == c && i == |births| < |herd|
      requires BredIn(c, herd, births, w0, curve, u, l, draws, loss) && Distinct(herd)
      requires forall k :: |herd| <= k < |c.animals| ==> c.animals[k] !in herd
      requires DrawAt(herd, births, w0, curve, u, i) == Success(birth)
      requires PositiveDraws(draws)
      modifies c`animals, {herd[i]}`weight
      ensures Valid() && Residents() == old(Residents())[l := c.animals]
      ensures old(c.animals) <= c.animals && |c.animals| <= |old(c.animals)| + 1
      ensures |c.animals| == |old(c.animals)| + 1 ==> fresh(c.animals[|old(c.animals)|])
      ensures BredIn(c, herd, births + [w], w0, curve, u, l, draws, loss)
    {
      ghost var before := c.animals;
      ghost var sts := seq(|before|, k requires 0 <= k < |before| reads before => Status(before[k]));
      BredInVal(c, herd, births, w0, curve, u, l, draws, loss, sts);
      w := TurnStep(l, c, i, birth, draws, loss, before, sts);
      TurnBred(c, herd, births, w, w0, curve, u, l, draws, loss, before, sts, Success(birth));
    }

    /**
     * `BreedOne` for the `i`-th animal of the cell's list `before`, with
     * what it leaves alone: every other animal's status; `sts` holds the
     * statuses before the turn.
     */
    method TurnStep(l: Loc, c: Cell, i: nat, birth: nat, draws: (Loc, nat) -> nat -> real,
                    loss: (real, real) -> real, ghost before: seq<Animal>, ghost sts: seq<(Species, int, real)>)
      returns (w: real)
      requires Valid() && l in cells && cells[l] == c && before == c.animals && i < |before|
      requires |sts| == |before| && forall k :: 0 <= k < |before| ==> Status(before[k]) == sts[k]
      requires PositiveDraws(draws)
      modifies c`animals, {before[i]}`weight
      ensures Valid() && Residents() == old(Residents())[l := c.animals]
      ensures w > 0.0 <==> birth != 0
      ensures w > 0.0 ==> FirstPositive(draws(l, i), w)
      ensures before <= c.animals && |c.animals| == |before| + (if w > 0.0 then 1 else 0)
      ensures |c.animals| == |before| + 1 ==> fresh(c.animals[|before|])
      ensures w > 0.0 ==> Status(c.animals[|before|]) == (before[i].params.species, 0, w)
      ensures before[i].weight == (if w > 0.0 then loss(sts[i].2, w) else sts[i].2) && before[i].age == sts[i].1
      ensures forall k :: 0 <= k < |before| && before[k] != before[i] ==> Status(before[k]) == sts[k]
    {
      var a := c.animals[i];
      w := BreedOne(l, c, a, birth, draws(l, i), loss);
    }

    /**
     * One resident's turn in `procreation` after its draw `birth`:
     * `add_offspring` when the draw is 1. `w` is the birth weight, 0 when
     * there is no birth.
     */
    method BreedOne(l: Loc, c: Cell, a: Animal, birth: nat, draws: nat -> real, loss: (real, real) -> real)
      returns (w: real)
      requires Valid() && l in cells && cells[l] == c && a in c.animals
      requires exists i: nat :: draws(i) > 0.0
      modifies c`animals, a`weight
      ensures Valid() && Residents() == old(Residents())[l := c.animals]
      ensures birth != 0 ==>
        && w > 0.0 && FirstPositive(draws, w)
        && a.weight == loss(old(a.weight), w)
        && |c.animals| == |old(c.animals)| + 1 && old(c.animals) <= c.animals
        && fresh(c.animals[|old(c.animals)|]) && Status(c.animals[|old(c.animals)|]) == (a.params.species, 0, w)
      ensures birth == 0 ==> w == 0.0 && c.animals == old(c.animals) && a.weight == old(a.weight)
    {
      w := 0.0;
      if birth != 0 {
        w := AddOffspring(a, l, c, draws, loss);
      }
    }
  }
}
