/**
 * The `BioSim` front end: its own copy of the map validation, the
 * coordinate dictionary it builds from its default map (keys counted from
 * 1), adding a population list to that dictionary, the constructor that
 * chains these, and the dispatch of parameter settings to the animal and
 * landscape classes.
 */
module Simulation {
  import opened Wrappers
  import opened Errors
  import opened IslandMap
  import opened Animal
  import opened Cell
  import opened DefaultIsland
  import Rossumoya

  // ---------------------------------------------------------------------
  // check_map_input
  // ---------------------------------------------------------------------

  /**
   * `BioSim.check_map_input(island_map)`: the rules of `CheckRows` with the
   * last row and the last character of each row read at index `n - 1`.
   * It accepts and rejects the same strings, with the same exception, as
   * `Rossumoya.check_map_input`, which reads them at index -1.
   */
  function CheckMapInput(input: string): (r: Outcome<Error>)
    ensures r == Rossumoya.CheckMapInput(input)
    ensures r == Pass <==> WellFormed(Rossumoya.Rows(input))
  {
    IndexStylesAgree(Rossumoya.Rows(input));
    CheckRowsAccepts(Rossumoya.Rows(input), false);
    CheckRows(Rossumoya.Rows(input), false)
  }

  /** The default map passes the simulator's own check. */
  lemma DefaultMapAccepted()
    ensures CheckMapInput(DefaultMap) == Pass
  {
    DefaultMapWellFormed();
  }

  /** The lines of the default map use only the five landscape codes. */
  lemma DefaultMapCodes()
    ensures ValidCodes(Rossumoya.Rows(DefaultMap))
  {
    DefaultRowsSplit();
    DefaultCodes();
  }

  // ---------------------------------------------------------------------
  // make_geography_coordinates
  // ---------------------------------------------------------------------

  /**
   * The value of one key of the coordinate dictionary: its `"cell type"`,
   * its `"total pop"`, and the `(age, weight)` of each animal appended to
   * its `"Herbivores"` and `"Carnivores"` lists, in order.
   */
  datatype Place = Place(kind: Terrain, totalPop: int, herbivores: seq<(int, real)>, carnivores: seq<(int, real)>)

  /** The coordinate dictionary `island_map`. */
  type Grid = map<Loc, Place>

  /** A new entry of cell type `kind`: no population counted and no animals. */
  function Blank(kind: Terrain): Place {
    Place(kind, 0, [], [])
  }

  /** The entry of `g` at `l` is a new one for the character of `rows` at `l`, counted from 1. */
  predicate NewEntryAt(rows: seq<string>, g: Grid, l: Loc)
    requires l in g
  {
    InLayout(rows, 1, l) && CellCode(CharAt(rows, 1, l)) == Some(g[l].kind) && g[l] == Blank(g[l].kind)
  }

  /** One new entry per character of `rows`, keyed by its row and column counted from 1. */
  function Coordinates(rows: seq<string>): (g: Grid)
    requires ValidCodes(rows)
    ensures forall l :: l in g <==> InLayout(rows, 1, l)
    ensures forall l :: l in g ==> NewEntryAt(rows, g, l)
  {
    OrderIsLayout(rows, 1);
    map l | l in Order(rows, 1) :: Blank(CellCode(CharAt(rows, 1, l)).value)
  }

  /** The dictionary `make_geography_coordinates` returns, whatever map it is given. */
  function DefaultGrid(): Grid {
    DefaultCodes();
    Coordinates(DefaultRows)
  }

  /** The keys of the dictionary of a map of `h` rows of `w` characters. */
  lemma CoordinatesKeys(rows: seq<string>, h: nat, w: nat)
    requires ValidCodes(rows) && |rows| == h && forall i :: 0 <= i < h ==> |rows[i]| == w
    ensures forall l :: l in Coordinates(rows) <==> 1 <= l.0 <= h && 1 <= l.1 <= w
  {
  }

  /** The default dictionary has the keys (1, 1) to (13, 21), each a new entry, with ocean at the corners. */
  lemma DefaultGridKeys()
    ensures forall l :: l in DefaultGrid() <==> 1 <= l.0 <= 13 && 1 <= l.1 <= 21
    ensures forall l :: l in DefaultGrid() ==> DefaultGrid()[l] == Blank(DefaultGrid()[l].kind)
    ensures DefaultGrid()[(1, 1)].kind == Ocean && DefaultGrid()[(13, 21)].kind == Ocean
  {
    DefaultCodes();
    DefaultShape();
    CoordinatesKeys(DefaultRows, 13, 21);
    var g := DefaultGrid();
    assert NewEntryAt(DefaultRows, g, (1, 1)) && NewEntryAt(DefaultRows, g, (13, 21));
  }

  /**
   * The two nested `enumerate` loops of `make_geography_coordinates` over
   * the lines `rows`: each character gets a new entry of its cell type at
   * its row and column counted from 1.
   */
  method LayOut(rows: seq<string>) returns (g: Grid)
    requires ValidCodes(rows)
    ensures g == Coordinates(rows)
  {
    g := map[];
    var i := 0;
    while i < |rows|
      invariant 0 <= i <= |rows|
      invariant forall l :: l in g <==> Visited(rows, i, 0, l)
      invariant forall l :: l in g ==> NewEntryAt(rows, g, l)
    {
      var line := rows[i];
      var j := 0;
      while j < |line|
        invariant 0 <= j <= |line|
        invariant forall l :: l in g <==> Visited(rows, i, j, l)
        invariant forall l :: l in g ==> NewEntryAt(rows, g, l)
      {
        var kind := CellCode(line[j]);
        g := g[(i + 1, j + 1) := Place(kind.value, 0, [], [])];
        j := j + 1;
      }
      assert forall l :: Visited(rows, i, j, l) <==> Visited(rows, i + 1, 0, l);
      i := i + 1;
    }
    var spec := Coordinates(rows);
    forall l | l in g
      ensures g[l] == spec[l]
    {
      assert NewEntryAt(rows, g, l) && NewEntryAt(rows, spec, l);
    }
  }

  // ---------------------------------------------------------------------
  // add_population
  // ---------------------------------------------------------------------

  /** One animal entry of the population list, with the location of its placement. */
  type Item = (Loc, PopEntry)

  /** The entries of one placement, each with its location. */
  function ItemsOf(l: Loc, pop: seq<PopEntry>): seq<Item> {
    seq(|pop|, i requires 0 <= i < |pop| => (l, pop[i]))
  }

  /** The entries of all placements in the order the two loops of `add_population` visit them. */
  function Items(ps: seq<Rossumoya.Placement>): seq<Item> {
    if |ps| == 0 then [] else Items(ps[..|ps| - 1]) + ItemsOf(ps[|ps| - 1].loc, ps[|ps| - 1].pop)
  }

  /**
   * The exception one entry raises on a dictionary with the keys `keys`,
   * if any: an entry of another species is skipped without a lookup; for
   * the two species `island_map[location]` raises `KeyError` before the
   * constructor can raise its `ValueError`.
   */
  function Fault(keys: set<Loc>, x: Item): Option<Error> {
    if EntrySpecies(x.1).None? then None
    else if x.0 !in keys then Some(KeyError)
    else EntryError(x.1)
  }

  /** The `(age, weight)` the constructor gives the animal of an entry of a known species. */
  function AgeWeight(e: PopEntry): (int, real)
    requires EntrySpecies(e).Some?
  {
    (Describe(e).1, Describe(e).2)
  }

  /** The animal entry `x` adds to the list of species `s` at `l`: itself, or nothing. */
  function Single(x: Item, l: Loc, s: Species): seq<(int, real)> {
    if x.0 == l && EntrySpecies(x.1) == Some(s) then [AgeWeight(x.1)] else []
  }

  /** `p` with the animals `hs` and `cs` appended to its two lists. */
  function Extended(p: Place, hs: seq<(int, real)>, cs: seq<(int, real)>): Place {
    p.(herbivores := p.herbivores + hs, carnivores := p.carnivores + cs)
  }

  /** Appending twice is appending the two parts one after the other. */
  lemma ExtendedTwice(p: Place, hs: seq<(int, real)>, cs: seq<(int, real)>, hs': seq<(int, real)>, cs': seq<(int, real)>)
    ensures Extended(Extended(p, hs, cs), hs', cs') == Extended(p, hs + hs', cs + cs')
  {
    assert p.herbivores + hs + hs' == p.herbivores + (hs + hs');
    assert p.carnivores + cs + cs' == p.carnivores + (cs + cs');
  }

  /** An entry that raises nothing, appended to the list of its species at its location. */
  function Append(g: Grid, x: Item): (h: Grid)
    requires Fault(g.Keys, x).None?
    ensures h.Keys == g.Keys
  {
    match EntrySpecies(x.1)
    case None => g
    case Some(s) =>
      var p := g[x.0];
      if s == Herbivore then g[x.0 := p.(herbivores := p.herbivores + [AgeWeight(x.1)])]
      else g[x.0 := p.(carnivores := p.carnivores + [AgeWeight(x.1)])]
  }

  /** What `add_population` leaves: the exception it raises, or `Pass`, and the dictionary. */
  datatype Added = Added(outcome: Outcome<Error>, grid: Grid)

  /**
   * What `add_population` does with the entries `xs`, one after the
   * other: the first exception stops it, and what was appended before
   * stays. The keys never change.
   */
  function Populate(g: Grid, xs: seq<Item>): (r: Added)
    ensures r.grid.Keys == g.Keys
  {
    if |xs| == 0 then Added(Pass, g)
    else
      var prior := Populate(g, xs[..|xs| - 1]);
      var x := xs[|xs| - 1];
      if prior.outcome.Fail? then prior
      else match Fault(prior.grid.Keys, x)
        case Some(e) => Added(Fail(e), prior.grid)
        case None => Added(Pass, Append(prior.grid, x))
  }

  /** The position of the first entry that raises, or `|xs|`. */
  function FirstFault(keys: set<Loc>, xs: seq<Item>): (k: nat)
    ensures k <= |xs|
    ensures k < |xs| ==> Fault(keys, xs[k]).Some?
  {
    if |xs| == 0 then 0
    else
      var k := FirstFault(keys, xs[..|xs| - 1]);
      if k < |xs| - 1 || Fault(keys, xs[|xs| - 1]).Some? then k else |xs|
  }

  /** No entry before the first failing one raises. */
  lemma {:induction false} FirstFaultIsFirst(keys: set<Loc>, xs: seq<Item>, j: nat)
    requires j < FirstFault(keys, xs)
    ensures Fault(keys, xs[j]).None?
  {
    var n := |xs| - 1;
    var k0 := FirstFault(keys, xs[..n]);
    if j < k0 {
      FirstFaultIsFirst(keys, xs[..n], j);
      assert xs[..n][j] == xs[j];
    } else {
      assert k0 == n && j == n;
    }
  }

  /** The `(age, weight)` of the entries of species `s` at location `l`, in order. */
  function Arrivals(xs: seq<Item>, l: Loc, s: Species): seq<(int, real)> {
    if |xs| == 0 then [] else Arrivals(xs[..|xs| - 1], l, s) + Single(xs[|xs| - 1], l, s)
  }

  /** `add_population` raises the exception of the first failing entry, or nothing. */
  lemma {:induction false} PopulateOutcomeIs(g: Grid, xs: seq<Item>)
    ensures Populate(g, xs).outcome ==
      if FirstFault(g.Keys, xs) == |xs| then Pass else Fail(Fault(g.Keys, xs[FirstFault(g.Keys, xs)]).value)
  {
    if |xs| > 0 {
      var n := |xs| - 1;
      var init, x := xs[..n], xs[n];
      PopulateOutcomeIs(g, init);
      var k0 := FirstFault(g.Keys, init);
      if k0 < n {
        assert xs[k0] == init[k0];
      }
    }
  }

  /** Appending one entry extends exactly the list of its species at its location. */
  lemma AppendMeaning(g: Grid, x: Item, l: Loc)
    requires Fault(g.Keys, x).None? && l in g
    ensures Append(g, x)[l] == Extended(g[l], Single(x, l, Herbivore), Single(x, l, Carnivore))
  {
  }

  /** An entry that raises nothing extends the lists at its location by itself. */
  lemma PopulateStep(g: Grid, xs: seq<Item>, x: Item, l: Loc)
    requires l in g && Populate(g, xs).outcome == Pass && Fault(g.Keys, x).None?
    ensures Populate(g, xs + [x]).grid[l] == Extended(Populate(g, xs).grid[l], Single(x, l, Herbivore), Single(x, l, Carnivore))
  {
    assert (xs + [x])[..|xs|] == xs;
    AppendMeaning(Populate(g, xs).grid, x, l);
  }

  /** The next entry after a run of entries that raised nothing: it raises, or it is appended. */
  lemma PopulateNext(g: Grid, xs: seq<Item>, x: Item)
    requires Populate(g, xs).outcome == Pass
    ensures var prior := Populate(g, xs).grid;
      Populate(g, xs + [x]) == match Fault(prior.Keys, x)
        case Some(e) => Added(Fail(e), prior)
        case None => Added(Pass, Append(prior, x))
  {
    assert (xs + [x])[..|xs|] == xs;
  }

  /** An entry that does not raise, after entries that did not, is appended. */
  lemma PopulateAppends(g: Grid, xs: seq<Item>, x: Item, m: Grid)
    requires Populate(g, xs) == Added(Pass, m)
    requires Fault(m.Keys, x).None?
    ensures Populate(g, xs + [x]) == Added(Pass, Append(m, x))
  {
    PopulateNext(g, xs, x);
  }

  /** An entry that raises, after entries that did not, leaves the dictionary as it was. */
  lemma PopulateRaises(g: Grid, xs: seq<Item>, x: Item, m: Grid)
    requires Populate(g, xs) == Added(Pass, m)
    requires Fault(m.Keys, x).Some?
    ensures Populate(g, xs + [x]) == Added(Fail(Fault(m.Keys, x).value), m)
  {
    PopulateNext(g, xs, x);
  }

  /**
   * `add_population` keeps the cell type and the `"total pop"` of every
   * entry, and appends to each location's two lists exactly the animals
   * of that location and species listed before the first failing entry.
   */
  lemma {:induction false} PopulateGrid(g: Grid, xs: seq<Item>, l: Loc)
    requires l in g
    ensures var k := FirstFault(g.Keys, xs);
      Populate(g, xs).grid[l] == Extended(g[l], Arrivals(xs[..k], l, Herbivore), Arrivals(xs[..k], l, Carnivore))
  {
    var keys := g.Keys;
    var k := FirstFault(keys, xs);
    if |xs| == 0 {
      assert xs[..k] == [];
    } else {
      var n := |xs| - 1;
      var init, x := xs[..n], xs[n];
      assert init + [x] == xs;
      PopulateGrid(g, init, l);
      PopulateOutcomeIs(g, init);
      var k0 := FirstFault(keys, init);
      var prior := Populate(g, init);
      assert xs[..n] == init;
      if k0 < n {
        assert Populate(g, xs) == prior;
        assert xs[..k] == init[..k0];
      } else if Fault(keys, x).Some? {
        assert Populate(g, xs).grid == prior.grid;
        assert xs[..k] == init == init[..k0];
      } else {
        PopulateStep(g, init, x, l);
        assert xs[..k] == xs && init[..k0] == init;
        assert Arrivals(xs, l, Herbivore) == Arrivals(init, l, Herbivore) + Single(x, l, Herbivore);
        assert Arrivals(xs, l, Carnivore) == Arrivals(init, l, Carnivore) + Single(x, l, Carnivore);
        ExtendedTwice(g[l], Arrivals(init, l, Herbivore), Arrivals(init, l, Carnivore),
                      Single(x, l, Herbivore), Single(x, l, Carnivore));
      }
    }
  }

  /**
   * The population list is added without an exception exactly when every
   * entry of the two species names a key and has a non-negative age and
   * weight; otherwise the exception is `KeyError` or the constructor's
   * `ValueError`.
   */
  lemma PopulateOutcome(g: Grid, xs: seq<Item>)
    ensures Populate(g, xs).outcome == Pass <==> forall j :: 0 <= j < |xs| ==> Fault(g.Keys, xs[j]).None?
    ensures Populate(g, xs).outcome.Fail? ==>
      Populate(g, xs).outcome.error == KeyError || Populate(g, xs).outcome.error.ValueError?
  {
    PopulateOutcomeIs(g, xs);
    forall j | 0 <= j < FirstFault(g.Keys, xs)
      ensures Fault(g.Keys, xs[j]).None?
    {
      FirstFaultIsFirst(g.Keys, xs, j);
    }
  }

  /** An entry of another species is neither looked up nor added. */
  lemma OtherSpeciesSkipped(g: Grid, xs: seq<Item>, x: Item)
    requires EntrySpecies(x.1).None?
    ensures Populate(g, xs + [x]) == Populate(g, xs)
  {
    assert (xs + [x])[..|xs|] == xs;
  }

  /** No entry is added to a location no entry of that species names. */
  lemma {:induction false} ArrivalsElsewhere(xs: seq<Item>, l: Loc, s: Species)
    requires forall j :: 0 <= j < |xs| ==> xs[j].0 != l
    ensures Arrivals(xs, l, s) == []
  {
    if |xs| > 0 {
      ArrivalsElsewhere(xs[..|xs| - 1], l, s);
    }
  }

  /** A location no entry names keeps its entry as it was. */
  lemma PopulateElsewhere(g: Grid, xs: seq<Item>, l: Loc)
    requires l in g
    requires forall j :: 0 <= j < |xs| ==> xs[j].0 != l
    ensures Populate(g, xs).grid[l] == g[l]
  {
    PopulateGrid(g, xs, l);
    var k := FirstFault(g.Keys, xs);
    ArrivalsElsewhere(xs[..k], l, Herbivore);
    ArrivalsElsewhere(xs[..k], l, Carnivore);
  }

  /** Once an entry has raised, later entries change nothing. */
  lemma {:induction false} PopulateStops(g: Grid, xs: seq<Item>, ys: seq<Item>)
    requires Populate(g, xs).outcome.Fail?
    ensures Populate(g, xs + ys) == Populate(g, xs)
  {
    if |ys| > 0 {
      var n := |ys| - 1;
      PopulateStops(g, xs, ys[..n]);
      assert (xs + ys)[..|xs + ys| - 1] == xs + ys[..n];
    } else {
      assert xs + ys == xs;
    }
  }

  /** `PopulateStops` for a list already cut in two. */
  lemma PopulateStopsAfter(g: Grid, xs: seq<Item>, ys: seq<Item>, zs: seq<Item>)
    requires Populate(g, xs + ys).outcome.Fail?
    ensures Populate(g, xs + (ys + zs)) == Populate(g, xs + ys)
  {
    var front := xs + ys;
    assert xs + (ys + zs) == front + zs;
    PopulateStops(g, front, zs);
  }

  /** The entries of consecutive placements. */
  lemma {:induction false} ItemsAppend(ps: seq<Rossumoya.Placement>, qs: seq<Rossumoya.Placement>)
    ensures Items(ps + qs) == Items(ps) + Items(qs)
  {
    if |qs| > 0 {
      var n := |qs| - 1;
      ItemsAppend(ps, qs[..n]);
      assert (ps + qs)[..|ps + qs| - 1] == ps + qs[..n];
    } else {
      assert ps + qs == ps;
    }
  }

  /** The entries of the first `j + 1` placements. */
  lemma ItemsStep(ps: seq<Rossumoya.Placement>, j: nat)
    requires j < |ps|
    ensures Items(ps[..j + 1]) == Items(ps[..j]) + ItemsOf(ps[j].loc, ps[j].pop)
  {
    assert ps[..j + 1][..j] == ps[..j];
  }

  /** The entries of the first `i + 1` animals of one placement. */
  lemma ItemsOfSnoc(l: Loc, pop: seq<PopEntry>, i: nat)
    requires i < |pop|
    ensures ItemsOf(l, pop[..i + 1]) == ItemsOf(l, pop[..i]) + [(l, pop[i])]
  {
  }

  /** The entries of one placement cut after `n` animals. */
  lemma ItemsOfSplit(l: Loc, pop: seq<PopEntry>, n: nat)
    requires n <= |pop|
    ensures ItemsOf(l, pop) == ItemsOf(l, pop[..n]) + ItemsOf(l, pop[n..])
  {
  }

  /** When entry `i` of the animals `pop` raises, the rest of `pop` changes nothing. */
  lemma {:induction false} PopulateTail(g: Grid, done: seq<Item>, l: Loc, pop: seq<PopEntry>, i: nat)
    requires i < |pop|
    requires Populate(g, done + ItemsOf(l, pop[..i + 1])).outcome.Fail?
    ensures Populate(g, done + ItemsOf(l, pop)) == Populate(g, done + ItemsOf(l, pop[..i + 1]))
  {
    ItemsOfSplit(l, pop, i + 1);
    PopulateStopsAfter(g, done, ItemsOf(l, pop[..i + 1]), ItemsOf(l, pop[i + 1..]));
  }

  /** When placement `j` raises, the later placements change nothing. */
  lemma {:induction false} PopulateRest(g: Grid, ps: seq<Rossumoya.Placement>, j: nat)
    requires j < |ps|
    requires Populate(g, Items(ps[..j + 1])).outcome.Fail?
    ensures Populate(g, Items(ps)) == Populate(g, Items(ps[..j + 1]))
  {
    assert ps == ps[..j + 1] + ps[j + 1..];
    ItemsAppend(ps[..j + 1], ps[j + 1..]);
    PopulateStops(g, Items(ps[..j + 1]), Items(ps[j + 1..]));
  }

  // ---------------------------------------------------------------------
  // The simulation object
  // ---------------------------------------------------------------------

  const SplitAttribute := "split"
  const DefaultPopAttribute := "default_ini_pop"
  const AlphaKeywordMessage := "set_parameters() got an unexpected keyword argument 'alpha'"

  /** The keyword arguments a landscape parameter dictionary can hold; `None` is a missing key. */
  datatype LandscapeParams = LandscapeParams(fMax: Option<real>, alpha: Option<real>)

  /**
   * The `f_max` argument that `set_parameters(**params)` of terrain `t`
   * receives: the dictionary's value, or the keyword's default when the
   * key is missing.
   */
  function FMaxArgument(t: Terrain, given: Option<real>): (r: Option<real>)
    ensures given.Some? ==> r == given
    ensures given.None? && t == Savannah ==> r == Some(300.0)
    ensures given.None? && t == Jungle ==> r == Some(800.0)
    ensures given.None? && t == Desert ==> r.None?
  {
    if given.Some? then given else DefaultFMax(t)
  }

  class BioSim {
    /** `self.island_map`, the coordinate dictionary. */
    var islandMap: Grid

    constructor Init(g: Grid)
      ensures islandMap == g
    {
      islandMap := g;
    }

    /**
     * `make_geography_coordinates(input_map)`: one new entry per character
     * of `self.default_map`, keyed by its row and column counted from 1;
     * the map passed in is not read.
     */
    method MakeGeographyCoordinates(inputMap: string) returns (g: Grid)
      ensures g == DefaultGrid()
    {
      var rows := Rossumoya.Rows(DefaultMap);
      DefaultMapCodes();
      g := LayOut(rows);
      DefaultRowsSplit();
    }

    /**
     * The inner loop of `add_population` over the animals of one
     * placement at `location`, after the entries `done`: each is appended
     * to its list until the first one that raises.
     */
    method AddEntries(location: Loc, pop: seq<PopEntry>, ghost g0: Grid, ghost done: seq<Item>) returns (r: Outcome<Error>)
      requires Added(Pass, islandMap) == Populate(g0, done)
      modifies this
      ensures Added(r, islandMap) == Populate(g0, done + ItemsOf(location, pop))
    {
      ghost var seen := done;
      assert done + ItemsOf(location, pop[..0]) == done;
      var i := 0;
      while i < |pop|
        invariant 0 <= i <= |pop|
        invariant seen == done + ItemsOf(location, pop[..i])
        invariant Added(Pass, islandMap) == Populate(g0, seen)
      {
        var e := pop[i];
        ghost var before := islandMap;
        ItemsOfSnoc(location, pop, i);
        assert seen + [(location, e)] == done + ItemsOf(location, pop[..i + 1]);
        var species := EntrySpecies(e);
        if species.Some? {
          if location !in islandMap {
            r := Fail(KeyError);
            PopulateRaises(g0, seen, (location, e), before);
            PopulateTail(g0, done, location, pop, i);
            return;
          }
          var err := EntryError(e);
          if err.Some? {
            r := Fail(err.value);
            PopulateRaises(g0, seen, (location, e), before);
            PopulateTail(g0, done, location, pop, i);
            return;
          }
          var place := islandMap[location];
          if species.value == Herbivore {
            islandMap := islandMap[location := place.(herbivores := place.herbivores + [AgeWeight(e)])];
          } else {
            islandMap := islandMap[location := place.(carnivores := place.carnivores + [AgeWeight(e)])];
          }
          assert islandMap == Append(before, (location, e));
        }
        PopulateAppends(g0, seen, (location, e), before);
        seen := seen + [(location, e)];
        i := i + 1;
      }
      assert pop[..i] == pop;
      r := Pass;
    }

    /**
     * `add_population(population)`: each entry of each placement, in
     * order, goes to the `"Herbivores"` or `"Carnivores"` list at its
     * location; the first exception stops the loops and leaves what was
     * appended before it.
     */
    method AddPopulation(ps: seq<Rossumoya.Placement>) returns (r: Outcome<Error>)
      modifies this
      ensures Added(r, islandMap) == Populate(old(islandMap), Items(ps))
    {
      ghost var g0 := islandMap;
      var j := 0;
      while j < |ps|
        invariant 0 <= j <= |ps|
        invariant Added(Pass, islandMap) == Populate(g0, Items(ps[..j]))
      {
        ItemsStep(ps, j);
        r := AddEntries(ps[j].loc, ps[j].pop, g0, Items(ps[..j]));
        if r.Fail? {
          PopulateRest(g0, ps, j);
          return;
        }
        j := j + 1;
      }
      assert ps[..j] == ps;
      r := Pass;
    }

    /**
     * `BioSim(island_map, ini_pop)`: without a map the check calls `split`
     * on `None`; a map the check rejects raises its error; an accepted map
     * is replaced by the dictionary of the default map; without a
     * population the class attribute `default_ini_pop`, which does not
     * exist, is read; otherwise the population is added.
     */
    static method New(islandMap: Option<string>, iniPop: Option<seq<Rossumoya.Placement>>) returns (r: Result<BioSim, Error>)
      ensures islandMap.None? ==> r == Failure(AttributeError(SplitAttribute))
      ensures islandMap.Some? && CheckMapInput(islandMap.value).Fail? ==>
        r == Failure(CheckMapInput(islandMap.value).error)
      ensures islandMap.Some? && CheckMapInput(islandMap.value).Pass? && iniPop.None? ==>
        r == Failure(AttributeError(DefaultPopAttribute))
      ensures islandMap.Some? && CheckMapInput(islandMap.value).Pass? && iniPop.Some? ==>
        var added := Populate(DefaultGrid(), Items(iniPop.value));
        if added.outcome.Fail? then r == Failure(added.outcome.error)
        else r.Success? && fresh(r.value) && r.value.islandMap == added.grid
    {
      if islandMap.None? {
        return Failure(AttributeError(SplitAttribute));
      }
      var checked := CheckMapInput(islandMap.value);
      if checked.Fail? {
        return Failure(checked.error);
      }
      var sim := new BioSim.Init(map[]);
      var g := sim.MakeGeographyCoordinates(islandMap.value);
      sim.islandMap := g;
      if iniPop.None? {
        return Failure(AttributeError(DefaultPopAttribute));
      }
      var o := sim.AddPopulation(iniPop.value);
      if o.Fail? {
        return Failure(o.error);
      }
      r := Success(sim);
    }

    /**
     * `set_animal_parameters(species, params)`: `"Herbivore"` goes to
     * `Herbivore.set_parameters` and `"Carnivore"` to
     * `Carnivore.set_parameters`, which alone reads `DeltaPhiMax`; any other
     * name sets nothing.
     */
    static method SetAnimalParameters(species: string, p: AnimalParams, deltaPhi: Option<real>,
                                      herbivore: SpeciesParams, carnivore: SpeciesParams)
      returns (r: Outcome<Error>)
      requires herbivore != carnivore && herbivore.species == Herbivore && carnivore.species == Carnivore
      requires herbivore.Valid() && carnivore.Valid()
      modifies herbivore, carnivore
      ensures herbivore.Valid() && carnivore.Valid()
      ensures species == "Herbivore" ==>
        && unchanged(carnivore) && herbivore.deltaPhiMax == old(herbivore.deltaPhiMax)
        && herbivore.table == StoredTable(old(herbivore.table), p) && r == SetOutcome(p)
      ensures species == "Carnivore" ==>
        && unchanged(herbivore) && carnivore.table == StoredTable(old(carnivore.table), p)
        && (SetOutcome(p).Fail? ==> r == SetOutcome(p) && carnivore.deltaPhiMax == old(carnivore.deltaPhiMax))
        && (SetOutcome(p).Pass? ==>
              var d := if deltaPhi.None? then DefaultDeltaPhiMax else deltaPhi.value;
              if d <= 0.0 then r == Fail(ValueError(DeltaPhiMaxMessage)) && carnivore.deltaPhiMax == old(carnivore.deltaPhiMax)
              else r == Pass && carnivore.deltaPhiMax == d)
      ensures species != "Herbivore" && species != "Carnivore" ==>
        r == Pass && unchanged(herbivore) && unchanged(carnivore)
    {
      r := Pass;
      if species == "Herbivore" {
        r := herbivore.SetParameters(p);
        if r.Fail? {
          return;
        }
      }
      if species == "Carnivore" {
        r := carnivore.SetCarnivoreParameters(p, deltaPhi);
      }
    }

    /**
     * `set_landscape_parameters(landscape, params)`: `"S"` goes to
     * `Savannah.set_parameters(f_max=300.0, alpha=0.3)` and `"J"` to
     * `Jungle.set_parameters(f_max=800.0)`, which has no `alpha` keyword; a
     * missing key takes the keyword's default. Any other code sets nothing.
     */
    static method SetLandscapeParameters(landscape: string, params: LandscapeParams,
                                         savannah: TerrainParams, jungle: TerrainParams)
      returns (r: Outcome<Error>)
      requires savannah != jungle && savannah.kind == Savannah && jungle.kind == Jungle
      requires savannah.Valid() && jungle.Valid()
      modifies savannah, jungle
      ensures savannah.Valid() && jungle.Valid()
      ensures landscape == "S" ==>
        && unchanged(jungle)
        && var f := if params.fMax.Some? then params.fMax.value else 300.0;
           var a := if params.alpha.None? then DefaultAlpha else params.alpha.value;
           if f < 0.0 then
             r == Fail(ValueError(FMaxMessage)) && savannah.fMax == old(savannah.fMax) && savannah.alpha == old(savannah.alpha)
           else if a < 0.0 then
             r == Fail(ValueError(AlphaMessage)) && savannah.fMax == f && savannah.alpha == old(savannah.alpha)
           else
             r == Pass && savannah.fMax == f && savannah.alpha == a
      ensures landscape == "J" ==>
        && unchanged(savannah) && jungle.alpha == old(jungle.alpha)
        && var f := if params.fMax.Some? then params.fMax.value else 800.0;
           if params.alpha.Some? then r == Fail(TypeError(AlphaKeywordMessage)) && unchanged(jungle)
           else if f < 0.0 then r == Fail(ValueError(FMaxMessage)) && unchanged(jungle)
           else r == Pass && jungle.fMax == f
      ensures landscape != "S" && landscape != "J" ==>
        r == Pass && unchanged(savannah) && unchanged(jungle)
    {
      r := Pass;
      if landscape == "S" {
        r := savannah.SetSavannahParameters(FMaxArgument(Savannah, params.fMax), params.alpha);
        if r.Fail? {
          return;
        }
      }
      if landscape == "J" {
        if params.alpha.Some? {
          return Fail(TypeError(AlphaKeywordMessage));
        }
        r := jungle.SetParameters(FMaxArgument(Jungle, params.fMax));
      }
    }
  }
}
