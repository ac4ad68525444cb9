/**
 * The `Landscape` class: its attributes and their defaults, the
 * coordinate dictionary `geography_map` it builds from its map (keys
 * counted from 1, each value a `[cell, fodder]` list), and the two loops
 * that set the fodder of the savannah and jungle entries in the first
 * year and at each regrowth.
 *
 * The constructor sets an attribute only when its argument is `None`, so
 * an attribute given a value is missing afterwards; `None` in an
 * `Option` field stands for such a missing attribute.
 */
module Landscape {
  import opened Wrappers
  import opened Errors
  import opened Seqs
  import opened Text
  import opened IslandMap
  import opened DefaultIsland

  const DefaultSavannahMax: real := 300.0
  const DefaultJungleMax: real := 800.0
  const DefaultAlpha: real := 0.3

  const GeogrAttribute := "geogr"
  const SavannahMaxAttribute := "f_sav_max"
  const JungleMaxAttribute := "f_jungle_max"
  const AlphaAttribute := "alpha"

  /** The exception `float - None` raises in the regrowth formula. */
  const NoneOperandMessage := "unsupported operand type(s) for -: 'float' and 'NoneType'"

  /**
   * What `__init__` leaves in a numeric attribute given the argument
   * `arg`: the default `d` for `None`, and a missing attribute otherwise.
   */
  function Defaulted(arg: Option<real>, d: real): (r: Option<real>)
    ensures r.Some? <==> arg.None?
  {
    if arg.None? then Some(d) else None
  }

  /** One value of `geography_map`: the list `[cell, fodder]`, `None` fodder being Python's `None`. */
  datatype Entry = Entry(kind: char, fodder: Option<real>)

  /** A `geography_map` dictionary: its keys in insertion order and its values. */
  datatype GeographyMap = GeographyMap(order: seq<Loc>, entries: map<Loc, Entry>)

  /** The insertion order lists every key once and nothing else. */
  ghost predicate Keyed(g: GeographyMap) {
    Distinct(g.order) && forall l :: l in g.entries <==> l in g.order
  }

  // ---------------------------------------------------------------------
  // make_geography_coordinates
  // ---------------------------------------------------------------------

  /** The dictionary of the lines `rows`: every character becomes `[cell, None]` at its row and column counted from 1. */
  function Layout(rows: seq<string>): (g: GeographyMap)
    ensures Keyed(g)
    ensures forall l :: l in g.entries <==> InLayout(rows, 1, l)
    ensures forall l :: l in g.entries ==> g.entries[l] == Entry(CharAt(rows, 1, l), None)
  {
    OrderIsLayout(rows, 1);
    GeographyMap(Order(rows, 1), map l | l in Order(rows, 1) :: Entry(CharAt(rows, 1, l), None))
  }

  /** The dictionary of the default map. */
  function DefaultGeography(): GeographyMap {
    Layout(DefaultRows)
  }

  /** The dictionary of `h` lines of `w` characters has the keys (1, 1) to (h, w). */
  lemma LayoutKeys(rows: seq<string>, h: nat, w: nat)
    requires |rows| == h && forall i :: 0 <= i < h ==> |rows[i]| == w
    ensures forall l :: l in Layout(rows).entries <==> 1 <= l.0 <= h && 1 <= l.1 <= w
  {
  }

  /** The default dictionary has the keys (1, 1) to (13, 21), none with fodder yet. */
  lemma DefaultGeographyKeys()
    ensures forall l :: l in DefaultGeography().entries <==> 1 <= l.0 <= 13 && 1 <= l.1 <= 21
    ensures forall l :: l in DefaultGeography().entries ==> DefaultGeography().entries[l].fodder.None?
  {
    DefaultShape();
    LayoutKeys(DefaultRows, 13, 21);
  }

  /** The default dictionary has a savannah at (3, 2), a jungle at (2, 14) and ocean at (1, 1). */
  lemma DefaultGeographyCells()
    ensures (3, 2) in DefaultGeography().entries && DefaultGeography().entries[(3, 2)].kind == 'S'
    ensures (2, 14) in DefaultGeography().entries && DefaultGeography().entries[(2, 14)].kind == 'J'
    ensures (1, 1) in DefaultGeography().entries && DefaultGeography().entries[(1, 1)].kind == 'O'
  {
    DefaultGeographyKeys();
    assert DefaultRows[2][1] == 'S' && DefaultRows[1][13] == 'J' && DefaultRows[0][0] == 'O';
  }

  /**
   * The two nested `enumerate` loops of `make_geography_coordinates` over
   * the lines `rows`: each character is inserted as `[cell, None]` under
   * its row and column counted from 1.
   */
  method LayOut(rows: seq<string>) returns (g: GeographyMap)
    ensures g == Layout(rows)
  {
    var entries: map<Loc, Entry> := map[];
    var order: seq<Loc> := [];
    var i := 0;
    while i < |rows|
      invariant 0 <= i <= |rows|
      invariant order == Order(rows[..i], 1)
      invariant forall l :: l in entries <==> Visited(rows, i, 0, l)
      invariant forall l :: l in entries ==> InLayout(rows, 1, l) && entries[l] == Entry(CharAt(rows, 1, l), None)
    {
      var line := rows[i];
      var j := 0;
      while j < |line|
        invariant 0 <= j <= |line|
        invariant order == Order(rows[..i], 1) + RowLocs(i, j, 1)
        invariant forall l :: l in entries <==> Visited(rows, i, j, l)
        invariant forall l :: l in entries ==> InLayout(rows, 1, l) && entries[l] == Entry(CharAt(rows, 1, l), None)
      {
        entries := entries[(i + 1, j + 1) := Entry(line[j], None)];
        assert RowLocs(i, j + 1, 1) == RowLocs(i, j, 1) + [(i + 1, j + 1)];
        order := order + [(i + 1, j + 1)];
        j := j + 1;
      }
      assert forall l :: Visited(rows, i, j, l) <==> Visited(rows, i + 1, 0, l);
      assert rows[..i + 1][..i] == rows[..i];
      i := i + 1;
    }
    assert rows[..i] == rows;
    g := GeographyMap(order, entries);
  }

  // ---------------------------------------------------------------------
  // fodder_first_year and regrowth_fodder
  // ---------------------------------------------------------------------

  /** One of the two loops over `geography_map`, with the attributes it reads (`None`: missing). */
  datatype Sweep =
    | FirstYear(fSavMax: Option<real>, fJungleMax: Option<real>)
    | Regrowth(fSavMax: Option<real>, fJungleMax: Option<real>, alpha: Option<real>)

  /** The savannah's regrowth formula: a fraction `alpha` of the way from `current` to `fMax`. */
  function Regrown(current: real, alpha: real, fMax: real): real {
    current + alpha * (fMax - current)
  }

  /**
   * What one turn of a loop does to the value of one key: savannah and
   * jungle entries get their fodder, or the attribute read raises (in the
   * regrowth, `self.alpha` is read before `self.f_sav_max`, and both
   * before `None` fodder is subtracted); other entries stay as they are.
   */
  function Step(s: Sweep, e: Entry): Result<Entry, Error> {
    if e.kind == 'S' then
      match s
      case FirstYear(fSavMax, _) =>
        if fSavMax.None? then Failure(AttributeError(SavannahMaxAttribute))
        else Success(e.(fodder := fSavMax))
      case Regrowth(fSavMax, _, alpha) =>
        if alpha.None? then Failure(AttributeError(AlphaAttribute))
        else if fSavMax.None? then Failure(AttributeError(SavannahMaxAttribute))
        else if e.fodder.None? then Failure(TypeError(NoneOperandMessage))
        else Success(e.(fodder := Some(Regrown(e.fodder.value, alpha.value, fSavMax.value))))
    else if e.kind == 'J' then
      if s.fJungleMax.None? then Failure(AttributeError(JungleMaxAttribute))
      else Success(e.(fodder := s.fJungleMax))
    else Success(e)
  }

  /** The value a successful turn leaves at a key, or the value as it was. */
  function Updated(s: Sweep, e: Entry): Entry {
    match Step(s, e)
    case Success(e') => e'
    case Failure(_) => e
  }

  /** What a loop leaves: the exception it raised, or `Pass`, and the dictionary's values. */
  datatype Swept = Swept(outcome: Outcome<Error>, entries: map<Loc, Entry>)

  /** The loop `for cell in ...` over the keys `keys` of `m`, stopped by the first exception. */
  function Sweeping(s: Sweep, m: map<Loc, Entry>, keys: seq<Loc>): (r: Swept)
    requires forall k :: 0 <= k < |keys| ==> keys[k] in m
    ensures r.entries.Keys == m.Keys
  {
    if |keys| == 0 then Swept(Pass, m)
    else
      var prior := Sweeping(s, m, keys[..|keys| - 1]);
      var l := keys[|keys| - 1];
      if prior.outcome.Fail? then prior
      else
        match Step(s, prior.entries[l])
        case Failure(err) => Swept(Fail(err), prior.entries)
        case Success(e) => Swept(Pass, prior.entries[l := e])
  }

  /** The position in `keys` of the first key whose turn raises, or `|keys|`. */
  function Done(s: Sweep, m: map<Loc, Entry>, keys: seq<Loc>): (k: nat)
    requires forall k :: 0 <= k < |keys| ==> keys[k] in m
    ensures k <= |keys|
    ensures k < |keys| ==> Step(s, m[keys[k]]).Failure?
  {
    if |keys| == 0 then 0
    else
      var k := Done(s, m, keys[..|keys| - 1]);
      if k < |keys| - 1 || Step(s, m[keys[|keys| - 1]]).Failure? then k else |keys|
  }

  /** No key before the first failing one raises. */
  lemma {:induction false} DoneIsFirst(s: Sweep, m: map<Loc, Entry>, keys: seq<Loc>, j: nat)
    requires forall k :: 0 <= k < |keys| ==> keys[k] in m
    requires j < Done(s, m, keys)
    ensures Step(s, m[keys[j]]).Success?
  {
    var n := |keys| - 1;
    var k0 := Done(s, m, keys[..n]);
    if j < k0 {
      DoneIsFirst(s, m, keys[..n], j);
      assert keys[..n][j] == keys[j];
    } else {
      assert k0 == n && j == n;
    }
  }

  /** The loop raises exactly the exception of the first failing key, if there is one. */
  lemma {:induction false} SweepOutcome(s: Sweep, m: map<Loc, Entry>, keys: seq<Loc>)
    requires Distinct(keys) && forall k :: 0 <= k < |keys| ==> keys[k] in m
    ensures var k := Done(s, m, keys);
      Sweeping(s, m, keys).outcome == if k == |keys| then Pass else Fail(Step(s, m[keys[k]]).error)
    decreases |keys|, 1
  {
    if |keys| > 0 {
      var n := |keys| - 1;
      var init, l := keys[..n], keys[n];
      assert Distinct(init);
      SweepOutcome(s, m, init);
      var k0 := Done(s, m, init);
      if k0 < n {
        assert keys[k0] == init[k0];
      } else {
        SweepEntry(s, m, init, l);
        assert l !in init[..k0] by {
          assert init[..k0] == init;
        }
      }
    }
  }

  /**
   * After the loop, the keys before the first failing one hold their
   * updated values and every other key its value as it was.
   */
  lemma {:induction false} SweepEntry(s: Sweep, m: map<Loc, Entry>, keys: seq<Loc>, l: Loc)
    requires Distinct(keys) && forall k :: 0 <= k < |keys| ==> keys[k] in m
    requires l in m
    ensures Sweeping(s, m, keys).entries[l] == if l in keys[..Done(s, m, keys)] then Updated(s, m[l]) else m[l]
    decreases |keys|, 0
  {
    if |keys| > 0 {
      var n := |keys| - 1;
      var init, last := keys[..n], keys[n];
      var k0 := Done(s, m, init);
      assert Distinct(init);
      SweepEntry(s, m, init, l);
      SweepOutcome(s, m, init);
      assert keys == init + [last];
      if k0 < n {
        SweepEntryRaised(s, m, init, last, l);
      } else {
        assert init[..k0] == init;
        SweepEntry(s, m, init, last);
        SweepEntryPassed(s, m, init, last, l);
      }
    }
  }

  /** The step of `SweepEntry` past a last key `last` reached after an exception. */
  lemma SweepEntryRaised(s: Sweep, m: map<Loc, Entry>, init: seq<Loc>, last: Loc, l: Loc)
    requires forall k :: 0 <= k < |init| ==> init[k] in m
    requires last in m && l in m
    requires Done(s, m, init) < |init| && Sweeping(s, m, init).outcome.Fail?
    requires Sweeping(s, m, init).entries[l] == if l in init[..Done(s, m, init)] then Updated(s, m[l]) else m[l]
    ensures var keys := init + [last];
      Sweeping(s, m, keys).entries[l] == if l in keys[..Done(s, m, keys)] then Updated(s, m[l]) else m[l]
  {
    var keys := init + [last];
    assert keys[..|keys| - 1] == init;
    assert keys[..Done(s, m, keys)] == init[..Done(s, m, init)];
  }

  /** The step of `SweepEntry` past a last key `last` reached without an exception. */
  lemma SweepEntryPassed(s: Sweep, m: map<Loc, Entry>, init: seq<Loc>, last: Loc, l: Loc)
    requires Distinct(init + [last]) && forall k :: 0 <= k < |init| ==> init[k] in m
    requires last in m && l in m
    requires Sweeping(s, m, init).outcome == Pass && Done(s, m, init) == |init|
    requires Sweeping(s, m, init).entries[l] == if l in init then Updated(s, m[l]) else m[l]
    requires Sweeping(s, m, init).entries[last] == m[last]
    ensures var keys := init + [last];
      Sweeping(s, m, keys).entries[l] == if l in keys[..Done(s, m, keys)] then Updated(s, m[l]) else m[l]
  {
    var keys := init + [last];
    assert keys[..|keys| - 1] == init;
    if Step(s, m[last]).Failure? {
      assert keys[..Done(s, m, keys)] == init;
    } else {
      assert keys[..Done(s, m, keys)] == keys;
    }
  }

  /** A key whose turn would raise makes the loop raise. */
  lemma SweepFails(s: Sweep, m: map<Loc, Entry>, keys: seq<Loc>, l: Loc)
    requires Distinct(keys) && forall k :: 0 <= k < |keys| ==> keys[k] in m
    requires l in keys && Step(s, m[l]).Failure?
    ensures Sweeping(s, m, keys).outcome.Fail?
  {
    SweepOutcome(s, m, keys);
    var j :| 0 <= j < |keys| && keys[j] == l;
    if Done(s, m, keys) == |keys| {
      DoneIsFirst(s, m, keys, j);
    }
  }

  /** A loop with every attribute present never raises in the first year. */
  lemma FirstYearPasses(fSavMax: real, fJungleMax: real, m: map<Loc, Entry>, keys: seq<Loc>)
    requires Distinct(keys) && forall k :: 0 <= k < |keys| ==> keys[k] in m
    ensures Sweeping(FirstYear(Some(fSavMax), Some(fJungleMax)), m, keys).outcome == Pass
  {
    SweepOutcome(FirstYear(Some(fSavMax), Some(fJungleMax)), m, keys);
  }

  /**
   * `fodder_first_year` over all keys, with both maxima present: every
   * savannah entry gets `f_sav_max`, every jungle entry `f_jungle_max`,
   * and every other entry is left as it was.
   */
  lemma FirstYearFills(fSavMax: real, fJungleMax: real, g: GeographyMap, l: Loc)
    requires Keyed(g) && l in g.entries
    ensures var after := Sweeping(FirstYear(Some(fSavMax), Some(fJungleMax)), g.entries, g.order);
      after.outcome == Pass &&
      after.entries[l] ==
        if g.entries[l].kind == 'S' then g.entries[l].(fodder := Some(fSavMax))
        else if g.entries[l].kind == 'J' then g.entries[l].(fodder := Some(fJungleMax))
        else g.entries[l]
  {
    var s := FirstYear(Some(fSavMax), Some(fJungleMax));
    FirstYearPasses(fSavMax, fJungleMax, g.entries, g.order);
    SweepOutcome(s, g.entries, g.order);
    SweepEntry(s, g.entries, g.order, l);
    assert g.order[..|g.order|] == g.order;
  }

  /** A jungle entry's regrowth is idempotent: a second regrowth leaves it as the first did. */
  lemma JungleRegrowthIdempotent(s: Sweep, e: Entry)
    requires s.Regrowth? && e.kind == 'J' && Step(s, e).Success?
    ensures Step(s, Step(s, e).value) == Step(s, e)
  {
  }

  /** `f_sav_max` is a fixed point of the savannah's regrowth. */
  lemma SavannahMaximumFixed(fSavMax: real, fJungleMax: Option<real>, alpha: real)
    ensures Step(Regrowth(Some(fSavMax), fJungleMax, Some(alpha)), Entry('S', Some(fSavMax))) == Success(Entry('S', Some(fSavMax)))
  {
  }

  /**
   * With `0 <= alpha <= 1`, savannah regrowth moves the fodder towards
   * `f_sav_max` without passing it.
   */
  lemma RegrownBetween(current: real, alpha: real, fMax: real)
    requires 0.0 <= alpha <= 1.0
    ensures current <= fMax ==> current <= Regrown(current, alpha, fMax) <= fMax
    ensures fMax <= current ==> fMax <= Regrown(current, alpha, fMax) <= current
  {
    var d := fMax - current;
    assert alpha * d + (1.0 - alpha) * d == d;
    if d >= 0.0 {
      assert 0.0 <= alpha * d && 0.0 <= (1.0 - alpha) * d;
    } else {
      assert alpha * d <= 0.0 && (1.0 - alpha) * d <= 0.0;
    }
  }

  /** No turn of either loop changes an entry's cell type. */
  lemma StepKeepsKind(s: Sweep, e: Entry)
    ensures Updated(s, e).kind == e.kind
    ensures e.kind != 'S' && e.kind != 'J' ==> Step(s, e) == Success(e)
  {
  }

  /** A failing turn raises a missing attribute, or subtracts `None` fodder. */
  lemma StepErrors(s: Sweep, e: Entry)
    requires Step(s, e).Failure?
    ensures Step(s, e).error in {AttributeError(SavannahMaxAttribute), AttributeError(JungleMaxAttribute),
                                 AttributeError(AlphaAttribute), TypeError(NoneOperandMessage)}
    ensures e.kind == 'S' || e.kind == 'J'
  {
  }

  /** The fodder a first year gives is already settled: the regrowth after it changes nothing. */
  predicate Settled(fSavMax: real, fJungleMax: real, m: map<Loc, Entry>) {
    forall l :: l in m ==>
      (m[l].kind == 'S' ==> m[l].fodder == Some(fSavMax)) && (m[l].kind == 'J' ==> m[l].fodder == Some(fJungleMax))
  }

  /**
   * A regrowth over a dictionary whose savannah entries hold `f_sav_max`
   * and whose jungle entries hold `f_jungle_max` raises nothing and
   * changes nothing.
   */
  lemma RegrowthOfSettled(fSavMax: real, fJungleMax: real, alpha: real, g: GeographyMap)
    requires Keyed(g) && Settled(fSavMax, fJungleMax, g.entries)
    ensures Sweeping(Regrowth(Some(fSavMax), Some(fJungleMax), Some(alpha)), g.entries, g.order) == Swept(Pass, g.entries)
  {
    var s := Regrowth(Some(fSavMax), Some(fJungleMax), Some(alpha));
    var after := Sweeping(s, g.entries, g.order);
    forall l | l in g.entries
      ensures Step(s, g.entries[l]) == Success(g.entries[l])
    {
      if g.entries[l].kind == 'S' {
        SavannahMaximumFixed(fSavMax, Some(fJungleMax), alpha);
      }
    }
    SweepOutcome(s, g.entries, g.order);
    forall l | l in g.entries
      ensures after.entries[l] == g.entries[l]
    {
      SweepEntry(s, g.entries, g.order, l);
    }
  }

  /** After a first year with both maxima, the regrowth under the same maxima changes nothing. */
  lemma FirstYearThenRegrowth(fSavMax: real, fJungleMax: real, alpha: real, g: GeographyMap)
    requires Keyed(g)
    ensures var first := Sweeping(FirstYear(Some(fSavMax), Some(fJungleMax)), g.entries, g.order);
      Sweeping(Regrowth(Some(fSavMax), Some(fJungleMax), Some(alpha)), first.entries, g.order) == Swept(Pass, first.entries)
  {
    var first := Sweeping(FirstYear(Some(fSavMax), Some(fJungleMax)), g.entries, g.order);
    var g' := GeographyMap(g.order, first.entries);
    forall l | l in first.entries
      ensures (first.entries[l].kind == 'S' ==> first.entries[l].fodder == Some(fSavMax))
           && (first.entries[l].kind == 'J' ==> first.entries[l].fodder == Some(fJungleMax))
    {
      FirstYearFills(fSavMax, fJungleMax, g, l);
    }
    RegrowthOfSettled(fSavMax, fJungleMax, alpha, g');
  }

  /** The default dictionary with `f_sav_max` missing makes `fodder_first_year` raise for the missing attribute. */
  lemma DroppedSavannahMaximum(fJungleMax: Option<real>)
    ensures Sweeping(FirstYear(None, fJungleMax), DefaultGeography().entries, DefaultGeography().order).outcome.Fail?
  {
    var g := DefaultGeography();
    DefaultGeographyCells();
    SweepFails(FirstYear(None, fJungleMax), g.entries, g.order, (3, 2));
  }

  /** One turn that does not raise, after turns that did not. */
  lemma SweepNext(s: Sweep, m: map<Loc, Entry>, keys: seq<Loc>, l: Loc, cur: map<Loc, Entry>)
    requires forall k :: 0 <= k < |keys| ==> keys[k] in m
    requires l in m && Sweeping(s, m, keys) == Swept(Pass, cur)
    ensures Step(s, cur[l]).Success? ==> Sweeping(s, m, keys + [l]) == Swept(Pass, cur[l := Step(s, cur[l]).value])
    ensures Step(s, cur[l]).Failure? ==> Sweeping(s, m, keys + [l]) == Swept(Fail(Step(s, cur[l]).error), cur)
  {
    assert (keys + [l])[..|keys|] == keys;
  }

  /** Once a turn has raised, the later keys change nothing. */
  lemma {:induction false} SweepStops(s: Sweep, m: map<Loc, Entry>, keys: seq<Loc>, rest: seq<Loc>)
    requires forall k :: 0 <= k < |keys| ==> keys[k] in m
    requires forall k :: 0 <= k < |rest| ==> rest[k] in m
    requires Sweeping(s, m, keys).outcome.Fail?
    ensures Sweeping(s, m, keys + rest) == Sweeping(s, m, keys)
  {
    if |rest| > 0 {
      var n := |rest| - 1;
      SweepStops(s, m, keys, rest[..n]);
      assert (keys + rest)[..|keys + rest| - 1] == keys + rest[..n];
    } else {
      assert keys + rest == keys;
    }
  }

  /** When the turn of key `k` raises, the loop over all keys ends as it did then. */
  lemma {:induction false} SweepStopsAt(s: Sweep, m: map<Loc, Entry>, keys: seq<Loc>, k: nat)
    requires k < |keys| && forall j :: 0 <= j < |keys| ==> keys[j] in m
    requires Sweeping(s, m, keys[..k + 1]).outcome.Fail?
    ensures Sweeping(s, m, keys) == Sweeping(s, m, keys[..k + 1])
  {
    var front := keys[..k + 1];
    assert keys == front + keys[k + 1..];
    SweepStops(s, m, front, keys[k + 1..]);
  }

  // ---------------------------------------------------------------------
  // The Landscape object
  // ---------------------------------------------------------------------

  class Landscape {
    /** The attributes `geogr`, `f_sav_max`, `f_jungle_max` and `alpha`; `None` is missing. */
    var geogr: Option<string>
    var fSavMax: Option<real>
    var fJungleMax: Option<real>
    var alpha: Option<real>
    /** `self.geography_map`. */
    var geographyMap: GeographyMap

    /** Python's new object, before `__init__` has set any attribute. */
    constructor Init()
      ensures geogr.None? && fSavMax.None? && fJungleMax.None? && alpha.None?
      ensures geographyMap == GeographyMap([], map[])
    {
      geogr, fSavMax, fJungleMax, alpha := None, None, None, None;
      geographyMap := GeographyMap([], map[]);
    }

    /** The dictionary's order lists each of its keys once. */
    ghost predicate Valid()
      reads this
    {
      Keyed(geographyMap)
    }

    /**
     * `Landscape(geogr, f_sav_max, f_jungle_max, alpha)` as written: each
     * attribute is set to its default only when its argument is `None`,
     * so a given argument leaves the attribute missing, and a given map
     * makes `make_geography_coordinates` raise for the missing `geogr`.
     */
    static method New(geogr: Option<string>, fSavMax: Option<real>, fJungleMax: Option<real>, alpha: Option<real>)
      returns (r: Result<Landscape, Error>)
      ensures geogr.Some? ==> r == Failure(AttributeError(GeogrAttribute))
      ensures geogr.None? ==> r.Success? && fresh(r.value)
      ensures geogr.None? ==> r.Success? && r.value.geogr == Some(DefaultMap)
      ensures geogr.None? ==> r.Success? && r.value.fSavMax == Defaulted(fSavMax, DefaultSavannahMax)
      ensures geogr.None? ==> r.Success? && r.value.fJungleMax == Defaulted(fJungleMax, DefaultJungleMax)
      ensures geogr.None? ==> r.Success? && r.value.alpha == Defaulted(alpha, DefaultAlpha)
      ensures geogr.None? ==> r.Success? && r.value.geographyMap == DefaultGeography()
    {
      var land := new Landscape.Init();
      land.SetDefaults(fSavMax, fJungleMax, alpha);
      if geogr.None? {
        land.UseDefaultMap();
        r := Success(land);
      } else {
        var made := land.MakeGeographyCoordinates();
        r := Failure(made.error);
      }
    }

    /**
     * The default map's part of `__init__`: `self.geogr` becomes the
     * default map and `self.geography_map` its dictionary.
     */
    method UseDefaultMap()
      modifies this`geogr, this`geographyMap
      ensures geogr == Some(DefaultMap) && geographyMap == DefaultGeography()
    {
      UseMap(DefaultMap);
      DefaultRowsSplit();
    }

    /**
     * The constructor as evidently intended: a given argument is stored,
     * and `None` stands for the default.
     */
    static method NewStoring(geogr: Option<string>, fSavMax: Option<real>, fJungleMax: Option<real>, alpha: Option<real>)
      returns (land: Landscape)
      ensures fresh(land) && land.Valid()
      ensures land.geogr == Some(if geogr.None? then DefaultMap else geogr.value)
      ensures land.fSavMax == Some(if fSavMax.None? then DefaultSavannahMax else fSavMax.value)
      ensures land.fJungleMax == Some(if fJungleMax.None? then DefaultJungleMax else fJungleMax.value)
      ensures land.alpha == Some(if alpha.None? then DefaultAlpha else alpha.value)
      ensures land.geographyMap == Layout(Split(land.geogr.value, '\n'))
    {
      land := new Landscape.Init();
      land.SetAttributes(if fSavMax.None? then DefaultSavannahMax else fSavMax.value,
                         if fJungleMax.None? then DefaultJungleMax else fJungleMax.value,
                         if alpha.None? then DefaultAlpha else alpha.value);
      land.UseMap(if geogr.None? then DefaultMap else geogr.value);
    }

    /** The first part of `__init__`: an attribute whose argument is `None` gets its default; the others stay missing. */
    method SetDefaults(fSavMax: Option<real>, fJungleMax: Option<real>, alpha: Option<real>)
      requires this.fSavMax.None? && this.fJungleMax.None? && this.alpha.None?
      modifies this`fSavMax, this`fJungleMax, this`alpha
      ensures this.fSavMax == Defaulted(fSavMax, DefaultSavannahMax)
      ensures this.fJungleMax == Defaulted(fJungleMax, DefaultJungleMax)
      ensures this.alpha == Defaulted(alpha, DefaultAlpha)
    {
      if fSavMax.None? {
        this.fSavMax := Some(DefaultSavannahMax);
      }
      if fJungleMax.None? {
        this.fJungleMax := Some(DefaultJungleMax);
      }
      if alpha.None? {
        this.alpha := Some(DefaultAlpha);
      }
    }

    /** The three numeric attributes, as the intended constructor stores them. */
    method SetAttributes(fSavMax: real, fJungleMax: real, alpha: real)
      modifies this`fSavMax, this`fJungleMax, this`alpha
      ensures this.fSavMax == Some(fSavMax) && this.fJungleMax == Some(fJungleMax) && this.alpha == Some(alpha)
    {
      this.fSavMax, this.fJungleMax, this.alpha := Some(fSavMax), Some(fJungleMax), Some(alpha);
    }

    /** The map's part of `__init__`: `self.geogr` becomes `text` and `self.geography_map` its dictionary. */
    method UseMap(text: string)
      modifies this`geogr, this`geographyMap
      ensures geogr == Some(text) && geographyMap == Layout(Split(text, '\n'))
    {
      geogr := Some(text);
      var made := MakeGeographyCoordinates();
      geographyMap := made.value;
    }

    /**
     * `make_geography_coordinates()`: the dictionary of `self.geogr` split
     * at its newlines; a missing `geogr` raises.
     */
    method MakeGeographyCoordinates() returns (r: Result<GeographyMap, Error>)
      ensures geogr.None? ==> r == Failure(AttributeError(GeogrAttribute))
      ensures geogr.Some? ==> r == Success(Layout(Split(geogr.value, '\n')))
    {
      if geogr.None? {
        return Failure(AttributeError(GeogrAttribute));
      }
      var rows := Split(geogr.value, '\n');
      var g := LayOut(rows);
      r := Success(g);
    }

    /**
     * `fodder_first_year()`: every savannah entry gets `f_sav_max` and
     * every jungle entry `f_jungle_max`, key by key in insertion order,
     * until a missing attribute raises.
     */
    method FodderFirstYear() returns (r: Outcome<Error>)
      requires Valid()
      modifies this
      ensures geographyMap.order == old(geographyMap.order) && Valid()
      ensures geogr == old(geogr) && fSavMax == old(fSavMax) && fJungleMax == old(fJungleMax) && alpha == old(alpha)
      ensures Swept(r, geographyMap.entries) == Sweeping(FirstYear(fSavMax, fJungleMax), old(geographyMap.entries), geographyMap.order)
    {
      ghost var m0 := geographyMap.entries;
      ghost var s := FirstYear(fSavMax, fJungleMax);
      var order := geographyMap.order;
      ghost var seen: seq<Loc> := [];
      var k := 0;
      while k < |order|
        invariant 0 <= k <= |order| && seen == order[..k]
        invariant geographyMap.order == order && geographyMap.entries.Keys == m0.Keys
        invariant geogr == old(geogr) && fSavMax == old(fSavMax) && fJungleMax == old(fJungleMax) && alpha == old(alpha)
        invariant Swept(Pass, geographyMap.entries) == Sweeping(s, m0, seen)
      {
        var cell := order[k];
        ghost var before := geographyMap.entries;
        assert order[..k + 1] == seen + [cell];
        SweepNext(s, m0, seen, cell, before);
        r := FillCell(cell);
        if r.Fail? {
          SweepStopsAt(s, m0, order, k);
          return;
        }
        assert geographyMap.entries == before[cell := Step(s, before[cell]).value];
        seen := seen + [cell];
        k := k + 1;
      }
      assert order[..k] == order;
      r := Pass;
    }

    /**
     * One turn of the loop of `fodder_first_year()` at the key `cell`: a
     * savannah entry gets `f_sav_max`, a jungle entry `f_jungle_max`, or
     * the missing attribute raises and the entry stays as it was.
     */
    method FillCell(cell: Loc) returns (r: Outcome<Error>)
      requires cell in geographyMap.entries
      modifies this`geographyMap
      ensures var step := Step(FirstYear(fSavMax, fJungleMax), old(geographyMap.entries[cell]));
        r == (if step.Failure? then Fail(step.error) else Pass) &&
        geographyMap == old(geographyMap).(entries := if step.Failure? then old(geographyMap.entries) else old(geographyMap.entries)[cell := step.value])
    {
      if geographyMap.entries[cell].kind == 'S' {
        if fSavMax.None? {
          return Fail(AttributeError(SavannahMaxAttribute));
        }
        geographyMap := geographyMap.(entries := geographyMap.entries[cell := geographyMap.entries[cell].(fodder := fSavMax)]);
      }
      if geographyMap.entries[cell].kind == 'J' {
        if fJungleMax.None? {
          return Fail(AttributeError(JungleMaxAttribute));
        }
        geographyMap := geographyMap.(entries := geographyMap.entries[cell := geographyMap.entries[cell].(fodder := fJungleMax)]);
      }
      r := Pass;
    }

    /**
     * `regrowth_fodder()`: every savannah entry's fodder grows by the
     * fraction `alpha` of what it lacks to `f_sav_max`, and every jungle
     * entry is reset to `f_jungle_max`, key by key in insertion order,
     * until a missing attribute or `None` fodder raises.
     */
    method RegrowthFodder() returns (r: Outcome<Error>)
      requires Valid()
      modifies this
      ensures geographyMap.order == old(geographyMap.order) && Valid()
      ensures geogr == old(geogr) && fSavMax == old(fSavMax) && fJungleMax == old(fJungleMax) && alpha == old(alpha)
      ensures Swept(r, geographyMap.entries) == Sweeping(Regrowth(fSavMax, fJungleMax, alpha), old(geographyMap.entries), geographyMap.order)
    {
      ghost var m0 := geographyMap.entries;
      ghost var s := Regrowth(fSavMax, fJungleMax, alpha);
      var order := geographyMap.order;
      ghost var seen: seq<Loc> := [];
      var k := 0;
      while k < |order|
        invariant 0 <= k <= |order| && seen == order[..k]
        invariant geographyMap.order == order && geographyMap.entries.Keys == m0.Keys
        invariant geogr == old(geogr) && fSavMax == old(fSavMax) && fJungleMax == old(fJungleMax) && alpha == old(alpha)
        invariant Swept(Pass, geographyMap.entries) == Sweeping(s, m0, seen)
      {
        var cell := order[k];
        ghost var before := geographyMap.entries;
        assert order[..k + 1] == seen + [cell];
        SweepNext(s, m0, seen, cell, before);
        r := RegrowCell(cell);
        if r.Fail? {
          SweepStopsAt(s, m0, order, k);
          return;
        }
        assert geographyMap.entries == before[cell := Step(s, before[cell]).value];
        seen := seen + [cell];
        k := k + 1;
      }
      assert order[..k] == order;
      r := Pass;
    }

    /**
     * One turn of the loop of `regrowth_fodder()` at the key `cell`: the
     * savannah formula or the jungle reset, or the exception of a missing
     * attribute or `None` fodder, which leaves the entry as it was.
     */
    method RegrowCell(cell: Loc) returns (r: Outcome<Error>)
      requires cell in geographyMap.entries
      modifies this`geographyMap
      ensures var step := Step(Regrowth(fSavMax, fJungleMax, alpha), old(geographyMap.entries[cell]));
        r == (if step.Failure? then Fail(step.error) else Pass) &&
        geographyMap == old(geographyMap).(entries := if step.Failure? then old(geographyMap.entries) else old(geographyMap.entries)[cell := step.value])
    {
      if geographyMap.entries[cell].kind == 'S' {
        var currentFodder := geographyMap.entries[cell].fodder;
        if alpha.None? {
          return Fail(AttributeError(AlphaAttribute));
        }
        if fSavMax.None? {
          return Fail(AttributeError(SavannahMaxAttribute));
        }
        if currentFodder.None? {
          return Fail(TypeError(NoneOperandMessage));
        }
        var grown := currentFodder.value + alpha.value * (fSavMax.value - currentFodder.value);
        geographyMap := geographyMap.(entries := geographyMap.entries[cell := geographyMap.entries[cell].(fodder := Some(grown))]);
      }
      if geographyMap.entries[cell].kind == 'J' {
        if fJungleMax.None? {
          return Fail(AttributeError(JungleMaxAttribute));
        }
        geographyMap := geographyMap.(entries := geographyMap.entries[cell := geographyMap.entries[cell].(fodder := fJungleMax)]);
      }
      r := Pass;
    }
  }
}
