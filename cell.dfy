/**
 * One cell of the island (`cell.py`): its fodder, the class attributes of
 * its landscape type, and the animals living in it, with the yearly
 * feeding, the removal of dead or departed animals, the species counts and
 * the fodder abundance that drives migration.
 *
 * The five subclasses `Savannah`, `Jungle`, `Desert`, `Mountain` and
 * `Ocean` are one class `Cell` whose `kind` selects the overriding
 * behaviour. The class attributes of a landscape type (`f_max`, `alpha`)
 * live in a `TerrainParams` object that every cell of that type shares.
 */
module Cell {
  import opened Wrappers
  import opened Errors
  import opened IslandMap
  import opened Seqs
  import opened Sorting
  import opened Fauna = Animal

  /** The `f_max` default of each subclass's `set_parameters`; the desert passes `None`. */
  function DefaultFMax(t: Terrain): Option<real> {
    match t
    case Savannah => Some(300.0)
    case Jungle => Some(800.0)
    case Desert => None
    case Mountain => Some(0.0)
    case Ocean => Some(0.0)
  }

  const DefaultAlpha := 0.3
  const FMaxMessage := "f_max must be a positive number"
  const AlphaMessage := "alpha can not be negative."

  /** `None` stands for 0, as in the base `set_parameters`. */
  function OrZero(v: Option<real>): real {
    if v.None? then 0.0 else v.value
  }

  /** Every landscape type stores a non-negative `f_max` after its default `set_parameters` call. */
  lemma DefaultFMaxAdmissible(t: Terrain)
    ensures OrZero(DefaultFMax(t)) >= 0.0
    ensures t == Desert || t == Mountain || t == Ocean <==> OrZero(DefaultFMax(t)) == 0.0
  {
  }

  /**
   * The Savannah regrowth `cur + alpha * (target - cur)`.
   */
  function Regrowth(cur: real, target: real, alpha: real): real {
    cur + alpha * (target - cur)
  }

  /** The distance to `target` shrinks by the factor `1 - alpha`. */
  lemma RegrowthDistance(cur: real, target: real, alpha: real)
    ensures Regrowth(cur, target, alpha) - target == (1.0 - alpha) * (cur - target)
  {
  }

  /** With `0 <= alpha <= 1` the regrown fodder lies between the old fodder and `f_max`. */
  lemma RegrowthBetween(cur: real, target: real, alpha: real)
    requires 0.0 <= alpha <= 1.0
    ensures cur <= target ==> cur <= Regrowth(cur, target, alpha) <= target
    ensures target <= cur ==> target <= Regrowth(cur, target, alpha) <= cur
  {
    var d := target - cur;
    FractionBetween(alpha, d);
    var step := alpha * d;
    assert Regrowth(cur, target, alpha) == cur + step;
    assert d >= 0.0 ==> 0.0 <= step <= d;
    assert d <= 0.0 ==> d <= step <= 0.0;
  }

  /** A fraction `a` of `d` lies between 0 and `d`. */
  lemma FractionBetween(a: real, d: real)
    requires 0.0 <= a <= 1.0
    ensures d >= 0.0 ==> 0.0 <= a * d <= d
    ensures d <= 0.0 ==> d <= a * d <= 0.0
  {
    if d >= 0.0 {
      ProductNonNegative(a, d);
      ProductNonNegative(1.0 - a, d);
    } else {
      ProductNonNegative(a, -d);
      ProductNonNegative(1.0 - a, -d);
    }
  }

  lemma ProductNonNegative(x: real, y: real)
    requires x >= 0.0 && y >= 0.0
    ensures x * y >= 0.0
  {
  }

  lemma ZeroProduct(x: real, y: real)
    requires x * y == 0.0
    ensures x == 0.0 || y == 0.0
  {
    if x != 0.0 {
      assert y == (x * y) / x;
    }
  }

  /** `f_max` is a fixed point, and it is reached in one step exactly when `alpha` is 1 (or it is already there). */
  lemma RegrowthFixedPoint(cur: real, target: real, alpha: real)
    ensures Regrowth(target, target, alpha) == target
    ensures Regrowth(cur, target, alpha) == target <==> cur == target || alpha == 1.0
    ensures alpha == 0.0 ==> Regrowth(cur, target, alpha) == cur
  {
    RegrowthDistance(cur, target, alpha);
    if Regrowth(cur, target, alpha) == target && cur != target {
      ZeroProduct(1.0 - alpha, cur - target);
    }
  }

  /**
   * The class attributes of one landscape type. The constructor stands for
   * the type's default `set_parameters()` call.
   */
  class TerrainParams {
    const kind: Terrain
    /** `f_max`, the fodder the type grows back to. */
    var fMax: real
    /** `alpha` (only `Savannah` sets it). */
    var alpha: real

    ghost predicate Valid()
      reads this
    {
      fMax >= 0.0 && alpha >= 0.0
    }

    constructor (kind: Terrain)
      ensures this.kind == kind && Valid()
      ensures fMax == OrZero(DefaultFMax(kind)) && alpha == DefaultAlpha
    {
      this.kind := kind;
      fMax := OrZero(DefaultFMax(kind));
      alpha := DefaultAlpha;
    }

    /** `BaseCell.set_parameters(f_max)`: `None` is 0, a negative value raises. */
    method SetParameters(fMax: Option<real>) returns (r: Outcome<Error>)
      requires Valid()
      modifies this`fMax
      ensures Valid()
      ensures OrZero(fMax) < 0.0 ==> r == Fail(ValueError(FMaxMessage)) && this.fMax == old(this.fMax)
      ensures OrZero(fMax) >= 0.0 ==> r == Pass && this.fMax == OrZero(fMax)
    {
      var f := OrZero(fMax);
      if f < 0.0 {
        return Fail(ValueError(FMaxMessage));
      }
      this.fMax := f;
      r := Pass;
    }

    /**
     * `Savannah.set_parameters(f_max, alpha)`: `f_max` is checked and stored
     * first, then `alpha` (`None` meaning 0.3) is checked and stored.
     */
    method SetSavannahParameters(fMax: Option<real>, alpha: Option<real>) returns (r: Outcome<Error>)
      requires Valid() && kind == Savannah
      modifies this
      ensures Valid()
      ensures var a := if alpha.None? then DefaultAlpha else alpha.value;
        if OrZero(fMax) < 0.0 then
          r == Fail(ValueError(FMaxMessage)) && this.fMax == old(this.fMax) && this.alpha == old(this.alpha)
        else if a < 0.0 then
          r == Fail(ValueError(AlphaMessage)) && this.fMax == OrZero(fMax) && this.alpha == old(this.alpha)
        else
          r == Pass && this.fMax == OrZero(fMax) && this.alpha == a
    {
      r := SetParameters(fMax);
      if r.Fail? {
        return;
      }
      var a := if alpha.None? then DefaultAlpha else alpha.value;
      if a < 0.0 {
        return Fail(ValueError(AlphaMessage));
      }
      this.alpha := a;
    }
  }

  /** The animals of `xs` of species `s` (`isinstance(animal, Herbivore)` and the like), in order. */
  function Residents(xs: seq<Animal>, s: Species): (r: seq<Animal>)
    ensures |r| <= |xs|
    ensures forall k :: 0 <= k < |r| ==> r[k] in xs && r[k].params.species == s
  {
    if |xs| == 0 then []
    else if xs[0].params.species == s then [xs[0]] + Residents(xs[1..], s)
    else Residents(xs[1..], s)
  }

  lemma {:induction false} ResidentsAppend(xs: seq<Animal>, ys: seq<Animal>, s: Species)
    ensures Residents(xs + ys, s) == Residents(xs, s) + Residents(ys, s)
  {
    if |xs| > 0 {
      ResidentsAppend(xs[1..], ys, s);
      assert (xs + ys)[1..] == xs[1..] + ys;
    } else {
      assert xs + ys == ys;
    }
  }

  /** Every animal of species `s` in `xs` is a resident of that species. */
  lemma {:induction false} ResidentsComplete(xs: seq<Animal>, s: Species, k: nat)
    requires k < |xs| && xs[k].params.species == s
    ensures xs[k] in Residents(xs, s)
  {
    if k > 0 {
      ResidentsComplete(xs[1..], s, k - 1);
    }
  }

  lemma {:induction false} ResidentsDistinct(xs: seq<Animal>, s: Species)
    requires Distinct(xs)
    ensures Distinct(Residents(xs, s))
  {
    if |xs| > 0 {
      ResidentsDistinct(xs[1..], s);
    }
  }

  /** Every animal is a herbivore or a carnivore, so the two counts add up to the population. */
  lemma {:induction false} PopulationSplits(xs: seq<Animal>)
    ensures |Residents(xs, Herbivore)| + |Residents(xs, Carnivore)| == |xs|
  {
    if |xs| > 0 {
      PopulationSplits(xs[1..]);
    }
  }

  /** Filtering out animals and selecting a species commute. */
  lemma {:induction false} ResidentsWithout(xs: seq<Animal>, gone: set<Animal>, s: Species)
    ensures Residents(Without(xs, gone), s) == Without(Residents(xs, s), gone)
  {
    if |xs| > 0 {
      ResidentsWithout(xs[1..], gone, s);
    }
  }

  /** Removing only animals of the other species leaves the residents of `s` as they were. */
  lemma {:induction false} ResidentsWithoutOther(xs: seq<Animal>, gone: set<Animal>, s: Species)
    requires forall a :: a in gone ==> a.params.species != s
    ensures Residents(Without(xs, gone), s) == Residents(xs, s)
  {
    if |xs| > 0 {
      ResidentsWithoutOther(xs[1..], gone, s);
    }
  }

  /** The sum of the weights of `xs`. */
  function WeightSum(xs: seq<Animal>): real
    reads xs
  {
    if |xs| == 0 then 0.0 else WeightSum(xs[..|xs| - 1]) + xs[|xs| - 1].weight
  }

  lemma WeightSumStep(xs: seq<Animal>, x: Animal)
    ensures WeightSum(xs + [x]) == WeightSum(xs) + x.weight
  {
    assert (xs + [x])[..|xs|] == xs;
  }

  /** Weight sums add up over concatenation. */
  lemma {:induction false} WeightSumAppend(xs: seq<Animal>, ys: seq<Animal>)
    ensures WeightSum(xs + ys) == WeightSum(xs) + WeightSum(ys)
    decreases |ys|
  {
    if |ys| > 0 {
      var n := |ys| - 1;
      WeightSumAppend(xs, ys[..n]);
      assert (xs + ys)[..|xs + ys| - 1] == xs + ys[..n];
    } else {
      assert xs + ys == xs;
    }
  }

  /** Animals of non-negative weight have a non-negative weight sum. */
  lemma {:induction false} WeightSumNonNegative(xs: seq<Animal>)
    requires forall k :: 0 <= k < |xs| ==> xs[k].weight >= 0.0
    ensures WeightSum(xs) >= 0.0
  {
    if |xs| > 0 {
      WeightSumNonNegative(xs[..|xs| - 1]);
    }
  }

  /**
   * The fitness of `a` with the shape parameters of its class given as a
   * value: all residents of one species share their class, so the cell
   * sorts them with one shape.
   */
  function FitnessIn(a: Animal, shape: Shape, curve: Curve): real
    reads a
  {
    FitnessOf(curve, shape, a.age, a.weight)
  }

  /** Each animal of `xs` paired with its fitness, the key `sorted` uses. */
  function Keyed(xs: seq<Animal>, shape: Shape, curve: Curve): (r: seq<(Animal, real)>)
    reads xs
    ensures |r| == |xs|
    ensures forall k :: 0 <= k < |xs| ==> r[k] == (xs[k], FitnessIn(xs[k], shape, curve))
  {
    if |xs| == 0 then [] else [(xs[0], FitnessIn(xs[0], shape, curve))] + Keyed(xs[1..], shape, curve)
  }

  lemma KeyedFirsts(xs: seq<Animal>, shape: Shape, curve: Curve)
    ensures Firsts(Keyed(xs, shape, curve)) == xs
  {
  }

  /**
   * `list_of_sorted_herbivores` / `list_of_sorted_carnivores`: the residents
   * of species `s` sorted by fitness with Python's stable `sorted`, lowest
   * fitness first.
   */
  function SortedResidents(xs: seq<Animal>, s: Species, shape: Shape, curve: Curve): seq<Animal>
    reads Residents(xs, s)
  {
    Firsts(SortByKey(Keyed(Residents(xs, s), shape, curve)))
  }

  /**
   * The sorted list holds exactly the residents of the species, each as
   * often as before, in non-decreasing fitness: the lowest fitness comes
   * first, not the highest.
   */
  lemma SortedResidentsFacts(xs: seq<Animal>, s: Species, shape: Shape, curve: Curve)
    ensures multiset(SortedResidents(xs, s, shape, curve)) == multiset(Residents(xs, s))
    ensures forall i, j :: 0 <= i < j < |SortedResidents(xs, s, shape, curve)| ==>
      FitnessIn(SortedResidents(xs, s, shape, curve)[i], shape, curve)
        <= FitnessIn(SortedResidents(xs, s, shape, curve)[j], shape, curve)
  {
    var rs := Residents(xs, s);
    var k := Keyed(rs, shape, curve);
    var sorted := SortByKey(k);
    var r := Firsts(sorted);
    SortByKeyFacts(k);
    KeyedFirsts(rs, shape, curve);
    forall i | 0 <= i < |sorted|
      ensures sorted[i].1 == FitnessIn(r[i], shape, curve)
    {
      SortedFromInput(k, i);
      KeyedPair(rs, shape, curve, sorted[i]);
    }
    forall i, j | 0 <= i < j < |r|
      ensures FitnessIn(r[i], shape, curve) <= FitnessIn(r[j], shape, curve)
    {
      assert sorted[i].1 <= sorted[j].1;
    }
  }

  /** Every pair carries its own animal's fitness. */
  lemma KeyedPair(xs: seq<Animal>, shape: Shape, curve: Curve, p: (Animal, real))
    requires p in Keyed(xs, shape, curve)
    ensures p.1 == FitnessIn(p.0, shape, curve)
  {
  }

  /** Sorting a list without duplicates gives a list without duplicates. */
  lemma SortedResidentsDistinct(xs: seq<Animal>, s: Species, shape: Shape, curve: Curve)
    requires Distinct(xs)
    ensures Distinct(SortedResidents(xs, s, shape, curve))
    ensures forall k :: 0 <= k < |SortedResidents(xs, s, shape, curve)| ==>
      SortedResidents(xs, s, shape, curve)[k] in Residents(xs, s)
    ensures forall k :: 0 <= k < |Residents(xs, s)| ==> Residents(xs, s)[k] in SortedResidents(xs, s, shape, curve)
  {
    var sorted, rs := SortedResidents(xs, s, shape, curve), Residents(xs, s);
    SortedResidentsFacts(xs, s, shape, curve);
    ResidentsDistinct(xs, s);
    PermutationDistinct(rs, sorted);
    forall k | 0 <= k < |sorted|
      ensures sorted[k] in rs
    {
      assert sorted[k] in multiset(sorted);
    }
    forall k | 0 <= k < |rs|
      ensures rs[k] in sorted
    {
      assert rs[k] in multiset(rs);
    }
  }
  /** Filtering out animals and pairing them with their fitness commute. */
  lemma {:induction false} KeyedWithout(xs: seq<Animal>, gone: set<Animal>, shape: Shape, curve: Curve)
    ensures Keyed(Without(xs, gone), shape, curve) == DropKeys(Keyed(xs, shape, curve), gone)
  {
    if |xs| > 0 {
      KeyedWithout(xs[1..], gone, shape, curve);
    }
  }

  // Herbivore feeding, on values: `f` is the fodder before the first
  // herbivore eats and `F` the appetite `Herbivore.F`.

  /** What a herbivore eats when it finds `x` fodder: its appetite, or all that is left. */
  function Eaten(x: real, F: real): real {
    if x >= F then F else x
  }

  /** The fodder the next herbivore finds. */
  function Next(x: real, F: real): real {
    if x >= F then x - F else 0.0
  }

  /** The fodder left after `k` herbivores have eaten. */
  function Left(f: real, F: real, k: nat): real {
    if k == 0 then f else Next(Left(f, F, k - 1), F)
  }

  /** The food of the herbivore at position `k` of the feeding order. */
  function Portion(f: real, F: real, k: nat): real {
    Eaten(Left(f, F, k), F)
  }

  /** The weight gained by the herbivore at position `k`, for a food-to-weight factor `beta`. */
  function Gain(beta: real, f: real, F: real, k: nat): real {
    beta * Portion(f, F, k)
  }

  /** The food of the first `n` herbivores together. */
  function TotalEaten(f: real, F: real, n: nat): real {
    if n == 0 then 0.0 else TotalEaten(f, F, n - 1) + Portion(f, F, n - 1)
  }

  /** Fodder is conserved: what was eaten plus what is left is what there was. */
  lemma {:induction false} FeedingConserves(f: real, F: real, n: nat)
    ensures TotalEaten(f, F, n) + Left(f, F, n) == f
  {
    if n > 0 {
      FeedingConserves(f, F, n - 1);
    }
  }

  /**
   * From non-negative fodder and appetite, each herbivore eats
   * `min(F, remaining)`, never more than `F`, and the fodder never goes
   * below 0.
   */
  lemma {:induction false} FeedingBounds(f: real, F: real, k: nat)
    requires f >= 0.0 && F >= 0.0
    ensures Left(f, F, k) >= 0.0
    ensures Portion(f, F, k) == Min(F, Left(f, F, k))
    ensures 0.0 <= Portion(f, F, k) <= F
  {
    if k > 0 {
      FeedingBounds(f, F, k - 1);
    }
  }

  /** While at least `F` per herbivore is left, each of the first `n` herbivores eats exactly `F`. */
  lemma {:induction false} FeedingFull(f: real, F: real, n: nat)
    requires F >= 0.0 && f >= n as real * F
    ensures Left(f, F, n) == f - n as real * F
    ensures forall k :: 0 <= k < n ==> Portion(f, F, k) == F
  {
    if n > 0 {
      assert f >= (n - 1) as real * F;
      FeedingFull(f, F, n - 1);
    }
  }

  /** With a non-negative appetite, an empty cell feeds nobody, so the `fodder != 0` test changes nothing. */
  lemma {:induction false} FeedingFromNothing(F: real, k: nat)
    requires F >= 0.0
    ensures Left(0.0, F, k) == 0.0 && Portion(0.0, F, k) == 0.0
  {
    if k > 0 {
      FeedingFromNothing(F, k - 1);
    }
  }

  // Carnivore feeding, on values. `kill(c, h)` is the outcome of
  // `c.prob_carnivore_kill(h.fitness)`, a member of `Carnivore` that is not
  // part of this model.
  type KillOracle = (Animal, Animal) -> bool

  /** Whether `c` kills `h`. */
  function Catches(kill: KillOracle, c: Animal, h: Animal): bool {
    kill(c, h)
  }

  /** The herbivores of `hs` that `c` kills, in the order it tries them. */
  function Kills(c: Animal, hs: seq<Animal>, kill: KillOracle): (r: seq<Animal>)
    ensures |r| <= |hs|
  {
    if |hs| == 0 then []
    else Kills(c, hs[..|hs| - 1], kill) + (if Catches(kill, c, hs[|hs| - 1]) then [hs[|hs| - 1]] else [])
  }

  lemma KillsStep(c: Animal, hs: seq<Animal>, h: Animal, kill: KillOracle)
    ensures Kills(c, hs + [h], kill) == Kills(c, hs, kill) + (if Catches(kill, c, h) then [h] else [])
  {
    assert (hs + [h])[..|hs|] == hs;
  }

  /** The victims are taken from `hs` in its order, so they are distinct when `hs` is. */
  lemma {:induction false} KillsFacts(c: Animal, hs: seq<Animal>, kill: KillOracle)
    ensures forall k :: 0 <= k < |Kills(c, hs, kill)| ==> Kills(c, hs, kill)[k] in hs
    ensures forall h :: h in hs && Catches(kill, c, h) ==> h in Kills(c, hs, kill)
    ensures Distinct(hs) ==> Distinct(Kills(c, hs, kill))
  {
    if |hs| > 0 {
      var init := hs[..|hs| - 1];
      KillsFacts(c, init, kill);
      assert hs == init + [hs[|hs| - 1]];
      if Distinct(hs) {
        assert Distinct(init);
        assert hs[|hs| - 1] !in init;
      }
    }
  }

  /**
   * Victims taken from distinct members of `xs` of class `p` are distinct
   * members of `xs` of class `p`.
   */
  lemma VictimsFacts(c: Animal, hs: seq<Animal>, xs: seq<Animal>, p: SpeciesParams, kill: KillOracle)
    requires Distinct(hs)
    requires forall k :: 0 <= k < |hs| ==> hs[k] in xs && hs[k].params == p
    ensures Distinct(Kills(c, Reverse(hs), kill))
    ensures forall d :: d in Kills(c, Reverse(hs), kill) ==> d in xs
    ensures forall k :: 0 <= k < |Kills(c, Reverse(hs), kill)| ==> Kills(c, Reverse(hs), kill)[k].params == p
  {
    var killed := Kills(c, Reverse(hs), kill);
    ReverseIndex(hs);
    ReverseElements(hs);
    KillsFacts(c, Reverse(hs), kill);
    forall k | 0 <= k < |killed|
      ensures killed[k] in xs && killed[k].params == p
    {
      var j :| 0 <= j < |hs| && Reverse(hs)[j] == killed[k];
      assert killed[k] == hs[|hs| - 1 - j];
    }
  }

  /**
   * The victims of each carnivore of `cs` in turn. Each one tries the
   * herbivores of `order`, fittest first, that earlier carnivores have not
   * killed.
   */
  function Ledger(cs: seq<Animal>, order: seq<Animal>, kill: KillOracle): (r: seq<seq<Animal>>)
    ensures |r| == |cs|
    decreases |cs|
  {
    if |cs| == 0 then []
    else
      var victims := Kills(cs[0], order, kill);
      [victims] + Ledger(cs[1..], Without(order, ToSet(victims)), kill)
  }

  /** Everybody killed according to a ledger. */
  function KilledSet(ledger: seq<seq<Animal>>): set<Animal> {
    if |ledger| == 0 then {} else KilledSet(ledger[..|ledger| - 1]) + ToSet(ledger[|ledger| - 1])
  }

  /**
   * No herbivore is killed twice: every ledger entry has distinct victims,
   * taken from `order`, and no two entries share a victim.
   */
  lemma {:induction false} LedgerDisjoint(cs: seq<Animal>, order: seq<Animal>, kill: KillOracle)
    requires Distinct(order)
    ensures forall i :: 0 <= i < |cs| ==> Distinct(Ledger(cs, order, kill)[i])
    ensures forall i, h :: 0 <= i < |cs| && h in Ledger(cs, order, kill)[i] ==> h in order
    ensures forall i, j, h :: 0 <= i < j < |cs| && h in Ledger(cs, order, kill)[i] ==> h !in Ledger(cs, order, kill)[j]
    decreases |cs|
  {
    if |cs| > 0 {
      var victims := Kills(cs[0], order, kill);
      var left := Without(order, ToSet(victims));
      var rest := Ledger(cs[1..], left, kill);
      var l := Ledger(cs, order, kill);
      assert l == [victims] + rest;
      KillsFacts(cs[0], order, kill);
      WithoutDistinct(order, ToSet(victims));
      LedgerDisjoint(cs[1..], left, kill);
      forall i, h | 0 <= i < |cs| && h in l[i]
        ensures h in order
      {
        if i > 0 {
          assert h in rest[i - 1];
          WithoutMember(order, ToSet(victims), h);
        } else {
          var k :| 0 <= k < |victims| && victims[k] == h;
        }
      }
      forall i, j, h | 0 <= i < j < |cs| && h in l[i]
        ensures h !in l[j]
      {
        assert l[j] == rest[j - 1];
        if i > 0 {
          assert l[i] == rest[i - 1];
        } else {
          assert h in ToSet(victims);
          if h in rest[j - 1] {
            WithoutMember(order, ToSet(victims), h);
            assert false;
          }
        }
      }
    }
  }

  /**
   * The hunting order is unaffected by removing herbivores: the herbivores
   * left, sorted afresh and reversed, are the reversed sorted herbivores
   * without the removed ones.
   */
  lemma HuntingOrder(xs: seq<Animal>, gone: set<Animal>, shape: Shape, curve: Curve)
    ensures Reverse(SortedResidents(Without(xs, gone), Herbivore, shape, curve))
      == Without(Reverse(SortedResidents(xs, Herbivore, shape, curve)), gone)
  {
    var ps := Keyed(Residents(xs, Herbivore), shape, curve);
    ResidentsWithout(xs, gone, Herbivore);
    KeyedWithout(Residents(xs, Herbivore), gone, shape, curve);
    SortDropCommute(ps, gone);
    DropKeysFirsts(SortByKey(ps), gone);
    ReverseWithout(SortedResidents(xs, Herbivore, shape, curve), gone);
  }

  /**
   * After carnivore `i` killed `killed` in the hunting order `order`, the
   * ledger, the set of victims and the residents left all advance by that
   * turn.
   */
  lemma TurnTaken(cs: seq<Animal>, i: nat, R0: seq<Animal>, order: seq<Animal>, kill: KillOracle,
                  ledger: seq<seq<Animal>>, killed: seq<Animal>, A0: seq<Animal>, gone: set<Animal>)
    requires i < |cs|
    requires Ledger(cs, R0, kill) == ledger + Ledger(cs[i..], order, kill)
    requires killed == Kills(cs[i], order, kill)
    requires gone == KilledSet(ledger)
    ensures Ledger(cs, R0, kill) == (ledger + [killed]) + Ledger(cs[i + 1..], Without(order, ToSet(killed)), kill)
    ensures Without(Without(A0, gone), ToSet(killed)) == Without(A0, gone + ToSet(killed))
    ensures KilledSet(ledger + [killed]) == gone + ToSet(killed)
  {
    LedgerStep(cs, i, order, kill);
    var rest := Ledger(cs[i + 1..], Without(order, ToSet(killed)), kill);
    assert ledger + ([killed] + rest) == (ledger + [killed]) + rest;
    WithoutTwice(A0, gone, ToSet(killed));
    KilledSetStep(ledger, killed);
  }

  /** The ledger from carnivore `i` on: its victims, then the rest without them. */
  lemma LedgerStep(cs: seq<Animal>, i: nat, order: seq<Animal>, kill: KillOracle)
    requires i < |cs|
    ensures Ledger(cs[i..], order, kill)
      == [Kills(cs[i], order, kill)] + Ledger(cs[i + 1..], Without(order, ToSet(Kills(cs[i], order, kill))), kill)
  {
    assert cs[i..][1..] == cs[i + 1..];
  }

  /** A ledger with one more entry has its victims killed too. */
  lemma KilledSetStep(ledger: seq<seq<Animal>>, v: seq<Animal>)
    ensures KilledSet(ledger + [v]) == KilledSet(ledger) + ToSet(v)
  {
    assert (ledger + [v])[..|ledger|] == ledger;
  }

  /** One entry of a population list: the `'species'`, `'age'` and `'weight'` of a dictionary. */
  datatype PopEntry = PopEntry(species: string, age: Option<int>, weight: Option<real>)

  /** The two species names `add_population` recognises. */
  function EntrySpecies(e: PopEntry): Option<Species> {
    SpeciesNamed(e.species)
  }

  /** The error the constructor raises for an entry, if any (other species are skipped). */
  function EntryError(e: PopEntry): Option<Error> {
    if EntrySpecies(e).None? then None
    else
      var a := if e.age.None? then 0 else e.age.value;
      var w := if e.weight.None? then 10.0 else e.weight.value;
      if a < 0 then Some(ValueError(AgeMessage))
      else if w < 0.0 then Some(ValueError(WeightMessage))
      else None
  }

  /** The position of the first entry whose animal cannot be built, or `|pop|`. */
  function FirstFailing(pop: seq<PopEntry>): (k: nat)
    ensures k <= |pop|
    ensures forall j :: 0 <= j < k ==> EntryError(pop[j]).None?
    ensures k < |pop| ==> EntryError(pop[k]).Some?
  {
    if |pop| == 0 then 0
    else if EntryError(pop[0]).Some? then 0
    else 1 + FirstFailing(pop[1..])
  }

  /** The (species, age, weight) of the animal an animal-building entry creates, with the defaults filled in. */
  function Describe(e: PopEntry): (Species, int, real)
    requires EntrySpecies(e).Some?
  {
    (EntrySpecies(e).value, if e.age.None? then 0 else e.age.value, if e.weight.None? then 10.0 else e.weight.value)
  }

  /** The animals the entries create, in order; entries of other species add nothing. */
  function Described(pop: seq<PopEntry>): seq<(Species, int, real)> {
    if |pop| == 0 then []
    else
      var e := pop[|pop| - 1];
      Described(pop[..|pop| - 1]) + (if EntrySpecies(e).Some? then [Describe(e)] else [])
  }

  /** What `add_population(pop)` returns: the first constructor error, if any. */
  function AddOutcome(pop: seq<PopEntry>): Outcome<Error> {
    var k := FirstFailing(pop);
    if k < |pop| then Fail(EntryError(pop[k]).value) else Pass
  }

  /** The population list fails exactly when one of its animal entries has a negative age or weight. */
  lemma AddOutcomeMeaning(pop: seq<PopEntry>)
    ensures AddOutcome(pop).Pass? <==> forall j :: 0 <= j < |pop| ==> EntryError(pop[j]).None?
    ensures AddOutcome(pop).Fail? ==> AddOutcome(pop).error.ValueError?
  {
    var k := FirstFailing(pop);
    if k < |pop| {
      assert EntryError(pop[k]).Some?;
    }
  }

  /** An entry of another species never creates an animal and leaves the outcome as it was. */
  lemma OtherSpeciesIgnored(pop: seq<PopEntry>, e: PopEntry)
    requires EntrySpecies(e).None?
    ensures Described(pop + [e]) == Described(pop)
    ensures AddOutcome(pop + [e]) == AddOutcome(pop)
  {
    assert (pop + [e])[..|pop|] == pop;
    FirstFailingAppend(pop, e);
    if FirstFailing(pop) < |pop| {
      assert (pop + [e])[FirstFailing(pop)] == pop[FirstFailing(pop)];
    }
  }

  /** Appending an entry changes the first failing position only when none of the others fails. */
  lemma {:induction false} FirstFailingAppend(pop: seq<PopEntry>, e: PopEntry)
    ensures FirstFailing(pop + [e]) == if FirstFailing(pop) < |pop| then FirstFailing(pop) else |pop| + FirstFailing([e])
  {
    if |pop| > 0 {
      assert (pop + [e])[1..] == pop[1..] + [e];
      FirstFailingAppend(pop[1..], e);
    } else {
      assert pop + [e] == [e];
    }
  }

  /** The animals of the first `i + 1` entries: those of the first `i` and the one of entry `i`, if it builds one. */
  lemma DescribedStep(pop: seq<PopEntry>, i: nat)
    requires i < |pop|
    ensures Described(pop[..i + 1]) == Described(pop[..i]) + (if EntrySpecies(pop[i]).Some? then [Describe(pop[i])] else [])
  {
    assert pop[..i + 1][..i] == pop[..i];
  }

  /** Entry `i`, reached with no earlier entry failing, is the first failing one exactly when it raises. */
  lemma FailingAt(pop: seq<PopEntry>, i: nat)
    requires i <= FirstFailing(pop) && i < |pop|
    ensures EntryError(pop[i]).Some? ==> FirstFailing(pop) == i
    ensures EntryError(pop[i]).None? ==> i + 1 <= FirstFailing(pop)
  {
  }

  /**
   * The relative abundance `amount / ((count + 1) * F)` of a cell with
   * `count` animals of appetite `F`; a zero divisor raises.
   */
  function Abundance(amount: real, count: nat, F: real): (r: Result<real, Error>)
    ensures r.Failure? <==> F == 0.0
    ensures r.Failure? ==> r.error == ZeroDivisionError
    ensures r.Success? ==> r.value * ((count + 1) as real * F) == amount
  {
    var d := (count + 1) as real * F;
    DivisorZero(count, F);
    if d == 0.0 then Failure(ZeroDivisionError) else Success(amount / d)
  }

  /** `np.exp(lambda_ * abundance)`, with `exp` standing for `np.exp`. */
  function Propensity(exp: real -> real, lambda_: real, abundance: real): real {
    exp(lambda_ * abundance)
  }

  /** The divisor `(count + 1) * F` of an abundance is 0 exactly when the appetite `F` is. */
  lemma DivisorZero(count: nat, F: real)
    ensures (count + 1) as real * F == 0.0 <==> F == 0.0
  {
    if (count + 1) as real * F == 0.0 {
      ZeroProduct((count + 1) as real, F);
    }
  }

  /** One more animal adds its weight to the herbivore total exactly when it is a herbivore. */
  lemma BiomassStep(xs: seq<Animal>, i: nat)
    requires i < |xs|
    ensures WeightSum(Residents(xs[..i + 1], Herbivore))
      == WeightSum(Residents(xs[..i], Herbivore)) + (if xs[i].params.species == Herbivore then xs[i].weight else 0.0)
  {
    assert xs[..i + 1] == xs[..i] + [xs[i]];
    ResidentsAppend(xs[..i], [xs[i]], Herbivore);
    WeightSumAppend(Residents(xs[..i], Herbivore), Residents([xs[i]], Herbivore));
  }

  /** The message of the `ValueError` raised by `list.remove`. */
  const RemoveMessage := "list.remove(x): x not in list"

  /** The (species, age, weight) of a live animal. */
  function Status(a: Animal): (Species, int, real)
    reads a
  {
    (a.params.species, a.age, a.weight)
  }

  /** The weight put on by eating `food` at a food-to-weight factor `beta`. */
  function Growth(beta: real, food: real): real {
    beta * food
  }

  /**
   * One step of `Hunt`: `c` tries `h` and, if it kills it, eats it, after
   * gaining by the victims of `killed` since it weighed `start`.
   */
  method Bite(c: Animal, h: Animal, kill: KillOracle, killed: seq<Animal>,
              ghost beta: real, ghost weights: map<Animal, real>, ghost start: real)
    returns (now: seq<Animal>)
    requires c != h && h in weights && h.weight == weights[h] && c.params.table.beta == beta
    requires c.weight == start + Gains(beta, killed, weights)
    modifies c`weight
    ensures now == killed + (if Catches(kill, c, h) then [h] else [])
    ensures c.weight == start + Gains(beta, now, weights)
  {
    now := killed;
    if Catches(kill, c, h) {
      var w := h.weight;
      now := killed + [h];
      assert now[..|killed|] == killed;
      c.WeightGain(w);
    }
  }

  /** What eating the animals of `xs`, weighing what `w` records, one by one adds at rate `beta`. */
  function Gains(beta: real, xs: seq<Animal>, w: map<Animal, real>): real {
    if |xs| == 0 then 0.0 else Gains(beta, xs[..|xs| - 1], w) + beta * (if xs[|xs| - 1] in w then w[xs[|xs| - 1]] else 0.0)
  }

  /** Gaining meal by meal is gaining by the whole. */
  lemma {:induction false} GainsGrowth(beta: real, xs: seq<Animal>, w: map<Animal, real>)
    ensures Gains(beta, xs, w) == Growth(beta, SumOf(xs, w))
  {
    if |xs| > 0 {
      GainsGrowth(beta, xs[..|xs| - 1], w);
    }
  }

  /** The sum of the weights `w` records for the animals of `xs`. */
  function SumOf(xs: seq<Animal>, w: map<Animal, real>): real {
    if |xs| == 0 then 0.0 else SumOf(xs[..|xs| - 1], w) + (if xs[|xs| - 1] in w then w[xs[|xs| - 1]] else 0.0)
  }

  /** Animals whose weights `w` records have the weight sum `w` gives them. */
  lemma {:induction false} WeightSumIs(xs: seq<Animal>, w: map<Animal, real>)
    requires forall k :: 0 <= k < |xs| ==> xs[k] in w && xs[k].weight == w[xs[k]]
    ensures WeightSum(xs) == SumOf(xs, w)
  {
    if |xs| > 0 {
      WeightSumIs(xs[..|xs| - 1], w);
    }
  }

  /** Every ledger entry weighs what `weights` says, when `weights` records the herbivores hunted. */
  lemma LedgerWeighed(cs: seq<Animal>, order: seq<Animal>, kill: KillOracle, weights: map<Animal, real>)
    requires Distinct(order)
    requires forall h :: h in order ==> h in weights && h.weight == weights[h]
    ensures forall k :: 0 <= k < |cs| ==> WeightSum(Ledger(cs, order, kill)[k]) == SumOf(Ledger(cs, order, kill)[k], weights)
  {
    var ledger := Ledger(cs, order, kill);
    LedgerDisjoint(cs, order, kill);
    forall k | 0 <= k < |cs|
      ensures WeightSum(ledger[k]) == SumOf(ledger[k], weights)
    {
      forall j | 0 <= j < |ledger[k]|
        ensures ledger[k][j] in weights && ledger[k][j].weight == weights[ledger[k][j]]
      {
        assert ledger[k][j] in ledger[k];
      }
      WeightSumIs(ledger[k], weights);
    }
  }

  /**
   * The inner loop of `carnivores_eat`: `c` tries the herbivores of `order`
   * in turn and gains `beta` times the weight of each one it kills.
   */
  method Hunt(c: Animal, order: seq<Animal>, kill: KillOracle) returns (killed: seq<Animal>)
    requires c !in order
    modifies c`weight
    ensures killed == Kills(c, order, kill)
    ensures c.weight == old(c.weight) + Growth(c.params.table.beta, old(WeightSum(killed)))
  {
    ghost var beta := c.params.table.beta;
    ghost var weights := map h | h in order :: h.weight;
    KillsFacts(c, order, kill);
    WeightSumIs(Kills(c, order, kill), weights);
    killed := [];
    var i := 0;
    while i < |order|
      invariant 0 <= i <= |order|
      invariant c.params.table.beta == beta
      invariant killed == Kills(c, order[..i], kill)
      invariant c.weight == old(c.weight) + Gains(beta, killed, weights)
    {
      var h := order[i];
      assert order[..i + 1] == order[..i] + [h];
      KillsStep(c, order[..i], h, kill);
      killed := Bite(c, h, kill, killed, beta, weights, old(c.weight));
      i := i + 1;
    }
    assert order[..i] == order;
    GainsGrowth(beta, killed, weights);
  }

  /**
   * A cell. `herbivores` and `carnivores` are the classes `Herbivore` and
   * `Carnivore` its animals belong to; `params` is the class of its landscape
   * type.
   */
  class Cell {
    const kind: Terrain
    const params: TerrainParams
    const herbivores: SpeciesParams
    const carnivores: SpeciesParams
    /** `animal_can_enter` */
    const canEnter: bool
    /** `fodder_in_cell` */
    var fodder: real
    /** `animals`, the residents in the order they arrived */
    var animals: seq<Animal>

    ghost predicate Valid()
      reads this, params, herbivores, carnivores
    {
      && params.kind == kind && params.Valid()
      && herbivores.species == Herbivore && herbivores.Valid()
      && carnivores.species == Carnivore && carnivores.Valid()
      && Distinct(animals)
      && forall k :: 0 <= k < |animals| ==> animals[k].params == herbivores || animals[k].params == carnivores
    }

    /**
     * `Savannah()`, `Jungle()`, ...: the type's `set_parameters()` runs again
     * with its defaults, the fodder starts at `f_max`, and the desert,
     * mountain and ocean then set it to 0; mountain and ocean cells cannot
     * be entered.
     */
    constructor (kind: Terrain, params: TerrainParams, herbivores: SpeciesParams, carnivores: SpeciesParams)
      requires params.kind == kind && params.Valid()
      requires herbivores.species == Herbivore && herbivores.Valid()
      requires carnivores.species == Carnivore && carnivores.Valid()
      modifies params
      ensures Valid()
      ensures this.kind == kind && this.params == params
      ensures this.herbivores == herbivores && this.carnivores == carnivores
      ensures animals == []
      ensures params.fMax == OrZero(DefaultFMax(kind))
      ensures params.alpha == if kind == Savannah then DefaultAlpha else old(params.alpha)
      ensures fodder == if kind == Savannah || kind == Jungle then params.fMax else 0.0
      ensures canEnter <==> kind != Mountain && kind != Ocean
    {
      this.kind := kind;
      this.params := params;
      this.herbivores := herbivores;
      this.carnivores := carnivores;
      canEnter := kind != Mountain && kind != Ocean;
      animals := [];
      params.fMax := OrZero(DefaultFMax(kind));
      if kind == Savannah {
        params.alpha := DefaultAlpha;
      }
      new;
      FodderFirstYear(params.fMax);
      if kind == Desert || kind == Mountain || kind == Ocean {
        fodder := 0.0;
      }
    }

    /** `fodder_first_year(f_max)` */
    method FodderFirstYear(fMax: real)
      modifies this`fodder
      ensures fodder == fMax
    {
      fodder := fMax;
    }

    /**
     * `regrow_fodder`: the savannah relaxes towards `f_max`, every other
     * type is reset to its `f_max`.
     */
    method RegrowFodder()
      requires Valid()
      modifies this`fodder
      ensures kind == Savannah ==> fodder == Regrowth(old(fodder), params.fMax, params.alpha)
      ensures kind != Savannah ==> fodder == params.fMax
      ensures 0.0 <= params.alpha <= 1.0 && old(fodder) <= params.fMax ==> old(fodder) <= fodder <= params.fMax
    {
      if kind == Savannah {
        if 0.0 <= params.alpha <= 1.0 {
          RegrowthBetween(fodder, params.fMax, params.alpha);
        }
        fodder := fodder + params.alpha * (params.fMax - fodder);
      } else {
        fodder := params.fMax;
      }
    }

    /** `total_population` */
    function TotalPopulation(): (n: nat)
      reads this
      ensures n == TotalHerbivores() + TotalCarnivores()
    {
      PopulationSplits(animals);
      |animals|
    }

    /** `total_herbivores` */
    function TotalHerbivores(): nat
      reads this
    {
      |Residents(animals, Herbivore)|
    }

    /** `total_carnivores` */
    function TotalCarnivores(): nat
      reads this
    {
      |Residents(animals, Carnivore)|
    }

    /** `list_of_sorted_herbivores` */
    function SortedHerbivores(curve: Curve): seq<Animal>
      reads this, herbivores, Residents(animals, Herbivore)
    {
      SortedResidents(animals, Herbivore, herbivores.FitnessShape(), curve)
    }

    /** `list_of_sorted_carnivores` */
    function SortedCarnivores(curve: Curve): seq<Animal>
      reads this, carnivores, Residents(animals, Carnivore)
    {
      SortedResidents(animals, Carnivore, carnivores.FitnessShape(), curve)
    }

    /**
     * One pass of the `add_population` loop: an animal entry builds its
     * animal, which is appended, or raises; an entry of another species does
     * nothing.
     */
    method AddEntry(e: PopEntry) returns (r: Outcome<Error>)
      requires Valid()
      modifies this`animals
      ensures Valid()
      ensures r == if EntryError(e).Some? then Fail(EntryError(e).value) else Pass
      ensures r.Fail? || EntrySpecies(e).None? ==> animals == old(animals)
      ensures r.Pass? && EntrySpecies(e).Some? ==>
        && |animals| == |old(animals)| + 1
        && animals == old(animals) + [animals[|old(animals)|]]
        && fresh(animals[|old(animals)|])
        && Status(animals[|old(animals)|]) == Describe(e)
    {
      var sp := EntrySpecies(e);
      r := Pass;
      if sp.Some? {
        var cls := if sp.value == Herbivore then herbivores else carnivores;
        var made := Animal.New(cls, e.age, e.weight);
        if made.Failure? {
          return Fail(made.error);
        }
        animals := animals + [made.value];
      }
    }

    /**
     * `add_population(pop)`: one new animal is appended per `'Herbivore'` or
     * `'Carnivore'` entry, with the entry's age and weight; other entries are
     * skipped. The first entry the constructor rejects raises, and the
     * animals of the entries before it stay appended.
     */
    method AddPopulation(pop: seq<PopEntry>) returns (r: Outcome<Error>)
      requires Valid()
      modifies this`animals
      ensures Valid()
      ensures r == AddOutcome(pop)
      ensures var added := Described(pop[..FirstFailing(pop)]);
        && |animals| == |old(animals)| + |added|
        && (forall k :: 0 <= k < |old(animals)| ==> animals[k] == old(animals)[k])
        && forall k :: |old(animals)| <= k < |animals| ==>
             fresh(animals[k]) && Status(animals[k]) == added[k - |old(animals)|]
    {
      var i := 0;
      ghost var added: seq<(Species, int, real)> := [];
      while i < |pop|
        invariant 0 <= i <= FirstFailing(pop)
        invariant Valid()
        invariant added == Described(pop[..i])
        invariant |animals| == |old(animals)| + |added|
        invariant forall k :: 0 <= k < |old(animals)| ==> animals[k] == old(animals)[k]
        invariant forall k :: |old(animals)| <= k < |animals| ==>
          fresh(animals[k]) && Status(animals[k]) == added[k - |old(animals)|]
      {
        var e := pop[i];
        DescribedStep(pop, i);
        label Before:
        var step := AddEntry(e);
        FailingAt(pop, i);
        if step.Fail? {
          assert FirstFailing(pop) == i;
          assert animals == old@Before(animals);
          return step;
        }
        if EntrySpecies(e).Some? {
          added := added + [Describe(e)];
        }
        i := i + 1;
      }
      assert FirstFailing(pop) == i;
      r := Pass;
    }

    /** A resident belongs to the class of its species. */
    lemma ResidentClass(a: Animal)
      requires Valid() && a in animals
      ensures a.params == if a.params.species == Herbivore then herbivores else carnivores
    {
    }

    /** The class of the animals of species `s`. */
    function ClassOf(s: Species): SpeciesParams {
      if s == Herbivore then herbivores else carnivores
    }

    /** The fitness-ordered residents of a species are distinct residents of the cell, all of that species' class. */
    lemma SortedMembers(s: Species, curve: Curve)
      requires Valid()
      ensures Distinct(SortedResidents(animals, s, ClassOf(s).FitnessShape(), curve))
      ensures forall k :: 0 <= k < |SortedResidents(animals, s, ClassOf(s).FitnessShape(), curve)| ==>
        && SortedResidents(animals, s, ClassOf(s).FitnessShape(), curve)[k] in animals
        && SortedResidents(animals, s, ClassOf(s).FitnessShape(), curve)[k].params == ClassOf(s)
      ensures forall i, j :: 0 <= i < j < |SortedResidents(animals, s, ClassOf(s).FitnessShape(), curve)| ==>
        SortedResidents(animals, s, ClassOf(s).FitnessShape(), curve)[i].Fitness(curve)
          <= SortedResidents(animals, s, ClassOf(s).FitnessShape(), curve)[j].Fitness(curve)
    {
      var shape := ClassOf(s).FitnessShape();
      var hs, rs := SortedResidents(animals, s, shape, curve), Residents(animals, s);
      SortedResidentsDistinct(animals, s, shape, curve);
      SortedResidentsFacts(animals, s, shape, curve);
      forall k | 0 <= k < |hs|
        ensures hs[k] in animals && hs[k].params == ClassOf(s)
      {
        var j :| 0 <= j < |rs| && rs[j] == hs[k];
        ResidentClass(hs[k]);
      }
      forall i, j | 0 <= i < j < |hs|
        ensures hs[i].Fitness(curve) <= hs[j].Fitness(curve)
      {
        assert FitnessIn(hs[i], shape, curve) <= FitnessIn(hs[j], shape, curve);
      }
    }

    /**
     * `remove_dead_animals(ds)` and `remove_migrated_animal(ds)`, which are
     * the same loop: `list.remove` for each listed animal in turn. An animal
     * that is not (or no longer) resident raises `ValueError`; the removals
     * before it stay done.
     */
    method RemoveAnimals(ds: seq<Animal>) returns (r: Outcome<Error>)
      requires Valid()
      modifies this`animals
      ensures Valid()
      ensures animals == RemovedBeforeFailure(old(animals), ds)
      ensures r == if RemoveEach(old(animals), ds).Some? then Pass else Fail(ValueError(RemoveMessage))
    {
      var i := 0;
      while i < |ds|
        invariant 0 <= i <= |ds|
        invariant Valid()
        invariant RemovedBeforeFailure(old(animals), ds) == RemovedBeforeFailure(animals, ds[i..])
        invariant RemoveEach(old(animals), ds) == RemoveEach(animals, ds[i..])
      {
        assert ds[i..][1..] == ds[i + 1..];
        var rest := RemoveFirst(animals, ds[i]);
        if rest.None? {
          return Fail(ValueError(RemoveMessage));
        }
        RemoveFirstDistinct(animals, ds[i]);
        animals := rest.value;
        i := i + 1;
      }
      r := Pass;
    }

    /**
     * `herbivores_eat`: unless the cell has no fodder, the herbivores eat in
     * the order of `list_of_sorted_herbivores`; each one eats its appetite
     * `Herbivore.F` while that much is left, then the rest, and gains
     * `beta` times what it ate. `order` is that feeding order.
     */
    method HerbivoresEat(curve: Curve) returns (order: seq<Animal>)
      requires Valid()
      modifies this`fodder, ToSet(animals)
      ensures Valid() && animals == old(animals)
      ensures order == old(SortedHerbivores(curve))
      ensures forall k :: 0 <= k < |order| ==> order[k] in old(animals)
      ensures old(fodder) == 0.0 ==> fodder == 0.0 && forall a :: a in animals ==> a.weight == old(a.weight)
      ensures old(fodder) != 0.0 ==>
        && fodder == Left(old(fodder), herbivores.table.F, |order|)
        && forall k :: 0 <= k < |order| ==>
             order[k].weight == old(order[k].weight) + Gain(herbivores.table.beta, old(fodder), herbivores.table.F, k)
      ensures forall a :: a in animals && a.params == carnivores ==> a.weight == old(a.weight)
      ensures forall a :: a in animals ==> a.age == old(a.age)
    {
      order := SortedHerbivores(curve);
      SortedMembers(Herbivore, curve);
      if fodder != 0.0 {
        assert ToSet(order) <= ToSet(animals);
        FeedInOrder(order);
      }
    }

    /** The loop of `herbivores_eat`: the animals of `order` eat in turn from the fodder. */
    method FeedInOrder(order: seq<Animal>)
      requires Distinct(order)
      requires forall k :: 0 <= k < |order| ==> order[k].params == herbivores
      modifies this`fodder, ToSet(order)
      ensures fodder == Left(old(fodder), herbivores.table.F, |order|)
      ensures forall k :: 0 <= k < |order| ==>
        order[k].weight == old(order[k].weight) + Gain(herbivores.table.beta, old(fodder), herbivores.table.F, k)
      ensures forall k :: 0 <= k < |order| ==> order[k].age == old(order[k].age)
    {
      ghost var f0, appetite, beta := fodder, herbivores.table.F, herbivores.table.beta;
      var i := 0;
      while i < |order|
        invariant 0 <= i <= |order|
        invariant herbivores.table.F == appetite && herbivores.table.beta == beta
        invariant fodder == Left(f0, appetite, i)
        invariant forall k :: 0 <= k < i ==> order[k].weight == old(order[k].weight) + Gain(beta, f0, appetite, k)
        invariant forall k :: i <= k < |order| ==> order[k].weight == old(order[k].weight)
        invariant forall k :: 0 <= k < |order| ==> order[k].age == old(order[k].age)
      {
        var h := order[i];
        ghost var portion := Portion(f0, appetite, i);
        assert portion == Eaten(fodder, appetite);
        label Before:
        if fodder >= h.params.table.F {
          var food := herbivores.table.F;
          fodder := fodder - food;
          h.WeightGain(food);
        } else {
          h.WeightGain(fodder);
          fodder := 0.0;
        }
        assert h.weight == old@Before(h.weight) + Gain(beta, f0, appetite, i);
        forall k | 0 <= k < |order| && k != i
          ensures order[k].weight == old@Before(order[k].weight)
        {
          assert order[k] != h;
        }
        i := i + 1;
      }
    }

    /**
     * `abundance_of_fodder_herbivores`: the fodder divided by
     * `(total_herbivores + 1) * Herbivore.F`; a zero appetite divides by 0.
     */
    function AbundanceHerbivores(): (r: Result<real, Error>)
      reads this, herbivores
      ensures r.Failure? <==> herbivores.table.F == 0.0
      ensures r.Failure? ==> r.error == ZeroDivisionError
      ensures r.Success? ==> r.value * ((TotalHerbivores() + 1) as real * herbivores.table.F) == fodder
      ensures r.Success? && fodder >= 0.0 && herbivores.table.F > 0.0 ==> r.value >= 0.0
    {
      Abundance(fodder, TotalHerbivores(), herbivores.table.F)
    }

    /**
     * `abundance_of_fodder_carnivores`: the total weight of the herbivores,
     * summed over the residents, divided by
     * `(total_carnivores + 1) * Carnivore.F`.
     */
    method AbundanceCarnivores() returns (r: Result<real, Error>)
      ensures r == Abundance(HerbivoreBiomass(), TotalCarnivores(), carnivores.table.F)
    {
      var total := 0.0;
      var i := 0;
      while i < |animals|
        invariant 0 <= i <= |animals|
        invariant total == WeightSum(Residents(animals[..i], Herbivore))
      {
        BiomassStep(animals, i);
        if animals[i].params.species == Herbivore {
          total := total + animals[i].weight;
        }
        i := i + 1;
      }
      assert animals[..|animals|] == animals;
      r := Abundance(total, TotalCarnivores(), carnivores.table.F);
    }

    /** The total weight of the herbivores of the cell. */
    function HerbivoreBiomass(): real
      reads this, animals
    {
      WeightSum(Residents(animals, Herbivore))
    }

    /**
     * `propensity_migration_herb`: `exp(Herbivore.lambda_ * abundance)`,
     * `exp` standing for `np.exp`; 0 in mountain and ocean cells.
     */
    function PropensityHerbivores(exp: real -> real): (r: Result<real, Error>)
      reads this, herbivores
      ensures kind == Mountain || kind == Ocean ==> r == Success(0.0)
      ensures kind != Mountain && kind != Ocean ==> (r.Failure? <==> herbivores.table.F == 0.0)
    {
      if kind == Mountain || kind == Ocean then Success(0.0)
      else
        var abundance := AbundanceHerbivores();
        if abundance.Failure? then Failure(abundance.error)
        else Success(Propensity(exp, herbivores.table.lambda_, abundance.value))
    }

    /** `propensity_migration_carn`: as for herbivores, from the carnivore abundance. */
    function CarnivorePropensity(exp: real -> real): (r: Result<real, Error>)
      reads this, carnivores, animals
      ensures kind == Mountain || kind == Ocean ==> r == Success(0.0)
      ensures kind != Mountain && kind != Ocean ==> (r.Failure? <==> carnivores.table.F == 0.0)
    {
      if kind == Mountain || kind == Ocean then Success(0.0)
      else
        var abundance := Abundance(HerbivoreBiomass(), TotalCarnivores(), carnivores.table.F);
        if abundance.Failure? then Failure(abundance.error)
        else Success(Propensity(exp, carnivores.table.lambda_, abundance.value))
    }

    /** The loop of `abundance_of_fodder_carnivores` under `propensity_migration_carn`. */
    method PropensityCarnivores(exp: real -> real) returns (r: Result<real, Error>)
      ensures r == CarnivorePropensity(exp)
    {
      if kind == Mountain || kind == Ocean {
        return Success(0.0);
      }
      var abundance := AbundanceCarnivores();
      if abundance.Failure? {
        return Failure(abundance.error);
      }
      r := Success(Propensity(exp, carnivores.table.lambda_, abundance.value));
    }

    /**
     * `remove_dead_animals` applied to the distinct herbivores a carnivore
     * killed: they leave the cell, and the herbivores left keep their
     * hunting order.
     */
    method RemoveVictims(killed: seq<Animal>, ghost curve: Curve)
      requires Valid() && Distinct(killed)
      requires forall d :: d in killed ==> d in animals && d.params == herbivores
      modifies this`animals
      ensures Valid()
      ensures animals == Without(old(animals), ToSet(killed))
      ensures Reverse(SortedHerbivores(curve)) == Without(Reverse(old(SortedHerbivores(curve))), ToSet(killed))
    {
      ghost var before := animals;
      ghost var sorted := Reverse(SortedHerbivores(curve));
      RemoveEachDistinct(animals, killed);
      RemovedWhenSucceeds(animals, killed);
      var r := RemoveAnimals(killed);
      assert animals == Without(before, ToSet(killed));
      HuntingOrder(before, ToSet(killed), herbivores.FitnessShape(), curve);
      assert sorted == Reverse(SortedResidents(before, Herbivore, herbivores.FitnessShape(), curve));
    }

    /**
     * The hunt of one carnivore: it tries the herbivores from the fittest
     * down, as `reversed(list_of_sorted_herbivores)` orders them, and gains
     * weight for each kill; the herbivores' own state is left as it was.
     */
    method HuntHerd(c: Animal, curve: Curve, kill: KillOracle) returns (killed: seq<Animal>)
      requires Valid() && c.params == carnivores
      modifies c`weight
      ensures SortedHerbivores(curve) == old(SortedHerbivores(curve))
      ensures killed == Kills(c, Reverse(SortedHerbivores(curve)), kill)
      ensures Valid()
      ensures Distinct(killed) && forall d :: d in killed ==> d in animals && d.params == herbivores
      ensures forall k :: 0 <= k < |killed| ==> killed[k] in animals && killed[k].params == herbivores
      ensures c.weight == old(c.weight) + Growth(carnivores.table.beta, old(WeightSum(killed)))
    {
      var hs := SortedHerbivores(curve);
      SortedMembers(Herbivore, curve);
      VictimsFacts(c, hs, animals, herbivores, kill);
      ReverseElements(hs);
      ghost var herd := Residents(animals, Herbivore);
      assert c !in herd;
      killed := Hunt(c, Reverse(hs), kill);
      assert Keyed(herd, herbivores.FitnessShape(), curve) == old(Keyed(herd, herbivores.FitnessShape(), curve));
    }

    /** One carnivore's turn: its hunt, then the removal of its victims. */
    method CarnivoreHunts(c: Animal, curve: Curve, kill: KillOracle, ghost weights: map<Animal, real>) returns (killed: seq<Animal>)
      requires Valid() && c.params == carnivores
      requires forall a :: a in animals && a.params == herbivores ==> a in weights && a.weight == weights[a]
      modifies this`animals, c`weight
      ensures Valid()
      ensures killed == Kills(c, Reverse(old(SortedHerbivores(curve))), kill)
      ensures forall k :: 0 <= k < |killed| ==> killed[k].params == herbivores && killed[k] in old(animals)
      ensures c.weight == old(c.weight) + Growth(carnivores.table.beta, old(WeightSum(killed)))
      ensures c.weight == old(c.weight) + Growth(carnivores.table.beta, SumOf(killed, weights))
      ensures animals == Without(old(animals), ToSet(killed))
      ensures Reverse(SortedHerbivores(curve)) == Without(Reverse(old(SortedHerbivores(curve))), ToSet(killed))
    {
      Victims(curve, c, kill, weights);
      killed := HuntHerd(c, curve, kill);
      RemoveVictims(killed, curve);
    }

    /**
     * The herbivores carnivore `c` would kill now weigh what `weights`
     * records, when it records every herbivore of the cell.
     */
    lemma Victims(curve: Curve, c: Animal, kill: KillOracle, weights: map<Animal, real>)
      requires Valid()
      requires forall a :: a in animals && a.params == herbivores ==> a in weights && a.weight == weights[a]
      ensures WeightSum(Kills(c, Reverse(SortedHerbivores(curve)), kill)) == SumOf(Kills(c, Reverse(SortedHerbivores(curve)), kill), weights)
    {
      var order := Reverse(SortedHerbivores(curve));
      var victims := Kills(c, order, kill);
      SortedMembers(Herbivore, curve);
      ReverseElements(SortedHerbivores(curve));
      KillsFacts(c, order, kill);
      forall k | 0 <= k < |victims|
        ensures victims[k] in weights && victims[k].weight == weights[victims[k]]
      {
        var j :| 0 <= j < |SortedHerbivores(curve)| && SortedHerbivores(curve)[j] == victims[k];
      }
      WeightSumIs(victims, weights);
    }

    /**
     * `carnivores_eat`: the carnivores hunt one after the other in the order
     * of `list_of_sorted_carnivores`, taken once at the start; each one's
     * victims are removed before the next carnivore sorts the herbivores
     * left. `ledger[k]` lists the victims of the `k`-th carnivore, as the
     * `Ledger` of the carnivores and the herbivores with their fitness at
     * the start describes.
     */
    method CarnivoresEat(curve: Curve, kill: KillOracle) returns (hunters: seq<Animal>, ledger: seq<seq<Animal>>)
      requires Valid()
      modifies this`animals, ToSet(animals)`weight
      ensures Valid()
      ensures hunters == old(SortedCarnivores(curve))
      ensures forall k :: 0 <= k < |hunters| ==> hunters[k] in old(animals) && hunters[k].params == carnivores
      ensures ledger == Ledger(hunters, Reverse(old(SortedHerbivores(curve))), kill)
      ensures animals == Without(old(animals), KilledSet(ledger))
      ensures forall k :: 0 <= k < |ledger| ==>
        hunters[k].weight == old(hunters[k].weight) + Growth(carnivores.table.beta, WeightSum(ledger[k]))
      ensures forall a :: a in old(animals) && a.params == herbivores ==> a.weight == old(a.weight)
      ensures forall a :: a in old(animals) ==> a.age == old(a.age)
    {
      hunters := SortedCarnivores(curve);
      HuntersMembers(curve);
      ghost var R0 := Reverse(SortedHerbivores(curve));
      HuntedMembers(curve);
      ghost var weights := map a | a in ToSet(animals) :: a.weight;
      ledger := TakeTurns(hunters, curve, kill, weights);
      forall h | h in R0
        ensures h in weights && h.weight == weights[h]
      {
        assert h !in ToSet(hunters);
      }
      LedgerWeighed(hunters, R0, kill, weights);
      forall a | a in old(animals) && a.params == herbivores
        ensures a.weight == old(a.weight)
      {
        assert a !in ToSet(hunters);
      }
    }

    /** The carnivores in hunting order are distinct carnivores of the cell. */
    lemma HuntersMembers(curve: Curve)
      requires Valid()
      ensures Distinct(SortedCarnivores(curve))
      ensures forall k :: 0 <= k < |SortedCarnivores(curve)| ==>
        SortedCarnivores(curve)[k] in animals && SortedCarnivores(curve)[k].params == carnivores
    {
      SortedMembers(Carnivore, curve);
      assert ClassOf(Carnivore) == carnivores;
    }

    /** The herbivores in hunting order are distinct herbivores of the cell. */
    lemma HuntedMembers(curve: Curve)
      requires Valid()
      ensures Distinct(Reverse(SortedHerbivores(curve)))
      ensures forall h :: h in Reverse(SortedHerbivores(curve)) ==> h in animals && h.params == herbivores
    {
      var hs := SortedHerbivores(curve);
      SortedMembers(Herbivore, curve);
      assert ClassOf(Herbivore) == herbivores;
      ReverseElements(hs);
      forall h | h in Reverse(hs)
        ensures h in animals && h.params == herbivores
      {
        ReverseIndex(hs);
        var k :| 0 <= k < |Reverse(hs)| && Reverse(hs)[k] == h;
        assert hs[|hs| - 1 - k] == h;
      }
    }

    /** What the `k`-th carnivore gained by its victims in `ledger`, 0 if it has not had its turn. */
    static function Gained(ledger: seq<seq<Animal>>, k: nat, beta: real, weights: map<Animal, real>): real {
      if k < |ledger| then Growth(beta, SumOf(ledger[k], weights)) else 0.0
    }

    /**
     * The turn of carnivore `cs[i]`, after the turns that `ledger` records:
     * the carnivores of `cs` weigh what `weights` records plus their gains
     * so far, before and after, and only the gain of `cs[i]` is added.
     */
    method TurnOf(cs: seq<Animal>, i: nat, curve: Curve, kill: KillOracle,
                  ghost weights: map<Animal, real>, ghost ledger: seq<seq<Animal>>, ghost A0: seq<Animal>)
      returns (killed: seq<Animal>)
      requires Valid() && Distinct(cs) && i == |ledger| && i < |cs| && cs[i].params == carnivores
      requires forall a :: a in animals ==> a in A0
      requires forall a :: a in A0 && a.params == herbivores ==> a in weights && a.weight == weights[a]
      requires forall k :: 0 <= k < |cs| ==>
        cs[k] in weights && cs[k].weight == weights[cs[k]] + Gained(ledger, k, carnivores.table.beta, weights)
      modifies this`animals, {cs[i]}`weight
      ensures Valid()
      ensures killed == Kills(cs[i], Reverse(old(SortedHerbivores(curve))), kill)
      ensures forall k :: 0 <= k < |cs| ==>
        cs[k].weight == weights[cs[k]] + Gained(ledger + [killed], k, carnivores.table.beta, weights)
      ensures animals == Without(old(animals), ToSet(killed))
      ensures Reverse(SortedHerbivores(curve)) == Without(Reverse(old(SortedHerbivores(curve))), ToSet(killed))
      ensures forall a :: a in A0 && a.params == herbivores ==> a in weights && a.weight == weights[a]
    {
      killed := CarnivoreHunts(cs[i], curve, kill, weights);
      forall k | 0 <= k < |cs|
        ensures cs[k].weight == weights[cs[k]] + Gained(ledger + [killed], k, carnivores.table.beta, weights)
      {
        assert (ledger + [killed])[..i] == ledger;
        if k != i {
          assert cs[k] != cs[i];
        }
      }
    }

    /**
     * The loop of `carnivores_eat` over the carnivores `cs`: each one's hunt
     * and the removal of its victims, in turn. Only the carnivores' weights
     * change, each by `beta` times the weight of its victims, which
     * `weights` records with every other weight of the cell.
     */
    method TakeTurns(cs: seq<Animal>, curve: Curve, kill: KillOracle, ghost weights: map<Animal, real>)
      returns (ledger: seq<seq<Animal>>)
      requires Valid() && Distinct(cs)
      requires forall k :: 0 <= k < |cs| ==> cs[k] in animals && cs[k].params == carnivores
      requires forall a :: a in animals ==> a in weights && a.weight == weights[a]
      modifies this`animals, ToSet(cs)`weight
      ensures Valid()
      ensures ledger == Ledger(cs, Reverse(old(SortedHerbivores(curve))), kill)
      ensures animals == Without(old(animals), KilledSet(ledger))
      ensures forall k :: 0 <= k < |cs| ==>
        cs[k].weight == old(cs[k].weight) + Growth(carnivores.table.beta, SumOf(ledger[k], weights))
    {
      ghost var A0 := animals;
      ghost var R0 := Reverse(SortedHerbivores(curve));
      ghost var gone: set<Animal> := {};
      ghost var order := R0;
      ledger := [];
      WithoutNothing(A0);
      var i := 0;
      while i < |cs|
        invariant 0 <= i <= |cs| && |ledger| == i
        invariant Valid()
        invariant gone == KilledSet(ledger)
        invariant animals == Without(A0, gone)
        invariant Reverse(SortedHerbivores(curve)) == order
        invariant Ledger(cs, R0, kill) == ledger + Ledger(cs[i..], order, kill)
        invariant forall a :: a in A0 && a.params == herbivores ==> a in weights && a.weight == weights[a]
        invariant forall k :: 0 <= k < |cs| ==>
          cs[k] in weights && cs[k].weight == weights[cs[k]] + Gained(ledger, k, carnivores.table.beta, weights)
      {
        var killed := TurnOf(cs, i, curve, kill, weights, ledger, A0);
        TurnTaken(cs, i, R0, order, kill, ledger, killed, A0, gone);
        ledger := ledger + [killed];
        gone := gone + ToSet(killed);
        order := Without(order, ToSet(killed));
        i := i + 1;
      }
      assert cs[i..] == [];
    }
  }
}
