/**
 * Animals (the older revision, `animals.py`): the same fifteen validated
 * class attributes as the current revision, but no defaults until
 * `set_parameters` has run, an animal constructor without validation
 * (weight defaults to `None`), a stored `fitness` attribute, and a
 * `Carnivore.set_parameters` that stores 10.0 for `delta_phi_max`
 * whatever positive value it is given.
 *
 * A class attribute that was never stored is missing: reading it raises
 * `AttributeError`. Each `set_parameters` call assigns a prefix of the
 * fifteen attributes (those checked before the first rejected argument),
 * so the attributes present are always the first `stored` ones.
 *
 * Randomness enters as oracle parameters, as in the current revision.
 */
module LegacyAnimals {
  import opened Wrappers
  import opened Errors
  import Animal

  /** The attribute names, in the order `set_parameters` assigns them. */
  const AttributeNames: seq<string> := [
    "w_birth", "sigma_birth", "beta", "eta", "a_half", "phi_age", "w_half", "phi_weight",
    "mu", "lambda_", "gamma", "zeta", "xi", "omega", "f"]

  /** The positions of the attributes the instance methods read. */
  const WBirth := 0
  const SigmaBirth := 1
  const Beta := 2
  const Eta := 3
  const AHalf := 4
  const PhiAge := 5
  const WHalf := 6
  const PhiWeight := 7
  const Gamma := 10
  const Zeta := 11
  const Omega := 13

  const LegacyDeltaPhiMax := 10.0

  /** The messages of the `TypeError`s a `None` weight or fitness raises. */
  const WeightCompareMessage := "'>' not supported between instances of 'NoneType' and 'int'"
  const ThresholdCompareMessage := "'<' not supported between instances of 'NoneType' and 'float'"
  const WeightAddMessage := "unsupported operand type(s) for +=: 'NoneType' and 'float'"
  const WeightTimesMessage := "unsupported operand type(s) for *: 'float' and 'NoneType'"
  const FitnessTimesMessage := "unsupported operand type(s) for *: 'float' and 'NoneType'"
  const FitnessMinusMessage := "unsupported operand type(s) for -: 'int' and 'NoneType'"

  /** The weight below which an animal does not procreate: `zeta * (w_birth + sigma_birth)`. */
  function LegacyThreshold(t: Animal.AnimalParams): real {
    t.zeta * (t.wBirth + t.sigmaBirth)
  }

  function Max(a: nat, b: nat): nat {
    if a <= b then b else a
  }

  /** The number of attributes `set_parameters(p)` assigns: those before the first rejected argument. */
  function Assigns(p: Animal.AnimalParams): (k: nat)
    ensures k <= Animal.ParamCount
    ensures forall i :: 0 <= i < k ==> Animal.Admissible(i, Animal.ParamSeq(p)[i])
    ensures k < Animal.ParamCount ==> !Animal.Admissible(k, Animal.ParamSeq(p)[k])
  {
    Animal.FirstRejectedFieldAgrees(p);
    Animal.FirstRejectedField(p)
  }

  /**
   * The class attributes of `Herbivore` or `Carnivore`. The fifteen
   * values are kept, and validated, by `attributes`, exactly as in the
   * current revision, whose checks are the same; only the first
   * `stored` of them exist. `delta_phi_max` is missing until
   * `Carnivore.set_parameters` succeeds.
   */
  class LegacySpecies {
    const species: Animal.Species
    const attributes: Animal.SpeciesParams
    var stored: nat
    var deltaPhiMax: Option<real>

    /** Attributes are only ever stored after their check, and `delta_phi_max` is always 10.0. */
    ghost predicate Valid()
      reads this, attributes
    {
      && attributes.Valid()
      && stored <= Animal.ParamCount
      && (deltaPhiMax.Some? ==> deltaPhiMax.value == LegacyDeltaPhiMax)
    }

    /** The class before `set_parameters` was ever called: no attribute exists. */
    constructor (s: Animal.Species)
      ensures species == s && fresh(attributes) && Valid()
      ensures stored == 0 && deltaPhiMax.None?
    {
      species := s;
      attributes := new Animal.SpeciesParams(s);
      stored := 0;
      deltaPhiMax := None;
    }

    /** Reading the class attribute at position `i`. */
    function Attribute(i: nat): (r: Result<real, Error>)
      requires i < Animal.ParamCount
      reads this, attributes
      ensures r.Success? <==> i < stored
      ensures r.Failure? ==> r.error == AttributeError(AttributeNames[i])
      ensures r.Success? ==> r.value == Animal.ParamSeq(attributes.table)[i]
    {
      if i < stored then Success(Animal.ParamSeq(attributes.table)[i])
      else Failure(AttributeError(AttributeNames[i]))
    }

    /**
     * `Animals.set_parameters(...)`, which `Herbivore.set_parameters`
     * calls with its defaults: the checks and stores of the current
     * revision, after which the checked attributes exist.
     */
    method SetParameters(p: Animal.AnimalParams) returns (r: Outcome<Error>)
      requires Valid()
      modifies this`stored, attributes
      ensures Valid()
      ensures r == Animal.SetOutcome(p)
      ensures attributes.table == Animal.StoredTable(old(attributes.table), p)
      ensures stored == Max(old(stored), Assigns(p))
      ensures deltaPhiMax == old(deltaPhiMax)
    {
      r := attributes.SetParameters(p);
      stored := Max(stored, Assigns(p));
    }

    /**
     * `Carnivore.set_parameters(..., delta_phi_max)`: the fifteen checks,
     * then `delta_phi_max` must be strictly positive, and 10.0 is stored
     * whatever its value; `None` stands for the default argument 10.0.
     */
    method SetCarnivoreParameters(p: Animal.AnimalParams, deltaPhi: Option<real>) returns (r: Outcome<Error>)
      requires Valid()
      modifies this`stored, this`deltaPhiMax, attributes
      ensures Valid()
      ensures attributes.table == Animal.StoredTable(old(attributes.table), p)
      ensures stored == Max(old(stored), Assigns(p))
      ensures Animal.SetOutcome(p).Fail? ==> r == Animal.SetOutcome(p) && deltaPhiMax == old(deltaPhiMax)
      ensures Animal.SetOutcome(p).Pass? ==>
        var stored := DeltaPhiMaxStored(if deltaPhi.None? then LegacyDeltaPhiMax else deltaPhi.value);
        if stored.Failure? then r == Fail(stored.error) && deltaPhiMax == old(deltaPhiMax)
        else r == Pass && deltaPhiMax == Some(stored.value)
    {
      r := SetParameters(p);
      if r.Fail? {
        return;
      }
      var d := if deltaPhi.None? then LegacyDeltaPhiMax else deltaPhi.value;
      if d > 0.0 {
        deltaPhiMax := Some(LegacyDeltaPhiMax);
      } else {
        r := Fail(ValueError(Animal.DeltaPhiMaxMessage));
      }
    }
  }

  /** A call that accepts every argument leaves all fifteen attributes present, holding the arguments. */
  lemma AcceptedMakesAllPresent(before: Animal.AnimalParams, stored: nat, p: Animal.AnimalParams)
    requires Animal.SetOutcome(p) == Pass
    ensures Max(stored, Assigns(p)) >= Animal.ParamCount
    ensures Animal.StoredTable(before, p) == p
  {
    Animal.AdmissibleTableMeaning(p);
    Animal.AcceptedIsStoredWhole(before, p);
  }

  /** A rejected argument is never present after the first call: only its predecessors are. */
  lemma RejectedStaysMissing(p: Animal.AnimalParams, k: nat)
    requires k < Animal.ParamCount
    requires forall i :: 0 <= i < k ==> Animal.Admissible(i, Animal.ParamSeq(p)[i])
    requires !Animal.Admissible(k, Animal.ParamSeq(p)[k])
    ensures Max(0, Assigns(p)) == k
    ensures Animal.SetOutcome(p) == Fail(ValueError(Animal.RejectMessage(k)))
  {
    Animal.FirstRejectedIs(Animal.ParamSeq(p), 0, k);
    Animal.FirstRejectedFieldAgrees(p);
    Animal.RejectedRaises(p, k);
  }

  /**
   * What the check of `Carnivore.set_parameters` leaves in
   * `delta_phi_max` for the argument `d`: 10.0 when `d` is strictly
   * positive, else the `ValueError`.
   */
  function DeltaPhiMaxStored(d: real): (r: Result<real, Error>)
    ensures r.Success? <==> d > 0.0
    ensures r.Failure? ==> r.error == ValueError(Animal.DeltaPhiMaxMessage)
  {
    if d > 0.0 then Success(LegacyDeltaPhiMax) else Failure(ValueError(Animal.DeltaPhiMaxMessage))
  }

  /** Every positive `delta_phi_max` other than 10.0 is accepted but not stored: 5.0 is one. */
  lemma DeltaPhiMaxIgnored()
    ensures DeltaPhiMaxStored(5.0).Success? && DeltaPhiMaxStored(5.0).value != 5.0
  {
  }

  /**
   * `Animals(age, weight)`, `Herbivore(age, weight)`, `Carnivore(age, weight)`:
   * no argument is checked; `weight` may be `None`.
   */
  class LegacyAnimal {
    const species: LegacySpecies
    var age: int
    var weight: Option<real>
    var fitness: Option<real>

    /** The arguments are stored as given; `age = None` stands for the default 0. */
    constructor (species: LegacySpecies, age: Option<int>, weight: Option<real>)
      ensures this.species == species
      ensures this.age == (if age.None? then 0 else age.value)
      ensures this.weight == weight && fitness.None?
    {
      this.species := species;
      this.age := if age.None? then 0 else age.value;
      this.weight := weight;
      fitness := None;
    }

    /** `aging`: one year older, nothing else changes. */
    method Aging()
      modifies this`age
      ensures age == old(age) + 1
    {
      age := age + 1;
    }

    /**
     * `birth_weight`: the first strictly positive draw; the draws read
     * `w_birth` and then `sigma_birth`, which raise when missing.
     */
    method BirthWeight(draws: nat -> real) returns (r: Result<real, Error>)
      requires exists i: nat :: draws(i) > 0.0
      ensures species.stored <= WBirth ==> r == Failure(AttributeError(AttributeNames[WBirth]))
      ensures species.stored == SigmaBirth ==> r == Failure(AttributeError(AttributeNames[SigmaBirth]))
      ensures r.Failure? <==> species.stored <= SigmaBirth
      ensures r.Success? ==> r.value > 0.0
      ensures r.Success? ==> exists i: nat :: r.value == draws(i) && forall j: nat :: j < i ==> draws(j) <= 0.0
    {
      var mean := species.Attribute(WBirth);
      if mean.Failure? {
        return Failure(mean.error);
      }
      var sd := species.Attribute(SigmaBirth);
      if sd.Failure? {
        return Failure(sd.error);
      }
      var w := Animal.FirstPositiveDraw(draws);
      r := Success(w);
    }

    /**
     * `weight_gain(food)`: the weight grows by `beta * food`; a missing
     * `beta` raises before a `None` weight does.
     */
    method WeightGain(food: real) returns (r: Outcome<Error>)
      modifies this`weight
      ensures species.Attribute(Beta).Failure? ==> r == Fail(species.Attribute(Beta).error) && weight == old(weight)
      ensures species.Attribute(Beta).Success? && old(weight).None? ==> r == Fail(TypeError(WeightAddMessage)) && weight.None?
      ensures species.Attribute(Beta).Success? && old(weight).Some? ==>
        r == Pass && weight.Some? && weight.value == old(weight).value + species.Attribute(Beta).value * food
    {
      var beta := species.Attribute(Beta);
      if beta.Failure? {
        return Fail(beta.error);
      }
      if weight.None? {
        return Fail(TypeError(WeightAddMessage));
      }
      weight := Some(weight.value + beta.value * food);
      r := Pass;
    }

    /**
     * `weight_loss`: a fraction `eta` of the weight is lost; a missing
     * `eta` raises before a `None` weight does.
     */
    method WeightLoss() returns (r: Outcome<Error>)
      modifies this`weight
      ensures species.Attribute(Eta).Failure? ==> r == Fail(species.Attribute(Eta).error) && weight == old(weight)
      ensures species.Attribute(Eta).Success? && old(weight).None? ==> r == Fail(TypeError(WeightTimesMessage)) && weight.None?
      ensures species.Attribute(Eta).Success? && old(weight).Some? ==>
        var eta := species.Attribute(Eta).value;
        && r == Pass && weight == Some(old(weight).value * (1.0 - eta))
        && (0.0 <= eta <= 1.0 && old(weight).value >= 0.0 ==> 0.0 <= weight.value <= old(weight).value)
    {
      var eta := species.Attribute(Eta);
      if eta.Failure? {
        return Fail(eta.error);
      }
      if weight.None? {
        return Fail(TypeError(WeightTimesMessage));
      }
      if 0.0 <= eta.value <= 1.0 && weight.value >= 0.0 {
        assert 0.0 <= eta.value * weight.value <= weight.value;
      }
      weight := Some(weight.value - eta.value * weight.value);
      r := Pass;
    }

    /**
     * The value `evaluate_fitness` assigns to `fitness`: 0 for a weight
     * that is not positive, otherwise the curve's value, whose attributes
     * are read in the order `phi_age`, `a_half`, `phi_weight`, `w_half`.
     */
    function FitnessValue(curve: Animal.Curve): (r: Result<real, Error>)
      reads this, species, species.attributes
      ensures weight.None? ==> r == Failure(TypeError(WeightCompareMessage))
      ensures weight.Some? && weight.value <= 0.0 ==> r == Success(0.0)
      ensures weight.Some? && weight.value > 0.0 ==> (r.Success? <==> species.stored > PhiWeight)
      ensures weight.Some? && weight.value > 0.0 && species.stored <= PhiAge ==> r == Failure(AttributeError(AttributeNames[PhiAge]))
      ensures r.Success? && Animal.UnitCurve(curve) ==> 0.0 <= r.value <= 1.0
    {
      if weight.None? then Failure(TypeError(WeightCompareMessage))
      else if weight.value <= 0.0 then Success(0.0)
      else if species.Attribute(PhiAge).Failure? then Failure(species.Attribute(PhiAge).error)
      else if species.Attribute(PhiWeight).Failure? then Failure(species.Attribute(PhiWeight).error)
      else Success(Animal.FitnessOf(curve, species.attributes.FitnessShape(), age, weight.value))
    }

    /** `evaluate_fitness`: `fitness` becomes `FitnessValue`, or stays as it was when that raises. */
    method EvaluateFitness(curve: Animal.Curve) returns (r: Outcome<Error>)
      modifies this`fitness
      ensures FitnessValue(curve).Failure? ==> r == Fail(FitnessValue(curve).error) && fitness == old(fitness)
      ensures FitnessValue(curve).Success? ==> r == Pass && fitness == Some(FitnessValue(curve).value)
    {
      if weight.None? {
        return Fail(TypeError(WeightCompareMessage));
      }
      if weight.value > 0.0 {
        var phiAge := species.Attribute(PhiAge);
        if phiAge.Failure? {
          return Fail(phiAge.error);
        }
        var phiWeight := species.Attribute(PhiWeight);
        if phiWeight.Failure? {
          return Fail(phiWeight.error);
        }
        fitness := Some(Animal.FitnessOf(curve, species.attributes.FitnessShape(), age, weight.value));
      } else {
        fitness := Some(0.0);
      }
      r := Pass;
    }

    /**
     * `procreation(n)`: 0 below the weight threshold
     * `zeta * (w_birth + sigma_birth)`, otherwise a draw whose outcome 0
     * has weight `min(1, gamma * fitness * (n - 1))`. A missing `zeta`
     * raises before a `None` weight, and a `None` fitness raises in the
     * product.
     */
    function Procreation(n: int, u: real): (r: Result<nat, Error>)
      reads this, species, species.attributes
      ensures species.stored > Zeta && weight.Some? && weight.value < LegacyThreshold(species.attributes.table) ==> r == Success(0)
      ensures species.stored <= Zeta ==> r == Failure(AttributeError(AttributeNames[Zeta]))
      ensures species.stored > Zeta && weight.None? ==> r == Failure(TypeError(ThresholdCompareMessage))
      ensures r.Success? ==> r.value <= 1
    {
      if species.Attribute(Zeta).Failure? then Failure(species.Attribute(Zeta).error)
      else
        var t := species.attributes.table;
        if weight.None? then Failure(TypeError(ThresholdCompareMessage))
        else if weight.value < LegacyThreshold(t) then Success(0)
        else if fitness.None? then Failure(TypeError(FitnessTimesMessage))
        else Animal.Choice2(Animal.Min(1.0, t.gamma * fitness.value * (n - 1) as real), u)
    }

    /**
     * Above the threshold, with a fitness in [0, 1], `n >= 1` and the
     * attributes of the defaults, the draw is well defined.
     */
    lemma ProcreationDefined(n: int, u: real)
      requires species.stored > Zeta && weight.Some? && fitness.Some?
      requires n >= 1 && species.attributes.table.gamma >= 0.0 && 0.0 <= fitness.value <= 1.0
      ensures Procreation(n, u).Success?
    {
      var t := species.attributes.table;
      assert 0.0 <= t.gamma * fitness.value;
      assert 0.0 <= t.gamma * fitness.value * (n - 1) as real;
    }

    /**
     * `death`: 0 when the fitness is 0, otherwise a draw weighted
     * `omega * (1 - fitness)`; a `None` fitness is not 0, so it reaches the
     * subtraction and raises there, after a missing `omega`.
     */
    function Death(u: real): (r: Result<nat, Error>)
      reads this, species, species.attributes
      ensures fitness == Some(0.0) ==> r == Success(0)
      ensures fitness != Some(0.0) && species.stored <= Omega ==> r == Failure(AttributeError(AttributeNames[Omega]))
      ensures fitness.None? && species.stored > Omega ==> r == Failure(TypeError(FitnessMinusMessage))
      ensures r.Success? ==> r.value <= 1
    {
      if fitness == Some(0.0) then Success(0)
      else if species.Attribute(Omega).Failure? then Failure(species.Attribute(Omega).error)
      else if fitness.None? then Failure(TypeError(FitnessMinusMessage))
      else Animal.Choice2(species.attributes.table.omega * (1.0 - fitness.value), u)
    }

    /** With `0 <= omega <= 1` and a fitness in [0, 1], the death draw never raises. */
    lemma DeathDefined(u: real)
      requires species.stored > Omega && fitness.Some? && 0.0 <= fitness.value <= 1.0
      requires 0.0 <= species.attributes.table.omega <= 1.0
      ensures Death(u).Success?
    {
      var o := species.attributes.table.omega;
      assert 0.0 <= o * (1.0 - fitness.value) <= o * 1.0;
    }
  }
}
