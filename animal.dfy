/**
 * Animals (the current revision, `animal.py`): the per-species parameter
 * table that `set_parameters` fills in, the individual animal with its age
 * and weight, and the deterministic parts of its vital rates.
 *
 * Randomness enters only as oracle parameters: `draws` stands for the
 * successive values of `np.random.normal`, `u` for the uniform number
 * `np.random.choice` compares against its cumulative weights, and `curve`
 * for the product of the two logistic terms of the fitness formula.
 */
module Animal {
  import opened Wrappers
  import opened Errors

  datatype Species = Herbivore | Carnivore

  /** `type(animal).__name__`, the class name of an animal of species `s`. */
  function SpeciesName(s: Species): string {
    if s == Herbivore then "Herbivore" else "Carnivore"
  }

  /** The species whose class name is `name`, if any. */
  function SpeciesNamed(name: string): (s: Option<Species>)
    ensures s.Some? ==> SpeciesName(s.value) == name
  {
    if name == "Herbivore" then Some(Herbivore)
    else if name == "Carnivore" then Some(Carnivore)
    else None
  }

  /** Reading back a class name gives its species. */
  lemma NameRoundTrip(s: Species)
    ensures SpeciesNamed(SpeciesName(s)) == Some(s)
  {
  }

  /** The fifteen arguments of `set_parameters`, in their declared order. */
  datatype AnimalParams = AnimalParams(
    wBirth: real, sigmaBirth: real, beta: real, eta: real,
    aHalf: real, phiAge: real, wHalf: real, phiWeight: real,
    mu: real, lambda_: real, gamma: real, zeta: real,
    xi: real, omega: real, F: real)

  function ParamSeq(p: AnimalParams): (s: seq<real>)
    ensures |s| == ParamCount
  {
    [p.wBirth, p.sigmaBirth, p.beta, p.eta, p.aHalf, p.phiAge, p.wHalf, p.phiWeight,
     p.mu, p.lambda_, p.gamma, p.zeta, p.xi, p.omega, p.F]
  }

  const ParamCount := 15
  const MuIndex := 8

  /**
   * The message raised for each of the fifteen parameters; the appetite `F`
   * is reported as `f`, and `mu` says "negative" also when it exceeds 1.
   */
  const RejectMessages: seq<string> := [
    "w_birth can not be a negative value.",
    "sigma_birth can not be a negative value.",
    "beta can not be a negative value.",
    "eta can not be a negative value.",
    "a_half can not be a negative value.",
    "phi_age can not be a negative value.",
    "w_half can not be a negative value.",
    "phi_weight can not be a negative value.",
    "mu can not be a negative value.",
    "lambda_ can not be a negative value.",
    "gamma can not be a negative value.",
    "zeta can not be a negative value.",
    "xi can not be a negative value.",
    "omega can not be a negative value.",
    "f can not be a negative value."]

  function RejectMessage(k: nat): string
    requires k < ParamCount
  {
    RejectMessages[k]
  }

  /** Parameter `k` may take value `v`: `mu` must lie in [0, 1], all others be non-negative. */
  predicate Admissible(k: nat, v: real) {
    if k == MuIndex then 0.0 <= v <= 1.0 else v >= 0.0
  }

  /** The position of the first inadmissible value at or after `k`, or `|vals|` if none. */
  function FirstRejected(vals: seq<real>, k: nat): (r: nat)
    requires k <= |vals|
    ensures k <= r <= |vals|
    ensures forall i :: k <= i < r ==> Admissible(i, vals[i])
    ensures r < |vals| ==> !Admissible(r, vals[r])
    decreases |vals| - k
  {
    if k == |vals| then k
    else if !Admissible(k, vals[k]) then k
    else FirstRejected(vals, k + 1)
  }

  /** The three conditions above determine the first rejected position uniquely. */
  lemma {:induction false} FirstRejectedIs(vals: seq<real>, k: nat, r: nat)
    requires k <= r <= |vals|
    requires forall i :: k <= i < r ==> Admissible(i, vals[i])
    requires r < |vals| ==> !Admissible(r, vals[r])
    ensures FirstRejected(vals, k) == r
    decreases r - k
  {
    if k < r {
      FirstRejectedIs(vals, k + 1, r);
    }
  }

  /**
   * The position of the first argument `set_parameters` rejects, in the
   * order it checks them, or `ParamCount` when it accepts them all.
   */
  function FirstRejectedField(p: AnimalParams): nat {
    if p.wBirth < 0.0 then 0
    else if p.sigmaBirth < 0.0 then 1
    else if p.beta < 0.0 then 2
    else if p.eta < 0.0 then 3
    else if p.aHalf < 0.0 then 4
    else if p.phiAge < 0.0 then 5
    else if p.wHalf < 0.0 then 6
    else if p.phiWeight < 0.0 then 7
    else if !(0.0 <= p.mu <= 1.0) then 8
    else if p.lambda_ < 0.0 then 9
    else if p.gamma < 0.0 then 10
    else if p.zeta < 0.0 then 11
    else if p.xi < 0.0 then 12
    else if p.omega < 0.0 then 13
    else if p.F < 0.0 then 14
    else ParamCount
  }

  /** The record form agrees with the scan of the argument sequence. */
  lemma FirstRejectedFieldAgrees(p: AnimalParams)
    ensures FirstRejectedField(p) == FirstRejected(ParamSeq(p), 0)
  {
    FirstRejectedIs(ParamSeq(p), 0, FirstRejectedField(p));
  }

  /** No argument of the record is rejected. */
  predicate AdmissibleTable(t: AnimalParams) {
    FirstRejectedField(t) == ParamCount
  }

  /** A record is admissible exactly when each of its fifteen values is. */
  lemma AdmissibleTableMeaning(t: AnimalParams)
    ensures AdmissibleTable(t) <==> forall i :: 0 <= i < ParamCount ==> Admissible(i, ParamSeq(t)[i])
  {
    FirstRejectedFieldAgrees(t);
  }

  /**
   * The class attributes after `set_parameters(args)` on attributes
   * `before`: the arguments checked before the first rejected one have been
   * stored, the rest keep their old values.
   */
  function StoredTable(before: AnimalParams, args: AnimalParams): AnimalParams {
    var k := FirstRejectedField(args);
    AnimalParams(
      if 0 < k then args.wBirth else before.wBirth,
      if 1 < k then args.sigmaBirth else before.sigmaBirth,
      if 2 < k then args.beta else before.beta,
      if 3 < k then args.eta else before.eta,
      if 4 < k then args.aHalf else before.aHalf,
      if 5 < k then args.phiAge else before.phiAge,
      if 6 < k then args.wHalf else before.wHalf,
      if 7 < k then args.phiWeight else before.phiWeight,
      if 8 < k then args.mu else before.mu,
      if 9 < k then args.lambda_ else before.lambda_,
      if 10 < k then args.gamma else before.gamma,
      if 11 < k then args.zeta else before.zeta,
      if 12 < k then args.xi else before.xi,
      if 13 < k then args.omega else before.omega,
      if 14 < k then args.F else before.F)
  }

  /** The outcome of `set_parameters(args)`: `Pass`, or the `ValueError` of the first rejected argument. */
  function SetOutcome(args: AnimalParams): Outcome<Error> {
    var k := FirstRejectedField(args);
    if k == ParamCount then Pass else Fail(ValueError(RejectMessage(k)))
  }

  /**
   * Position by position: a value is the argument's when it lies before the
   * first rejected argument, and the old one otherwise.
   */
  lemma StoredTableMeaning(before: AnimalParams, args: AnimalParams)
    ensures forall i :: 0 <= i < ParamCount ==>
      ParamSeq(StoredTable(before, args))[i]
        == if i < FirstRejected(ParamSeq(args), 0) then ParamSeq(args)[i] else ParamSeq(before)[i]
  {
    FirstRejectedFieldAgrees(args);
  }

  /** Storing keeps the attributes admissible: only checked arguments are stored. */
  lemma StoredAdmissible(before: AnimalParams, args: AnimalParams)
    requires AdmissibleTable(before)
    ensures AdmissibleTable(StoredTable(before, args))
  {
    var k := FirstRejected(ParamSeq(args), 0);
    AdmissibleTableMeaning(before);
    StoredTableMeaning(before, args);
    AdmissibleTableMeaning(StoredTable(before, args));
  }

  const HerbivoreDefaults := AnimalParams(
    8.0, 1.5, 0.9, 0.05, 40.0, 0.2, 10.0, 0.1, 0.25, 1.0, 0.2, 3.5, 1.2, 0.4, 10.0)
  const CarnivoreDefaults := AnimalParams(
    6.0, 1.0, 0.75, 0.125, 60.0, 0.4, 4.0, 0.4, 0.4, 1.0, 0.8, 3.5, 1.1, 0.9, 50.0)
  const DefaultDeltaPhiMax := 10.0
  const DeltaPhiMaxMessage := "delta_phi_max must be strictly positive."

  function Defaults(s: Species): AnimalParams {
    match s
    case Herbivore => HerbivoreDefaults
    case Carnivore => CarnivoreDefaults
  }

  /** An admissible record is accepted and stored whole. */
  lemma AcceptedIsStoredWhole(before: AnimalParams, args: AnimalParams)
    requires forall i :: 0 <= i < ParamCount ==> Admissible(i, ParamSeq(args)[i])
    ensures SetOutcome(args) == Pass && StoredTable(before, args) == args
  {
    AdmissibleTableMeaning(args);
  }

  /** Both species' default tables pass validation. */
  lemma DefaultsAccepted(s: Species, before: AnimalParams)
    ensures SetOutcome(Defaults(s)) == Pass
    ensures StoredTable(before, Defaults(s)) == Defaults(s)
  {
  }

  /** A rejected argument raises its own message. */
  lemma RejectedRaises(args: AnimalParams, k: nat)
    requires k < ParamCount
    requires forall i :: 0 <= i < k ==> Admissible(i, ParamSeq(args)[i])
    requires !Admissible(k, ParamSeq(args)[k])
    ensures SetOutcome(args) == Fail(ValueError(RejectMessage(k)))
  {
    FirstRejectedIs(ParamSeq(args), 0, k);
    FirstRejectedFieldAgrees(args);
  }

  /** The fitness of an animal of the given shape, age and weight. */
  function FitnessOf(curve: Curve, shape: Shape, age: int, weight: real): (f: real)
    ensures weight <= 0.0 ==> f == 0.0
    ensures UnitCurve(curve) ==> 0.0 <= f <= 1.0
  {
    if weight > 0.0 then curve(shape, age, weight) else 0.0
  }

  /** The shape parameters of the fitness formula. */
  datatype Shape = Shape(aHalf: real, phiAge: real, wHalf: real, phiWeight: real)

  /**
   * The product of the two logistic terms of the fitness formula
   * (`1/(1+exp(phi_age*(age-a_half))) * 1/(1+exp(-phi_weight*(w-w_half)))`),
   * left uninterpreted.
   */
  type Curve = (Shape, int, real) -> real

  /** The curve stays inside the unit interval, as the logistic terms do. */
  ghost predicate UnitCurve(curve: Curve) {
    forall sh, a, w :: 0.0 <= curve(sh, a, w) <= 1.0
  }

  /**
   * The class attributes of one species (`Herbivore` or `Carnivore`), as
   * `set_parameters` leaves them. The constructor stands for the first
   * `set_parameters()` call with the species' defaults.
   */
  class SpeciesParams {
    const species: Species
    /** The fifteen class attributes `set_parameters` assigns. */
    var table: AnimalParams
    /** `DeltaPhiMax`; only `Carnivore.set_parameters` sets it. */
    var deltaPhiMax: real

    function FitnessShape(): Shape
      reads this
    {
      Shape(table.aHalf, table.phiAge, table.wHalf, table.phiWeight)
    }

    /** Only validated values are ever stored. */
    ghost predicate Valid()
      reads this
    {
      && AdmissibleTable(table)
      && deltaPhiMax > 0.0
    }

    constructor (s: Species)
      ensures species == s && Valid()
      ensures table == Defaults(s) && deltaPhiMax == DefaultDeltaPhiMax
    {
      species := s;
      table := Defaults(s);
      deltaPhiMax := DefaultDeltaPhiMax;
    }

    /**
     * `Animal.set_parameters`: each argument in turn is checked and stored;
     * the first inadmissible one raises, leaving its predecessors stored.
     */
    method SetParameters(p: AnimalParams) returns (r: Outcome<Error>)
      requires Valid()
      modifies this
      ensures Valid()
      ensures table == StoredTable(old(table), p)
      ensures r == SetOutcome(p)
      ensures deltaPhiMax == old(deltaPhiMax)
    {
      StoredAdmissible(table, p);
      if p.wBirth >= 0.0 {
        table := table.(wBirth := p.wBirth);
      } else {
        r := Fail(ValueError(RejectMessages[0]));
        return;
      }
      if p.sigmaBirth >= 0.0 {
        table := table.(sigmaBirth := p.sigmaBirth);
      } else {
        r := Fail(ValueError(RejectMessages[1]));
        return;
      }
      if p.beta >= 0.0 {
        table := table.(beta := p.beta);
      } else {
        r := Fail(ValueError(RejectMessages[2]));
        return;
      }
      if p.eta >= 0.0 {
        table := table.(eta := p.eta);
      } else {
        r := Fail(ValueError(RejectMessages[3]));
        return;
      }
      if p.aHalf >= 0.0 {
        table := table.(aHalf := p.aHalf);
      } else {
        r := Fail(ValueError(RejectMessages[4]));
        return;
      }
      if p.phiAge >= 0.0 {
        table := table.(phiAge := p.phiAge);
      } else {
        r := Fail(ValueError(RejectMessages[5]));
        return;
      }
      if p.wHalf >= 0.0 {
        table := table.(wHalf := p.wHalf);
      } else {
        r := Fail(ValueError(RejectMessages[6]));
        return;
      }
      if p.phiWeight >= 0.0 {
        table := table.(phiWeight := p.phiWeight);
      } else {
        r := Fail(ValueError(RejectMessages[7]));
        return;
      }
      if 0.0 <= p.mu <= 1.0 {
        table := table.(mu := p.mu);
      } else {
        r := Fail(ValueError(RejectMessages[8]));
        return;
      }
      if p.lambda_ >= 0.0 {
        table := table.(lambda_ := p.lambda_);
      } else {
        r := Fail(ValueError(RejectMessages[9]));
        return;
      }
      if p.gamma >= 0.0 {
        table := table.(gamma := p.gamma);
      } else {
        r := Fail(ValueError(RejectMessages[10]));
        return;
      }
      if p.zeta >= 0.0 {
        table := table.(zeta := p.zeta);
      } else {
        r := Fail(ValueError(RejectMessages[11]));
        return;
      }
      if p.xi >= 0.0 {
        table := table.(xi := p.xi);
      } else {
        r := Fail(ValueError(RejectMessages[12]));
        return;
      }
      if p.omega >= 0.0 {
        table := table.(omega := p.omega);
      } else {
        r := Fail(ValueError(RejectMessages[13]));
        return;
      }
      if p.F >= 0.0 {
        table := table.(F := p.F);
      } else {
        r := Fail(ValueError(RejectMessages[14]));
        return;
      }
      r := Pass;
    }

    /**
     * `Carnivore.set_parameters`: the fifteen common parameters first, then
     * `DeltaPhiMax`, where `None` stands for 10.0 and a value that is not
     * strictly positive raises.
     */
    method SetCarnivoreParameters(p: AnimalParams, deltaPhi: Option<real>) returns (r: Outcome<Error>)
      requires Valid() && species == Carnivore
      modifies this
      ensures Valid()
      ensures table == StoredTable(old(table), p)
      ensures SetOutcome(p).Fail? ==> r == SetOutcome(p) && deltaPhiMax == old(deltaPhiMax)
      ensures SetOutcome(p).Pass? ==>
        var d := if deltaPhi.None? then DefaultDeltaPhiMax else deltaPhi.value;
        if d <= 0.0 then r == Fail(ValueError(DeltaPhiMaxMessage)) && deltaPhiMax == old(deltaPhiMax)
        else r == Pass && deltaPhiMax == d
    {
      r := SetParameters(p);
      if r.Fail? {
        return;
      }
      var d := if deltaPhi.None? then DefaultDeltaPhiMax else deltaPhi.value;
      if d <= 0.0 {
        r := Fail(ValueError(DeltaPhiMaxMessage));
        return;
      }
      deltaPhiMax := d;
    }
  }

  /**
   * `np.random.choice(2, p=[p, 1 - p])` given the uniform number `u` it
   * draws: 0 when `u` falls below `p`, else 1; weights outside [0, 1]
   * raise `ValueError`.
   */
  function Choice2(p: real, u: real): (r: Result<nat, Error>)
    ensures r.Success? <==> 0.0 <= p <= 1.0
    ensures r.Success? ==> r.value <= 1
    ensures 0.0 <= u < 1.0 && r.Success? ==> (r.value == 0 <==> u < p)
  {
    if p < 0.0 || 1.0 - p < 0.0 then Failure(ValueError("probabilities are not non-negative"))
    else Success(if u < p then 0 else 1)
  }

  /** `w` is the first strictly positive value of the successive draws `draws`. */
  ghost predicate FirstPositive(draws: nat -> real, w: real) {
    exists i: nat :: draws(i) > 0.0 && w == draws(i) && forall j: nat :: j < i ==> draws(j) <= 0.0
  }

  /** The first positive draw is unique: two values that are both first are equal. */
  lemma FirstPositiveUnique(draws: nat -> real, w: real, v: real)
    requires FirstPositive(draws, w) && FirstPositive(draws, v)
    ensures w == v
  {
    var i: nat :| draws(i) > 0.0 && w == draws(i) && forall j: nat :: j < i ==> draws(j) <= 0.0;
    var k: nat :| draws(k) > 0.0 && v == draws(k) && forall j: nat :: j < k ==> draws(j) <= 0.0;
    assert i == k;
  }

  /**
   * The loop `while birth_weight <= 0: birth_weight = np.random.normal(...)`
   * started from 0, over the successive draws `draws`: the draw is repeated
   * while it is not strictly positive, so the result is the first positive
   * draw. The loop ends only if some draw is positive.
   */
  method FirstPositiveDraw(draws: nat -> real) returns (w: real)
    requires exists i: nat :: draws(i) > 0.0
    ensures w > 0.0
    ensures exists i: nat :: w == draws(i) && forall j: nat :: j < i ==> draws(j) <= 0.0
    ensures FirstPositive(draws, w)
  {
    ghost var bound: nat :| draws(bound) > 0.0;
    var i: nat := 0;
    w := 0.0;
    while w <= 0.0
      invariant i <= bound + 1
      invariant forall j: nat :: j < i ==> draws(j) <= 0.0 || (j == i - 1 && w == draws(j))
      invariant w > 0.0 ==> i >= 1 && w == draws(i - 1) && forall j: nat :: j < i - 1 ==> draws(j) <= 0.0
      invariant w <= 0.0 ==> forall j: nat :: j < i ==> draws(j) <= 0.0
      decreases bound + 1 - i
    {
      w := draws(i);
      i := i + 1;
    }
  }

  function Min(a: real, b: real): real {
    if a <= b then a else b
  }

  const AgeMessage := "Age can not have negative value."
  const WeightMessage := "Weight can not have negative value"

  /**
   * `prob_procreation(n)` of an animal with the attributes `t` of its class,
   * age `age` and weight `weight`: 0 below the threshold
   * `zeta * (w_birth + sigma_birth)`, otherwise a draw whose outcome 0 has
   * weight `min(1, gamma * fitness * (n - 1))`.
   */
  function BirthChance(t: AnimalParams, age: int, weight: real, n: int, curve: Curve, u: real): (r: Result<nat, Error>)
    ensures weight < t.zeta * (t.wBirth + t.sigmaBirth) ==> r == Success(0)
    ensures r.Success? ==> r.value <= 1
    ensures n >= 1 && t.gamma >= 0.0 && UnitCurve(curve) ==> r.Success?
    ensures r.Failure? ==> r.error.ValueError?
  {
    if weight < t.zeta * (t.wBirth + t.sigmaBirth) then Success(0)
    else
      var shape := Shape(t.aHalf, t.phiAge, t.wHalf, t.phiWeight);
      Choice2(Min(1.0, t.gamma * FitnessOf(curve, shape, age, weight) * (n - 1) as real), u)
  }

  /** One herbivore or carnivore; `params` is its class, whose attributes it reads. */
  class Animal {
    const params: SpeciesParams
    var age: int
    var weight: real

    constructor Init(params: SpeciesParams, age: int, weight: real)
      ensures this.params == params && this.age == age && this.weight == weight
    {
      this.params := params;
      this.age := age;
      this.weight := weight;
    }

    /**
     * `Herbivore(age, weight)` / `Carnivore(age, weight)`: `None` stands for
     * age 0 and weight 10; a negative age, then a negative weight, raises.
     */
    static method New(params: SpeciesParams, age: Option<int>, weight: Option<real>)
      returns (r: Result<Animal, Error>)
      ensures var a := if age.None? then 0 else age.value;
              var w := if weight.None? then 10.0 else weight.value;
              && (r.Failure? <==> a < 0 || w < 0.0)
              && (a < 0 ==> r == Failure(ValueError(AgeMessage)))
              && (a >= 0 && w < 0.0 ==> r == Failure(ValueError(WeightMessage)))
              && (r.Success? ==> fresh(r.value) && r.value.params == params
                                 && r.value.age == a && r.value.weight == w)
    {
      var a := if age.None? then 0 else age.value;
      if a < 0 {
        return Failure(ValueError(AgeMessage));
      }
      var w := if weight.None? then 10.0 else weight.value;
      if w < 0.0 {
        return Failure(ValueError(WeightMessage));
      }
      var animal := new Animal.Init(params, a, w);
      r := Success(animal);
    }

    function Species(): Species {
      params.species
    }

    /** `aging`: one year older, nothing else changes. */
    method Aging()
      modifies this`age
      ensures age == old(age) + 1
    {
      age := age + 1;
    }

    /** `weight_gain(food)`: the weight grows by `beta * food`. */
    method WeightGain(food: real)
      modifies this`weight
      ensures weight == old(weight) + params.table.beta * food
    {
      weight := weight + params.table.beta * food;
    }

    /** `weight_loss`: a fraction `eta` of the weight is lost. */
    method WeightLoss()
      modifies this`weight
      ensures weight == old(weight) * (1.0 - params.table.eta)
      ensures 0.0 <= params.table.eta <= 1.0 && old(weight) >= 0.0 ==> 0.0 <= weight <= old(weight)
    {
      if 0.0 <= params.table.eta <= 1.0 && weight >= 0.0 {
        assert 0.0 <= params.table.eta * weight <= weight;
      }
      weight := weight - params.table.eta * weight;
    }

    /**
     * `draw_birth_weight`: the first strictly positive of the successive
     * draws `draws` of `np.random.normal(w_birth, sigma_birth)`.
     */
    method DrawBirthWeight(draws: nat -> real) returns (w: real)
      requires exists i: nat :: draws(i) > 0.0
      ensures w > 0.0
      ensures exists i: nat :: w == draws(i) && forall j: nat :: j < i ==> draws(j) <= 0.0
      ensures FirstPositive(draws, w)
    {
      w := FirstPositiveDraw(draws);
    }

    /** `fitness`: 0 for a non-positive weight, otherwise the curve's value. */
    function Fitness(curve: Curve): (f: real)
      reads this, params
      ensures weight <= 0.0 ==> f == 0.0
      ensures UnitCurve(curve) ==> 0.0 <= f <= 1.0
    {
      FitnessOf(curve, params.FitnessShape(), age, weight)
    }

    /**
     * `prob_procreation(n)`: 0 below the weight threshold
     * `zeta * (w_birth + sigma_birth)`, otherwise a draw whose outcome 0 has
     * weight `min(1, gamma * fitness * (n - 1))`.
     */
    function ProbProcreation(n: int, curve: Curve, u: real): (r: Result<nat, Error>)
      reads this, params
      ensures weight < params.table.zeta * (params.table.wBirth + params.table.sigmaBirth) ==> r == Success(0)
      ensures r.Success? ==> r.value <= 1
      ensures n >= 1 && params.table.gamma >= 0.0 && UnitCurve(curve) ==> r.Success?
    {
      BirthChance(params.table, age, weight, n, curve, u)
    }

    /** `prob_death`: 0 when the fitness is 0, otherwise a draw weighted `omega * (1 - fitness)`. */
    function ProbDeath(curve: Curve, u: real): (r: Result<nat, Error>)
      reads this, params
      ensures Fitness(curve) == 0.0 ==> r == Success(0)
      ensures weight <= 0.0 ==> r == Success(0)
      ensures 0.0 <= params.table.omega <= 1.0 && UnitCurve(curve) ==> r.Success?
    {
      var f := Fitness(curve);
      if f == 0.0 then Success(0)
      else Choice2(params.table.omega * (1.0 - f), u)
    }

    /** `prob_migration`: a draw weighted `mu * fitness`. */
    function ProbMigration(curve: Curve, u: real): (r: Result<nat, Error>)
      reads this, params
      ensures r.Success? ==> r.value <= 1
    {
      Choice2(params.table.mu * Fitness(curve), u)
    }

    /** With `mu` in [0, 1], as `set_parameters` demands, the migration draw never raises. */
    lemma MigrationDrawDefined(curve: Curve, u: real)
      requires 0.0 <= params.table.mu <= 1.0 && UnitCurve(curve)
      ensures ProbMigration(curve, u).Success?
    {
      var f := Fitness(curve);
      assert 0.0 <= f <= 1.0;
      assert 0.0 <= params.table.mu * f <= params.table.mu * 1.0;
    }
  }
}
