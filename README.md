# BioSim (G21) in Dafny

This project models the core of the BioSim island ecosystem simulator.
The island Rossumøya is a rectangular map of terrain cells: Savannah `S`, Jungle `J`, Desert `D`, Mountain `M` and Ocean `O`.
Each cell grows fodder and houses herbivores and carnivores.
Every year animals feed, procreate, migrate, age, lose weight and die.

The model covers these parts of the program:

- the animal classes of `animal.py` and of the older `animals.py`: parameter validation, weight, fitness, and the draws for birth, death and migration;
- the cell classes of `cell.py`: fodder, population bookkeeping, feeding in fitness order, hunting, abundance and migration propensity;
- the island of `rossumoya.py`: map checking, building the cell grid, the migration probability calculator, and the yearly passes over the island;
- the `BioSim` facade of `simulation.py`;
- the older fodder-only `Landscape` of `landscape.py`.

Python classes whose fields are updated in place are Dafny classes.
For example, `Herbivore`'s class attributes are a `SpeciesParams` object shared by all herbivores, and `Savannah`'s are a `TerrainParams` object.
Map checking, map layout, sorting and list removal are pure functions with lemmas.
Python exceptions are values of `Errors.Error` that carry the message the source raises.
An operation that can raise returns an `Outcome` or a `Result`.

Several passes do not do what the surrounding code and docstrings clearly intend:

- the death and migration tests read a method instead of calling it;
- the procreation pass calls the float that the birth-weight property returns;
- the migration probabilities are not normalised;
- the `Landscape` constructor leaves given arguments unset.

For each of these the model has a member that follows the code as written, a lemma that shows the difference, and a corrected member with the intended property proved (see "## Findings").
Wherever a behaviour description of the program and the code disagree, the model follows the code.

Draw convention: `np.random.choice(2, p=[p, 1 - p])` gives 0 with probability p (`Animal.Choice2` gives 0 exactly when the uniform draw is below p).
So the outcome that carries the formula's probability is 0.
For `prob_death` this means 0 is death, as the `animals.py:175` docstring says; the fitness-0 case then returns certain death.
The `rossumoya.py:291` docstring says the opposite ("removed if prob_death returns 1"), so the source's two docstrings disagree.
This model reads 0 as the event: death, birth or migration.
The island passes of `rossumoya.py` test the draw for truth and so act on outcome 1; where the model follows that test, it says so under "## Left out".

Modules:

- `Wrappers`, `Errors`: Option, Result and Outcome, and the Python exceptions.
- `Text`: `str.split` and negative indexing.
- `Seqs`: `list.remove` and filtering.
- `Sorting`: a stable `sorted(key=...)`.
- `IslandMap`: map rules, coordinates and neighbours.
- `DefaultIsland`: the default map.
- `Animal`: `animal.py`.
- `LegacyAnimals`: `animals.py`.
- `Cell`: `cell.py`.
- `Rossumoya`: `rossumoya.py`.
- `Simulation`: `simulation.py`.
- `Landscape`: `landscape.py`.

## Model

| member | source | states |
|---|---|---|
| Text.Split | BioSim_G21_Julie_Marisha/src/biosim/rossumoya.py:173 | `str.split(sep)` always gives at least one part, and no part contains the separator |
| Text.JoinSplit | BioSim_G21_Julie_Marisha/src/biosim/rossumoya.py:173 | joining the parts of a split with the separator gives back the original string |
| Text.SplitJoin | BioSim_G21_Julie_Marisha/src/biosim/rossumoya.py:173 | splitting a join of separator-free parts gives back the parts |
| Text.SplitNoSeparator | BioSim_G21_Julie_Marisha/src/biosim/rossumoya.py:173 | a string without the separator splits into itself alone |
| Text.SplitPrefixed | BioSim_G21_Julie_Marisha/src/biosim/rossumoya.py:173 | a separator-free head followed by the separator splits off as the first part |
| Text.PyIndex | BioSim_G21_Julie_Marisha/src/biosim/rossumoya.py:189-195 | Python indexing succeeds exactly for -len <= k < len and gives the element at k mod len, so a negative index counts from the end |
| Text.LastIndexAgrees | BioSim_G21_Julie_Marisha/src/biosim/rossumoya.py:189-195 | `row[-1]` is the same as `row[len(row) - 1]`, including when the row is empty |
| IslandMap.CellCode | BioSim_G21_Julie_Marisha/src/biosim/rossumoya.py:179-183 | a character is a terrain code exactly when it is one of S, J, D, O and M |
| IslandMap.RowSidesNone | BioSim_G21_Julie_Marisha/src/biosim/rossumoya.py:192-196 | a row passes the side check exactly when it is non-empty and starts and ends with `O` |
| IslandMap.SidesErrorNone | BioSim_G21_Julie_Marisha/src/biosim/rossumoya.py:192-196 | the side check of all rows passes exactly when every row is non-empty and bounded by `O` |
| IslandMap.SidesErrorKinds | BioSim_G21_Julie_Marisha/src/biosim/rossumoya.py:192-196 | the side check raises nothing, `IndexError` or "Non-ocean boundary.", and nothing else |
| IslandMap.CheckRowsAccepts | BioSim_G21_Julie_Marisha/src/biosim/rossumoya.py:172-197 | the row checks accept exactly the well-formed maps (rectangular, known codes, ocean border); each error names the first rule that fails, and an empty first line raises `IndexError` |
| IslandMap.SidesNeverIndexError | BioSim_G21_Julie_Marisha/src/biosim/rossumoya.py:192-196 | when no row is empty, `row[0]` and `row[-1]` never raise `IndexError` |
| IslandMap.IndexStylesAgree | BioSim_G21_Julie_Marisha/src/biosim/rossumoya.py:186-196 | the checks give the same verdict whether the last row and column are read as `[-1]` or as `[len - 1]` |
| IslandMap.SidesStylesAgree | BioSim_G21_Julie_Marisha/src/biosim/rossumoya.py:192-196 | the side check gives the same verdict with either indexing style |
| IslandMap.RowLocsCover | BioSim_G21_Julie_Marisha/src/biosim/rossumoya.py:301-317 | row i of width w gets each of its column keys once, and its keys are exactly those of row i + base with columns base to base + w - 1 |
| IslandMap.OrderIsLayout | BioSim_G21_Julie_Marisha/src/biosim/rossumoya.py:301-317 | the row-major coordinate order contains each map position exactly once and nothing else |
| IslandMap.Neighbours | BioSim_G21_Julie_Marisha/src/biosim/rossumoya.py:16-37 | there are four distinct neighbours, each adjacent and differing from the location in exactly one coordinate |
| IslandMap.NeighboursAreAdjacent | BioSim_G21_Julie_Marisha/src/biosim/rossumoya.py:16-37 | a location is among the neighbours exactly when it is orthogonally adjacent |
| IslandMap.PassableIsInterior | BioSim_G21_Julie_Marisha/src/biosim/rossumoya.py:186-196 | on a well-formed map, every cell other than Ocean or Mountain lies strictly inside the border |
| DefaultIsland.DefaultCodes | BioSim_G21_Julie_Marisha/src/biosim/simulation.py:15-30 | every character of the default map is a terrain code |
| DefaultIsland.DefaultShape | BioSim_G21_Julie_Marisha/src/biosim/simulation.py:15-30 | the default map has 13 rows of 21 cells |
| DefaultIsland.DefaultBorder | BioSim_G21_Julie_Marisha/src/biosim/simulation.py:15-30 | the default map's first and last rows and first and last columns are all ocean |
| DefaultIsland.DefaultRowsSplit | BioSim_G21_Julie_Marisha/src/biosim/landscape.py:14-28 | splitting the default map text at newlines gives its 13 rows |
| DefaultIsland.DefaultMapWellFormed | BioSim_G21_Julie_Marisha/src/biosim/simulation.py:15-30 | the default map passes every map rule |
| Seqs.Without | BioSim_G21_Julie_Marisha/src/biosim/rossumoya.py:289-299 | filtering out a set leaves only elements of the list outside the set, keeps every such element, and never lengthens the list; order and multiplicity are stated by `WithoutKeepsOrder` and `WithoutCounts` |
| Seqs.WithoutKeepsOrder | BioSim_G21_Julie_Marisha/src/biosim/rossumoya.py:289-299 | the filtered list is a subsequence of the original: the survivors keep their order |
| Seqs.WithoutCounts | BioSim_G21_Julie_Marisha/src/biosim/rossumoya.py:289-299 | every element outside the set occurs in the filtered list exactly as often as in the original |
| Seqs.RemoveFirst | BioSim_G21_Julie_Marisha/src/biosim/cell.py:116-123 | `list.remove(x)` succeeds exactly when x is present, and then the result has one element fewer and the multiset loses exactly one x; which x goes is stated by `RemoveFirstDropsFirst` |
| Seqs.RemoveFirstDropsFirst | BioSim_G21_Julie_Marisha/src/biosim/cell.py:116-123 | `list.remove(x)` drops the first x: with no x in p, removing x from p + [x] + q gives p + q, both parts in their order |
| Seqs.RemoveEachCounts | BioSim_G21_Julie_Marisha/src/biosim/cell.py:116-123 | removing a list of victims one by one succeeds exactly when their multiset is contained in the list, and leaves the multiset difference |
| Seqs.RemoveEachDistinct | BioSim_G21_Julie_Marisha/src/biosim/cell.py:116-123 | for distinct animals that are all present, removing them one by one equals filtering their set out |
| Seqs.RemovedWhenSucceeds | BioSim_G21_Julie_Marisha/src/biosim/cell.py:107-114 | when every removal succeeds, the state left by the loop is the result of all removals |
| Seqs.WithoutTwice | BioSim_G21_Julie_Marisha/src/biosim/rossumoya.py:289-299 | filtering out a and then b is filtering out a + b |
| Seqs.ReverseWithout | BioSim_G21_Julie_Marisha/src/biosim/cell.py:92-105 | reversing commutes with filtering |
| Seqs.ReverseIndex | BioSim_G21_Julie_Marisha/src/biosim/cell.py:92-105 | element k of the reverse is element len - 1 - k |
| Sorting.Insert | BioSim_G21_Julie_Marisha/src/biosim/cell.py:125-136 | inserting a keyed element lengthens the list by one |
| Sorting.InsertSorted | BioSim_G21_Julie_Marisha/src/biosim/cell.py:125-136 | inserting into a key-sorted list keeps it sorted |
| Sorting.InsertMultiset | BioSim_G21_Julie_Marisha/src/biosim/cell.py:125-136 | insertion adds exactly the inserted element |
| Sorting.SortByKeyFacts | BioSim_G21_Julie_Marisha/src/biosim/cell.py:125-136 | `sorted(key=...)` gives a key-sorted permutation of its input |
| Sorting.SortKeepsSorted | BioSim_G21_Julie_Marisha/src/biosim/cell.py:125-136 | sorting an already sorted list changes nothing |
| Sorting.SortDropCommute | BioSim_G21_Julie_Marisha/src/biosim/cell.py:92-105 | sorting and then dropping the eaten animals equals dropping them and then sorting |
| Sorting.DropKeysFirsts | BioSim_G21_Julie_Marisha/src/biosim/cell.py:125-136 | dropping keyed pairs by element and then taking elements is filtering the elements |
| Sorting.SortedFirsts | BioSim_G21_Julie_Marisha/src/biosim/cell.py:125-136 | sorting keeps the same animals and keeps them distinct |
| Animal.SpeciesNamed | BioSim_G21_Julie_Marisha/src/biosim/rossumoya.py:220-230 | a class name maps to a species only when it is that species' name |
| Animal.NameRoundTrip | BioSim_G21_Julie_Marisha/src/biosim/rossumoya.py:220-230 | looking up the name of a species gives the species back |
| Animal.ParamSeq | BioSim_G21_Julie_Marisha/src/biosim/animal.py:17-98 | the parameter table viewed as the 15-item list in the order the source checks them |
| Animal.FirstRejected | BioSim_G21_Julie_Marisha/src/biosim/animal.py:17-98 | the first parameter that fails its check: all earlier ones pass, and this one fails |
| Animal.FirstRejectedIs | BioSim_G21_Julie_Marisha/src/biosim/animal.py:17-98 | any index with all earlier checks passing and its own check failing is the first rejected one |
| Animal.FirstRejectedFieldAgrees | BioSim_G21_Julie_Marisha/src/biosim/animal.py:17-98 | the field-by-field check chain agrees with the first rejected index of the list view |
| Animal.AdmissibleTableMeaning | BioSim_G21_Julie_Marisha/src/biosim/animal.py:17-98 | a table is admissible exactly when each of its 15 parameters passes its own check |
| Animal.StoredTableMeaning | BioSim_G21_Julie_Marisha/src/biosim/animal.py:17-98 | after `set_parameters`, the parameters before the first rejected one hold the new values and the rest keep their old values |
| Animal.StoredAdmissible | BioSim_G21_Julie_Marisha/src/biosim/animal.py:17-98 | starting from an admissible table, the stored table stays admissible even when a later parameter is rejected |
| Animal.AcceptedIsStoredWhole | BioSim_G21_Julie_Marisha/src/biosim/animal.py:17-98 | when every argument passes, the call succeeds and stores all of them |
| Animal.DefaultsAccepted | BioSim_G21_Julie_Marisha/src/biosim/animal.py:211-247 | the class defaults pass every check |
| Animal.RejectedRaises | BioSim_G21_Julie_Marisha/src/biosim/animal.py:17-98 | the first failing parameter raises `ValueError` with that parameter's message |
| Animal.FitnessOf | BioSim_G21_Julie_Marisha/src/biosim/animal.py:149-169 | fitness is 0 for weight <= 0, and lies in [0, 1] when the sigmoid lies in [0, 1] |
| Animal.SpeciesParams.constructor | BioSim_G21_Julie_Marisha/src/biosim/animal.py:211-298 | a species starts with its class defaults and `DeltaPhiMax` 10.0 |
| Animal.SpeciesParams.SetParameters | BioSim_G21_Julie_Marisha/src/biosim/animal.py:211-247 | the stored table is the checked prefix of the arguments, the result is the verdict of the checks, and the class stays admissible |
| Animal.SpeciesParams.SetCarnivoreParameters | BioSim_G21_Julie_Marisha/src/biosim/animal.py:254-298 | as `SetParameters`; then `DeltaPhiMax` (default 10.0) is stored when positive, and otherwise raises `ValueError` |
| Animal.Choice2 | BioSim_G21_Julie_Marisha/src/biosim/animal.py:171-207 | a two-way draw succeeds exactly when p is a probability, gives 0 or 1, and gives 0 exactly when the uniform draw is below p |
| Animal.FirstPositiveDraw | BioSim_G21_Julie_Marisha/src/biosim/animal.py:124-134 | the loop returns the first positive value of the draw sequence |
| Animal.Animal.Init | BioSim_G21_Julie_Marisha/src/biosim/animal.py:100-115 | an animal is built with the given class, age and weight |
| Animal.Animal.New | BioSim_G21_Julie_Marisha/src/biosim/animal.py:100-115 | default age 0 and weight 10.0; a negative age or weight raises its `ValueError`, age first; otherwise a fresh animal with those values |
| Animal.Animal.Aging | BioSim_G21_Julie_Marisha/src/biosim/animal.py:117-122 | age grows by one |
| Animal.Animal.WeightGain | BioSim_G21_Julie_Marisha/src/biosim/animal.py:136-141 | weight grows by beta times the food eaten |
| Animal.Animal.WeightLoss | BioSim_G21_Julie_Marisha/src/biosim/animal.py:143-147 | weight shrinks by the factor 1 - eta, and stays between 0 and the old weight when eta is in [0, 1] |
| Animal.Animal.DrawBirthWeight | BioSim_G21_Julie_Marisha/src/biosim/animal.py:124-134 | the birth weight is the first positive normal draw |
| Animal.Animal.Fitness | BioSim_G21_Julie_Marisha/src/biosim/animal.py:149-169 | fitness is 0 for weight <= 0 and lies in [0, 1] for a sigmoid with values in [0, 1] |
| Animal.Animal.ProbProcreation | BioSim_G21_Julie_Marisha/src/biosim/animal.py:171-182 | no birth below zeta(w_birth + sigma_birth); the draw gives 0 or 1; it is defined whenever n >= 1, gamma >= 0 and fitness is in [0, 1] |
| Animal.Animal.ProbDeath | BioSim_G21_Julie_Marisha/src/biosim/animal.py:184-194 | fitness 0 (or weight <= 0) gives 0, the death outcome, for certain; otherwise a draw weighted omega(1 - fitness); results are 0 or 1; the draw is defined when omega is in [0, 1] |
| Animal.Animal.ProbMigration | BioSim_G21_Julie_Marisha/src/biosim/animal.py:196-207 | the migration draw gives 0 or 1 |
| Animal.Animal.MigrationDrawDefined | BioSim_G21_Julie_Marisha/src/biosim/animal.py:196-207 | the migration draw is defined whenever mu is in [0, 1] and fitness is in [0, 1] |
| LegacyAnimals.Assigns | BioSim_G21_Julie_Marisha/src/biosim/animals.py:17-95 | `set_parameters` assigns the parameters up to the first rejected one |
| LegacyAnimals.LegacySpecies.constructor | BioSim_G21_Julie_Marisha/src/biosim/animals.py:188-222 | a legacy class starts with no parameter attribute and no `delta_phi_max` |
| LegacyAnimals.LegacySpecies.Attribute | BioSim_G21_Julie_Marisha/src/biosim/animals.py:17-95 | reading a class attribute succeeds exactly when it has been assigned, and otherwise raises `AttributeError` naming it |
| LegacyAnimals.LegacySpecies.SetParameters | BioSim_G21_Julie_Marisha/src/biosim/animals.py:188-222 | the checks and stored values are those of `animal.py`, and the set of present attributes grows to the assigned prefix |
| LegacyAnimals.LegacySpecies.SetCarnivoreParameters | BioSim_G21_Julie_Marisha/src/biosim/animals.py:229-269 | as `SetParameters`; then `delta_phi_max` becomes 10.0 when the argument is positive, and otherwise raises `ValueError` |
| LegacyAnimals.AcceptedMakesAllPresent | BioSim_G21_Julie_Marisha/src/biosim/animals.py:17-95 | an accepted call makes all 15 attributes present and stores the arguments |
| LegacyAnimals.RejectedStaysMissing | BioSim_G21_Julie_Marisha/src/biosim/animals.py:17-95 | a first call rejected at parameter k leaves exactly the first k attributes present and raises k's message |
| LegacyAnimals.DeltaPhiMaxStored | BioSim_G21_Julie_Marisha/src/biosim/animals.py:266-269 | the stored value is a success exactly for a positive argument, otherwise `ValueError` |
| LegacyAnimals.DeltaPhiMaxIgnored | BioSim_G21_Julie_Marisha/src/biosim/animals.py:266-269 | a valid argument 5.0 is not what gets stored |
| LegacyAnimals.LegacyAnimal.constructor | BioSim_G21_Julie_Marisha/src/biosim/animals.py:97-101 | age defaults to 0, weight is kept as given (possibly None), and fitness is not yet evaluated |
| LegacyAnimals.LegacyAnimal.Aging | BioSim_G21_Julie_Marisha/src/biosim/animals.py:103-109 | age grows by one |
| LegacyAnimals.LegacyAnimal.BirthWeight | BioSim_G21_Julie_Marisha/src/biosim/animals.py:111-120 | a missing `w_birth` or `sigma_birth` raises `AttributeError`, otherwise the first positive draw |
| LegacyAnimals.LegacyAnimal.WeightGain | BioSim_G21_Julie_Marisha/src/biosim/animals.py:122-128 | a missing beta raises first; a None weight raises `TypeError`; otherwise weight grows by beta times food |
| LegacyAnimals.LegacyAnimal.WeightLoss | BioSim_G21_Julie_Marisha/src/biosim/animals.py:130-135 | a missing eta raises first; a None weight raises `TypeError`; otherwise weight shrinks by 1 - eta |
| LegacyAnimals.LegacyAnimal.FitnessValue | BioSim_G21_Julie_Marisha/src/biosim/animals.py:137-149 | a None weight raises `TypeError`; weight <= 0 gives 0; otherwise it succeeds exactly when the sigmoid parameters are present |
| LegacyAnimals.LegacyAnimal.EvaluateFitness | BioSim_G21_Julie_Marisha/src/biosim/animals.py:137-149 | stores the fitness value when it is defined, and otherwise raises its error and leaves fitness untouched |
| LegacyAnimals.LegacyAnimal.Procreation | BioSim_G21_Julie_Marisha/src/biosim/animals.py:159-170 | a missing zeta raises `AttributeError`, a None weight `TypeError`; below the threshold no birth; the draw gives 0 or 1 |
| LegacyAnimals.LegacyAnimal.ProcreationDefined | BioSim_G21_Julie_Marisha/src/biosim/animals.py:159-170 | with attributes, weight and fitness in [0, 1], the draw is always defined |
| LegacyAnimals.LegacyAnimal.Death | BioSim_G21_Julie_Marisha/src/biosim/animals.py:172-183 | fitness 0 gives 0, the death outcome, for certain; a missing omega raises next; an unevaluated fitness raises `TypeError`; the draw gives 0 or 1 |
| LegacyAnimals.LegacyAnimal.DeathDefined | BioSim_G21_Julie_Marisha/src/biosim/animals.py:172-183 | with omega and fitness in [0, 1], the death draw is always defined |
| Cell.DefaultFMaxAdmissible | BioSim_G21_Julie_Marisha/src/biosim/cell.py:252-379 | each terrain's default f_max is non-negative, and is 0 exactly for Desert, Mountain and Ocean |
| Cell.RegrowthDistance | BioSim_G21_Julie_Marisha/src/biosim/cell.py:275-282 | each regrowth shrinks the distance to f_max by the factor 1 - alpha |
| Cell.RegrowthBetween | BioSim_G21_Julie_Marisha/src/biosim/cell.py:275-282 | with alpha in [0, 1], regrown fodder lies between the current amount and f_max |
| Cell.RegrowthFixedPoint | BioSim_G21_Julie_Marisha/src/biosim/cell.py:275-282 | f_max is a fixed point, it is reached exactly from f_max or with alpha 1, and alpha 0 changes nothing |
| Cell.TerrainParams.constructor | BioSim_G21_Julie_Marisha/src/biosim/cell.py:19-31 | a terrain class starts with its default f_max and alpha |
| Cell.TerrainParams.SetParameters | BioSim_G21_Julie_Marisha/src/biosim/cell.py:19-31 | a negative f_max raises `ValueError` and keeps the old value, otherwise it is stored (None counts as 0) |
| Cell.TerrainParams.SetSavannahParameters | BioSim_G21_Julie_Marisha/src/biosim/cell.py:252-267 | f_max is checked and stored before alpha; a negative alpha raises after f_max is already stored |
| Cell.Residents | BioSim_G21_Julie_Marisha/src/biosim/cell.py:230-245 | the animals of one species, in cell order |
| Cell.ResidentsAppend | BioSim_G21_Julie_Marisha/src/biosim/cell.py:230-245 | the residents of a concatenation concatenate |
| Cell.ResidentsComplete | BioSim_G21_Julie_Marisha/src/biosim/cell.py:230-245 | every animal of the species is among its residents |
| Cell.ResidentsDistinct | BioSim_G21_Julie_Marisha/src/biosim/cell.py:230-245 | the residents of a duplicate-free list are duplicate-free |
| Cell.PopulationSplits | BioSim_G21_Julie_Marisha/src/biosim/cell.py:221-245 | herbivores and carnivores together are the whole population |
| Cell.ResidentsWithout | BioSim_G21_Julie_Marisha/src/biosim/cell.py:116-123 | filtering by species commutes with removing animals |
| Cell.ResidentsWithoutOther | BioSim_G21_Julie_Marisha/src/biosim/cell.py:92-105 | removing herbivores leaves the carnivores as they were |
| Cell.WeightSumAppend | BioSim_G21_Julie_Marisha/src/biosim/cell.py:183-199 | biomass is additive over concatenation |
| Cell.WeightSumNonNegative | BioSim_G21_Julie_Marisha/src/biosim/cell.py:183-199 | biomass of non-negative weights is non-negative |
| Cell.Keyed | BioSim_G21_Julie_Marisha/src/biosim/cell.py:125-149 | each animal paired with its fitness, in order |
| Cell.KeyedFirsts | BioSim_G21_Julie_Marisha/src/biosim/cell.py:125-149 | dropping the keys gives back the animals |
| Cell.SortedResidentsFacts | BioSim_G21_Julie_Marisha/src/biosim/cell.py:125-149 | the sorted list of a species is a permutation of its residents in non-decreasing fitness |
| Cell.SortedResidentsDistinct | BioSim_G21_Julie_Marisha/src/biosim/cell.py:125-149 | the sorted list has the same animals as the residents, without duplicates |
| Cell.KeyedWithout | BioSim_G21_Julie_Marisha/src/biosim/cell.py:92-105 | keying commutes with removing animals |
| Cell.FeedingConserves | BioSim_G21_Julie_Marisha/src/biosim/cell.py:77-90 | what n herbivores eat plus what is left is the fodder they started with |
| Cell.FeedingBounds | BioSim_G21_Julie_Marisha/src/biosim/cell.py:77-90 | each portion is min(F, fodder left), between 0 and F, and fodder never goes negative |
| Cell.FeedingFull | BioSim_G21_Julie_Marisha/src/biosim/cell.py:77-90 | with enough fodder, every herbivore eats F and n times F is taken |
| Cell.FeedingFromNothing | BioSim_G21_Julie_Marisha/src/biosim/cell.py:77-90 | with no fodder, nobody eats |
| Cell.Kills | BioSim_G21_Julie_Marisha/src/biosim/cell.py:92-105 | one carnivore's victims are at most the herbivores it tries |
| Cell.KillsStep | BioSim_G21_Julie_Marisha/src/biosim/cell.py:92-105 | trying one more herbivore adds it to the victims exactly when the kill draw succeeds |
| Cell.KillsFacts | BioSim_G21_Julie_Marisha/src/biosim/cell.py:92-105 | the victims are exactly the tried herbivores the draw catches, without duplicates |
| Cell.VictimsFacts | BioSim_G21_Julie_Marisha/src/biosim/cell.py:92-105 | victims taken from the fittest-first herbivore list are distinct herbivores of the cell |
| Cell.Ledger | BioSim_G21_Julie_Marisha/src/biosim/cell.py:92-105 | one victim list per carnivore, in hunting order |
| Cell.LedgerDisjoint | BioSim_G21_Julie_Marisha/src/biosim/cell.py:92-105 | no herbivore is eaten twice, and every victim came from the herbivore list |
| Cell.HuntingOrder | BioSim_G21_Julie_Marisha/src/biosim/cell.py:92-105 | re-sorting after the removals gives the old fittest-first order without the eaten |
| Cell.FirstFailing | BioSim_G21_Julie_Marisha/src/biosim/cell.py:63-75 | the first population entry that raises: every earlier one is valid |
| Cell.AddOutcomeMeaning | BioSim_G21_Julie_Marisha/src/biosim/cell.py:63-75 | adding a population passes exactly when every entry is valid, and otherwise raises `ValueError` |
| Cell.OtherSpeciesIgnored | BioSim_G21_Julie_Marisha/src/biosim/cell.py:63-75 | an entry of an unknown species adds nothing and raises nothing |
| Cell.FirstFailingAppend | BioSim_G21_Julie_Marisha/src/biosim/cell.py:63-75 | the first failure of an extended population is the old one if there was one |
| Cell.Abundance | BioSim_G21_Julie_Marisha/src/biosim/cell.py:170-199 | abundance raises `ZeroDivisionError` exactly when F is 0, and otherwise times (n + 1)F is the food |
| Cell.WeightSumIs | BioSim_G21_Julie_Marisha/src/biosim/cell.py:92-105 | the biomass of animals is the sum of the weights a record holds for them, when the record is current |
| Cell.LedgerWeighed | BioSim_G21_Julie_Marisha/src/biosim/cell.py:92-105 | every carnivore's victims weigh what the herbivores weighed when the hunt began |
| Cell.GainsGrowth | BioSim_G21_Julie_Marisha/src/biosim/cell.py:92-105 | gaining beta times each victim's weight meal by meal is gaining beta times their total weight |
| Cell.Hunt | BioSim_G21_Julie_Marisha/src/biosim/cell.py:92-105 | the carnivore kills exactly the victims of its draws and gains beta times their weight |
| Cell.Cell.constructor | BioSim_G21_Julie_Marisha/src/biosim/cell.py:33-47 | a new cell is empty, with its terrain's defaults and starting fodder |
| Cell.Cell.FodderFirstYear | BioSim_G21_Julie_Marisha/src/biosim/cell.py:49-55 | fodder is set to f_max |
| Cell.Cell.RegrowFodder | BioSim_G21_Julie_Marisha/src/biosim/cell.py:275-282 | Savannah regrows toward f_max without passing it; other terrains reset to f_max |
| Cell.Cell.TotalPopulation | BioSim_G21_Julie_Marisha/src/biosim/cell.py:221-228 | the population is the herbivores plus the carnivores |
| Cell.Cell.AddEntry | BioSim_G21_Julie_Marisha/src/biosim/cell.py:63-75 | a valid entry appends one fresh animal described by the entry; an invalid one raises and adds nothing |
| Cell.Cell.AddPopulation | BioSim_G21_Julie_Marisha/src/biosim/cell.py:63-75 | the entries before the first invalid one are appended as fresh animals in order; the outcome is that of the whole list |
| Cell.Cell.ResidentClass | BioSim_G21_Julie_Marisha/src/biosim/cell.py:14-47 | every animal in a cell belongs to its species' class object |
| Cell.Cell.SortedMembers | BioSim_G21_Julie_Marisha/src/biosim/cell.py:125-149 | the sorted lists contain distinct residents of the species in non-decreasing fitness |
| Cell.Cell.RemoveAnimals | BioSim_G21_Julie_Marisha/src/biosim/cell.py:116-123 | removes the listed animals one at a time and raises `ValueError` at the first one missing |
| Cell.Cell.HerbivoresEat | BioSim_G21_Julie_Marisha/src/biosim/cell.py:77-90 | herbivores eat in ascending fitness order; each gains from min(F, fodder left); carnivores and ages are unchanged |
| Cell.Cell.FeedInOrder | BioSim_G21_Julie_Marisha/src/biosim/cell.py:77-90 | feeding a list in order leaves Left(f, F, n) and gives each its portion |
| Cell.Cell.AbundanceHerbivores | BioSim_G21_Julie_Marisha/src/biosim/cell.py:170-181 | raises exactly when F is 0; otherwise fodder over (n + 1)F, non-negative for positive F |
| Cell.Cell.AbundanceCarnivores | BioSim_G21_Julie_Marisha/src/biosim/cell.py:183-199 | herbivore biomass over (carnivores + 1)F |
| Cell.Cell.PropensityHerbivores | BioSim_G21_Julie_Marisha/src/biosim/cell.py:201-209 | Mountain and Ocean give 0; otherwise it raises exactly when F is 0 |
| Cell.Cell.CarnivorePropensity | BioSim_G21_Julie_Marisha/src/biosim/cell.py:211-219 | Mountain and Ocean give 0; otherwise it raises exactly when F is 0 |
| Cell.Cell.PropensityCarnivores | BioSim_G21_Julie_Marisha/src/biosim/cell.py:211-219 | the loop computing the biomass agrees with the propensity function |
| Cell.Cell.RemoveVictims | BioSim_G21_Julie_Marisha/src/biosim/cell.py:92-105 | removing the eaten leaves the others, and the fittest-first list loses exactly them |
| Cell.Cell.HuntHerd | BioSim_G21_Julie_Marisha/src/biosim/cell.py:92-105 | one carnivore's hunt through the fittest-first herbivores, and its weight gain |
| Cell.Cell.CarnivoreHunts | BioSim_G21_Julie_Marisha/src/biosim/cell.py:92-105 | one carnivore's turn: it gains from its victims, and they leave the cell |
| Cell.Cell.Victims | BioSim_G21_Julie_Marisha/src/biosim/cell.py:92-105 | the herbivores a carnivore would kill weigh what a current record of the herbivores says |
| Cell.Cell.HuntedMembers | BioSim_G21_Julie_Marisha/src/biosim/cell.py:92-105 | the fittest-first herbivore list holds distinct herbivores of the cell |
| Cell.Cell.TakeTurns | BioSim_G21_Julie_Marisha/src/biosim/cell.py:92-105 | the loop over the carnivores: the victims are the ledger, they leave the cell, and each carnivore gains beta times the starting weight of its own victims |
| Cell.Cell.CarnivoresEat | BioSim_G21_Julie_Marisha/src/biosim/cell.py:92-105 | carnivores hunt in ascending fitness order, each through the herbivores left, fittest first; the victims are the ledger of their turns and all leave the cell; carnivore k gains exactly beta times the weight of its own victims; herbivores keep their weights and every animal its age |
| Rossumoya.CheckMapInput | BioSim_G21_Julie_Marisha/src/biosim/rossumoya.py:160-197 | a map passes exactly when it is well-formed; the errors are the source's `ValueError` messages or `IndexError` |
| Rossumoya.MakeCell | BioSim_G21_Julie_Marisha/src/biosim/rossumoya.py:301-317 | a fresh empty cell of the code's terrain, using its class objects; its class gets the default `f_max` (and, for the savannah, the default `alpha`) and the other four terrain classes keep their attributes |
| Rossumoya.NewCell | BioSim_G21_Julie_Marisha/src/biosim/rossumoya.py:301-317 | as `MakeCell`, and the cells already made keep their state |
| Rossumoya.BuildRow | BioSim_G21_Julie_Marisha/src/biosim/rossumoya.py:301-317 | a row is built exactly when all its codes are known, with one fresh cell per coordinate |
| Rossumoya.MakeGeography | BioSim_G21_Julie_Marisha/src/biosim/rossumoya.py:301-317 | an unknown code raises `KeyError`; otherwise every coordinate gets a fresh cell of its terrain, in row-major order. On both paths, each terrain class that got a cell (before the unknown character, on the `KeyError` path) holds its default `f_max` (and the savannah its default `alpha`), and each other class keeps its attributes |
| Rossumoya.NewCalculator | BioSim_G21_Julie_Marisha/src/biosim/rossumoya.py:16-37 | the calculator holds the four neighbours of the location |
| Rossumoya.CellPropensity | BioSim_G21_Julie_Marisha/src/biosim/rossumoya.py:39-63 | impassable cells give 0; errors are `ZeroDivisionError`; passable cells are positive for a positive exponential |
| Rossumoya.Propensities | BioSim_G21_Julie_Marisha/src/biosim/rossumoya.py:39-63 | the calculator's propensities are `PropensityRow` of its neighbours: one per neighbour, each that cell's propensity, or the first lookup's error |
| Rossumoya.TotalBounds | BioSim_G21_Julie_Marisha/src/biosim/rossumoya.py:78-83 | the sum of non-negative values is non-negative and bounds each value |
| Rossumoya.TotalScaled | BioSim_G21_Julie_Marisha/src/biosim/rossumoya.py:78-83 | dividing every value by d divides the total by d |
| Rossumoya.AsWritten | BioSim_G21_Julie_Marisha/src/biosim/rossumoya.py:78-83 | the probabilities as computed: prop / sum * prop, one per propensity |
| Rossumoya.AsWrittenNonNegative | BioSim_G21_Julie_Marisha/src/biosim/rossumoya.py:78-83 | those values are at least non-negative |
| Rossumoya.AsWrittenNotDistribution | BioSim_G21_Julie_Marisha/src/biosim/rossumoya.py:78-83 | propensities 1, 1, 2, 0 give values that sum to 1.5, not 1 |
| Rossumoya.Normalised | BioSim_G21_Julie_Marisha/src/biosim/rossumoya.py:78-83 | the intended probabilities prop / sum, one per propensity |
| Rossumoya.NormalisedIsDistribution | BioSim_G21_Julie_Marisha/src/biosim/rossumoya.py:78-83 | normalised propensities lie in [0, 1] and sum to 1 |
| Rossumoya.Shares | BioSim_G21_Julie_Marisha/src/biosim/rossumoya.py:78-83 | the loop raises `ZeroDivisionError` exactly for a zero sum, and otherwise yields the as-written values |
| Rossumoya.NormalisedShares | BioSim_G21_Julie_Marisha/src/biosim/rossumoya.py:78-83 | the same loop with the intended division yields the normalised values |
| Rossumoya.Probability | BioSim_G21_Julie_Marisha/src/biosim/rossumoya.py:65-84 | an unknown species raises `UnboundLocalError`; otherwise the neighbours and their as-written probabilities |
| Rossumoya.ChooseCellNeverChooses | BioSim_G21_Julie_Marisha/src/biosim/rossumoya.py:271-287 | unpacking the calculator object always raises `TypeError`, so no cell is ever chosen |
| Rossumoya.PickedPositive | BioSim_G21_Julie_Marisha/src/biosim/rossumoya.py:271-287 | an honest pick from a distribution never lands on a probability-0 cell |
| Rossumoya.ChooseCell | BioSim_G21_Julie_Marisha/src/biosim/rossumoya.py:271-287 | the intended choice is exactly `Chosen`: the first failing propensity lookup's error, `ZeroDivisionError` when the propensities sum to zero, and otherwise the neighbour `pick` draws with the normalised shares; a chosen cell is adjacent, on the map and passable |
| Rossumoya.ChosenIsOpen | BioSim_G21_Julie_Marisha/src/biosim/rossumoya.py:271-287 | with a positive exponential and an honest draw, `Chosen` gives an adjacent passable map cell, or a `KeyError` or `ZeroDivisionError` |
| Rossumoya.PropensityRowMeaning | BioSim_G21_Julie_Marisha/src/biosim/rossumoya.py:39-63 | on success, entry k is the propensity of the k-th neighbour, non-negative, and non-zero only for a passable cell; a failure is `KeyError` for a neighbour off the map or that cell's `ZeroDivisionError`, at the first neighbour whose lookup fails |
| Rossumoya.Picked | BioSim_G21_Julie_Marisha/src/biosim/rossumoya.py:289-299 | the dead list holds exactly the animals the test picks |
| Rossumoya.Survivors | BioSim_G21_Julie_Marisha/src/biosim/rossumoya.py:289-299 | the survivors are exactly the animals the test spares |
| Rossumoya.PickedDistinct | BioSim_G21_Julie_Marisha/src/biosim/rossumoya.py:289-299 | a duplicate-free cell gives a duplicate-free dead list |
| Rossumoya.WithoutPicked | BioSim_G21_Julie_Marisha/src/biosim/rossumoya.py:289-299 | removing the dead list leaves the survivors |
| Rossumoya.CellDeath | BioSim_G21_Julie_Marisha/src/biosim/rossumoya.py:292-299 | one cell's death pass leaves exactly its survivors, in order |
| Rossumoya.AfterDeath | BioSim_G21_Julie_Marisha/src/biosim/rossumoya.py:289-299 | the census after a death pass has the same cells |
| Rossumoya.AfterDeathShrinks | BioSim_G21_Julie_Marisha/src/biosim/rossumoya.py:289-299 | death only removes animals |
| Rossumoya.NoSurvivors | BioSim_G21_Julie_Marisha/src/biosim/rossumoya.py:296 | the always-true test of the method object leaves no survivor |
| Rossumoya.DeathKillsTheSpared | BioSim_G21_Julie_Marisha/src/biosim/rossumoya.py:296 | an animal the intended test spares is killed by the code as written |
| Rossumoya.HeadcountUpdate | BioSim_G21_Julie_Marisha/src/biosim/rossumoya.py:254-269 | replacing one cell's list changes the island headcount by the difference |
| Rossumoya.MoveKeepsHeadcount | BioSim_G21_Julie_Marisha/src/biosim/rossumoya.py:254-269 | moving an animal keeps the island headcount |
| Rossumoya.MoveSeparate | BioSim_G21_Julie_Marisha/src/biosim/rossumoya.py:254-269 | after a move, no animal lives in two cells and the animal is in its new cell only |
| Rossumoya.MoveKept | BioSim_G21_Julie_Marisha/src/biosim/rossumoya.py:254-269 | a move changes only the moved animal's place, and residents stay in their cells otherwise |
| Rossumoya.Moved | BioSim_G21_Julie_Marisha/src/biosim/rossumoya.py:254-269 | a move keeps the set of cells |
| Rossumoya.Arrive | BioSim_G21_Julie_Marisha/src/biosim/rossumoya.py:265 | `append` puts the animal at the end of the new cell |
| Rossumoya.Leave | BioSim_G21_Julie_Marisha/src/biosim/rossumoya.py:268-269 | `remove` takes the animal from the old cell |
| Rossumoya.FirstFailingPlacement | BioSim_G21_Julie_Marisha/src/biosim/rossumoya.py:199-210 | points at the first placement that raises, or at the end |
| Rossumoya.FirstFailingPlacementIs | BioSim_G21_Julie_Marisha/src/biosim/rossumoya.py:199-210 | every earlier placement names a map cell with a valid population, and the one pointed at does not |
| Rossumoya.PlacementOutcomeMeaning | BioSim_G21_Julie_Marisha/src/biosim/rossumoya.py:199-210 | adding placements passes exactly when every location is on the map and every entry is valid |
| Rossumoya.PlacementAt | BioSim_G21_Julie_Marisha/src/biosim/rossumoya.py:199-210 | a location off the map raises `KeyError` and an invalid entry raises its error |
| Rossumoya.Births | BioSim_G21_Julie_Marisha/src/biosim/rossumoya.py:220-230 | a mother's birth draw with her species' count: 0 below the threshold, 0 or 1, and errors are `ValueError` |
| Rossumoya.BirthsDefined | BioSim_G21_Julie_Marisha/src/biosim/rossumoya.py:220-230 | for a resident of the cell, the draw is always defined |
| Rossumoya.LoseBirthWeight | BioSim_G21_Julie_Marisha/src/biosim/rossumoya.py:252 | the mother's weight becomes the loss function of her weight and the birth weight |
| Rossumoya.OffspringEntryAdds | BioSim_G21_Julie_Marisha/src/biosim/rossumoya.py:235-252 | the offspring entry is accepted and describes one animal of age 0 with the drawn weight |
| Rossumoya.Island.Residents | BioSim_G21_Julie_Marisha/src/biosim/rossumoya.py:129-158 | the census of the island has one list per map cell |
| Rossumoya.Island.constructor | BioSim_G21_Julie_Marisha/src/biosim/rossumoya.py:138-144 | the island holds the geography built from the map: its cells and their order |
| Rossumoya.Island.DeathWith | BioSim_G21_Julie_Marisha/src/biosim/rossumoya.py:289-299 | the intended death pass leaves exactly each cell's survivors of the test |
| Rossumoya.Island.DeathEverywhere | BioSim_G21_Julie_Marisha/src/biosim/rossumoya.py:289-299 | the loop over the cells gives the same census as the death pass |
| Rossumoya.Island.Death | BioSim_G21_Julie_Marisha/src/biosim/rossumoya.py:289-299 | as written, every cell ends empty |
| Rossumoya.Island.Move | BioSim_G21_Julie_Marisha/src/biosim/rossumoya.py:263-269 | a move keeps the headcount and changes only the moved animal's place |
| Rossumoya.Island.MigrationFrom | BioSim_G21_Julie_Marisha/src/biosim/rossumoya.py:261-269 | one cell's inner loop: on success `moved` gains exactly `Going` of the cell's list at the start of the loop, so the animal after each one removed is skipped; each migrant that has not yet migrated (the set `moved`, for `has_migrated`) moves by `MigrateOne`; every animal of the year's start is in its old cell, or, once moved, in an adjacent passable cell; the headcount is kept and non-migrants stay |
| Rossumoya.Going | BioSim_G21_Julie_Marisha/src/biosim/rossumoya.py:262-269 | the animals that leave a list iterated while its migrants are removed from it: migrants not yet moved, each skipping the animal after it |
| Rossumoya.GoingAppend | BioSim_G21_Julie_Marisha/src/biosim/rossumoya.py:262-269 | animals appended to the list that have all moved already do not change who leaves it |
| Rossumoya.GoingFresh | BioSim_G21_Julie_Marisha/src/biosim/rossumoya.py:262-269 | who leaves a list does not depend on animals outside it having moved |
| Rossumoya.LeaversStep | BioSim_G21_Julie_Marisha/src/biosim/rossumoya.py:259-269 | after one more passable cell of the pass, the moved animals are `Leavers` of the cells visited so far, computed on the year's start, and the cells still ahead hold their start residents followed only by moved animals |
| Rossumoya.Island.SendFrom | BioSim_G21_Julie_Marisha/src/biosim/rossumoya.py:262-269 | Proof step of `MigrationWith`: the inner loop from position i on sends off exactly `Going` of the list it started from |
| Rossumoya.Island.SendTurn | BioSim_G21_Julie_Marisha/src/biosim/rossumoya.py:262-269 | Proof step of `MigrationWith`: one turn of the inner loop keeps the loop's invariant `Sending` and the placement of every animal |
| Rossumoya.Island.MigrateOne | BioSim_G21_Julie_Marisha/src/biosim/rossumoya.py:264-269 | on success the migrant is removed from its cell and appended to the cell that `Chosen` picks at the moment of the move, which is adjacent and passable, and the census changes by exactly that move; on failure the error is `Chosen`'s `KeyError` or `ZeroDivisionError` and nothing changes |
| Rossumoya.Island.Destination | BioSim_G21_Julie_Marisha/src/biosim/rossumoya.py:271-287 | the destination is exactly `Chosen` of the island's current cells, an adjacent passable map cell on success, and nothing changes |
| Rossumoya.Island.MigrationWith | BioSim_G21_Julie_Marisha/src/biosim/rossumoya.py:254-269 | the intended migration keeps the headcount; on success the animals it moved are exactly `Leavers` of the year's start, the cells in map order; every animal is in the cell where the year started, or, if it moved, in an adjacent passable cell, so nobody moves more than one step; nobody else joins a cell; errors are `KeyError` or `ZeroDivisionError` |
| Rossumoya.Island.MigrationOver | BioSim_G21_Julie_Marisha/src/biosim/rossumoya.py:259-269 | Proof step of `MigrationWith`: the outer loop from the k-th cell on keeps the headcount and the placement, and on success its moved animals are `Leavers` of all the cells |
| Rossumoya.Island.MigrationTurn | BioSim_G21_Julie_Marisha/src/biosim/rossumoya.py:259-269 | Proof step of `MigrationWith`: one cell of the outer loop: a cell that cannot be entered is skipped, any other cell's leavers join `moved` |
| Rossumoya.PlacedMove | BioSim_G21_Julie_Marisha/src/biosim/rossumoya.py:264-269 | moving an animal that has not moved yet from its start cell to an adjacent passable cell keeps every animal at most one step from where it started |
| Rossumoya.Island.MigrationAsWritten | BioSim_G21_Julie_Marisha/src/biosim/rossumoya.py:254-269 | as written, `animal.has_migrated` exists on no class, so the first animal reached in a passable cell raises `AttributeError`; with `has_migrated` supplied as the parameter `hasMigrated`, the member states that the pass raises `TypeError` at `choose_cell`'s unpacking exactly when some animal in a passable cell has not migrated |
| Rossumoya.Island.AddAt | BioSim_G21_Julie_Marisha/src/biosim/rossumoya.py:199-210 | adding to one cell appends its valid prefix and changes no other cell |
| Rossumoya.Island.AddPopulation | BioSim_G21_Julie_Marisha/src/biosim/rossumoya.py:199-210 | the outcome of the placements; each cell holds its old list followed by fresh animals with the statuses `Arrivals` gives for the placements processed; cells only grow; the headcount rises by the newcomers when it passes |
| Rossumoya.PlacedStatuses | BioSim_G21_Julie_Marisha/src/biosim/rossumoya.py:199-210 | after the placements, every cell has gained exactly as many animals as `Arrivals` lists for it, each new and with that status |
| Rossumoya.ArrivalsExtend | BioSim_G21_Julie_Marisha/src/biosim/rossumoya.py:199-210 | a list extended twice holds, after its old animals, the statuses of both extensions in order |
| Rossumoya.PlacingStep | BioSim_G21_Julie_Marisha/src/biosim/rossumoya.py:199-210 | one more placement extends the description `Placing` of the placements so far by one |
| Rossumoya.Island.PlaceFrom | BioSim_G21_Julie_Marisha/src/biosim/rossumoya.py:199-210 | Proof step of `AddPopulation`: the loop from placement j on gives the outcome of the placements and keeps the record of the newcomers' statuses |
| Rossumoya.Island.PlaceNext | BioSim_G21_Julie_Marisha/src/biosim/rossumoya.py:199-210 | Proof step of `AddPopulation`: placement j passes and comes before the first failing one, or it is the one whose error the pass raises |
| Rossumoya.Island.PlaceRecorded | BioSim_G21_Julie_Marisha/src/biosim/rossumoya.py:199-210 | Proof step of `AddPopulation`: one placement with its newcomers recorded in `born` and their statuses |
| Rossumoya.Island.Place | BioSim_G21_Julie_Marisha/src/biosim/rossumoya.py:199-210 | one placement raises `KeyError` off the map; otherwise its cell holds its old list followed by fresh animals with the `Described` statuses of the valid prefix of the list, and no other cell changes |
| Rossumoya.Island.AddOffspring | BioSim_G21_Julie_Marisha/src/biosim/rossumoya.py:235-252 | the intended birth: the birth weight is positive and the first positive of her `draw_birth_weight` draws (`FirstPositive`), a fresh newborn of the mother's species with age 0 and that weight joins the mother's cell, and the mother weighs `loss` of her old weight and the birth weight |
| Rossumoya.Island.Newborn | BioSim_G21_Julie_Marisha/src/biosim/rossumoya.py:235-252 | one fresh animal of age 0 with the given weight is appended to the cell |
| Rossumoya.Island.Bear | BioSim_G21_Julie_Marisha/src/biosim/rossumoya.py:245-252 | the birth weight is positive and the first positive of her `draw_birth_weight` draws (`FirstPositive`), and the mother weighs `loss` of her old weight and it; no cell changes |
| Rossumoya.Island.ProcreationAsWritten | BioSim_G21_Julie_Marisha/src/biosim/rossumoya.py:212-252 | as written, the pass passes exactly when no mother in a passable cell gives birth, and otherwise raises |
| Rossumoya.Island.ProcreationWith | BioSim_G21_Julie_Marisha/src/biosim/rossumoya.py:212-252 | the intended pass: in each passable cell it reached, every resident drew `prob_procreation` with its start attributes and its species' count at its turn; each mother drew 1 and weighs `loss` of her weight and the birth weight, which is the first positive of her `draw_birth_weight` draws (`FirstPositive`); her newborn, of her species with age 0 and that weight, follows the residents in the mothers' order and is fresh; every other resident keeps its weight, and no age or class attribute changes; the cells it did not reach are unchanged; on success it reached every passable cell, and otherwise it stops with the `ValueError` of the draw that raised |
| Rossumoya.Island.ProcreationSweep | BioSim_G21_Julie_Marisha/src/biosim/rossumoya.py:218-233 | Proof step of `ProcreationWith`: the loop over the cells in map order: the cells before the one it stopped at are described cell by cell, each birth weight being the first positive of her `draw_birth_weight` draws (`FirstPositive`), and on success it visited every cell |
| Rossumoya.Island.SweepStep | BioSim_G21_Julie_Marisha/src/biosim/rossumoya.py:218-233 | Proof step of `ProcreationWith`: one more cell of the loop keeps the description of the cells visited so far, including that each birth weight is the mother's first positive draw |
| Rossumoya.Island.SweepSummary | BioSim_G21_Julie_Marisha/src/biosim/rossumoya.py:218-233 | Proof step of `ProcreationWith`: a finished loop gives the pass-level facts of `ProcreationWith`, birth weights being first positive draws |
| Rossumoya.Island.ProcreationStep | BioSim_G21_Julie_Marisha/src/biosim/rossumoya.py:219-233 | Proof step of `ProcreationWith`: a passable cell's turn adds its birth weights, each the first positive of her `draw_birth_weight` draws (`FirstPositive`), to the record, and the cells already reached keep their description |
| Rossumoya.Island.ProcreationKept | BioSim_G21_Julie_Marisha/src/biosim/rossumoya.py:219-233 | Proof step of `ProcreationWith`: a passable cell's births, each birth weight its mother's first positive draw, with the residents of every other cell keeping their state |
| Rossumoya.Island.ProcreationIn | BioSim_G21_Julie_Marisha/src/biosim/rossumoya.py:219-233 | Proof step of `ProcreationWith`: `ProcreationAt`, stated on the statuses of the cell's animals, birth weights being first positive draws; animals outside the cell keep their state |
| Rossumoya.Island.ProcreationAt | BioSim_G21_Julie_Marisha/src/biosim/rossumoya.py:219-252 | one cell's loop over the residents it had on arrival: each draws with its species' current count; the mothers are exactly those that drew 1, each loses by `loss` a birth weight that is the first positive of her `draw_birth_weight` draws (`FirstPositive`), and their fresh newborns follow the residents in order, with the mother's species, age 0 and the birth weight; the others keep their weight; only this cell changes; a draw that raises stops the loop with its `ValueError` |
| Rossumoya.Island.BirthTurn | BioSim_G21_Julie_Marisha/src/biosim/rossumoya.py:220-233 | Proof step of `ProcreationWith`: one resident's turn: a draw that raises stops the pass, otherwise the turn extends the record of the cell's births, a birth weight being the mother's first positive draw |
| Rossumoya.Island.Deliver | BioSim_G21_Julie_Marisha/src/biosim/rossumoya.py:232-252 | Proof step of `ProcreationWith`: after the resident's draw, its birth, with a weight that is the first positive of her `draw_birth_weight` draws (`FirstPositive`), or its non-birth extends the record of the cell's births |
| Rossumoya.Island.TurnStep | BioSim_G21_Julie_Marisha/src/biosim/rossumoya.py:232-252 | Proof step of `ProcreationWith`: `BreedOne` for the i-th animal of the cell: a birth exactly on a non-zero draw, with a birth weight that is the first positive of her `draw_birth_weight` draws (`FirstPositive`), the newborn, the mother's loss, and every other animal's status unchanged |
| Rossumoya.Island.BreedOne | BioSim_G21_Julie_Marisha/src/biosim/rossumoya.py:232-252 | on a non-zero draw, a positive birth weight that is the first positive of her `draw_birth_weight` draws (`FirstPositive`), a fresh newborn of the mother's species with age 0 and that weight appended to the cell, and the mother weighing `loss` of her old weight and the birth weight; on a zero draw nothing changes |
| Simulation.CheckMapInput | BioSim_G21_Julie_Marisha/src/biosim/simulation.py:80-107 | the facade's check is the island's check, accepting exactly the well-formed maps |
| Simulation.DefaultMapAccepted | BioSim_G21_Julie_Marisha/src/biosim/simulation.py:15-30 | the default map passes the check |
| Simulation.DefaultMapCodes | BioSim_G21_Julie_Marisha/src/biosim/simulation.py:15-30 | every code of the default map is known |
| Simulation.Coordinates | BioSim_G21_Julie_Marisha/src/biosim/simulation.py:109-129 | one empty entry per map position, keyed from (1, 1) |
| Simulation.CoordinatesKeys | BioSim_G21_Julie_Marisha/src/biosim/simulation.py:109-129 | an h by w map has exactly the keys 1..h by 1..w |
| Simulation.DefaultGridKeys | BioSim_G21_Julie_Marisha/src/biosim/simulation.py:109-129 | the default grid is 13 by 21, all entries empty, with ocean corners |
| Simulation.LayOut | BioSim_G21_Julie_Marisha/src/biosim/simulation.py:116-128 | the loop builds the coordinate dictionary |
| Simulation.ExtendedTwice | BioSim_G21_Julie_Marisha/src/biosim/simulation.py:174-190 | extending a cell twice is extending it with the concatenations |
| Simulation.Populate | BioSim_G21_Julie_Marisha/src/biosim/simulation.py:174-190 | adding a population keeps the grid's keys |
| Simulation.FirstFault | BioSim_G21_Julie_Marisha/src/biosim/simulation.py:174-190 | points at the first item that raises, or at the end |
| Simulation.FirstFaultIsFirst | BioSim_G21_Julie_Marisha/src/biosim/simulation.py:174-190 | every earlier item raises nothing |
| Simulation.PopulateOutcomeIs | BioSim_G21_Julie_Marisha/src/biosim/simulation.py:174-190 | the outcome is the first item's error, or pass |
| Simulation.AppendMeaning | BioSim_G21_Julie_Marisha/src/biosim/simulation.py:174-190 | an item appends its animal to its own cell's species list only |
| Simulation.PopulateGrid | BioSim_G21_Julie_Marisha/src/biosim/simulation.py:174-190 | each cell ends with its own arrivals from the items before the first failure |
| Simulation.PopulateOutcome | BioSim_G21_Julie_Marisha/src/biosim/simulation.py:174-190 | adding passes exactly when no item raises |
| Simulation.OtherSpeciesSkipped | BioSim_G21_Julie_Marisha/src/biosim/simulation.py:174-190 | an entry of another species changes nothing |
| Simulation.PopulateElsewhere | BioSim_G21_Julie_Marisha/src/biosim/simulation.py:174-190 | a cell no item names is unchanged |
| Simulation.PopulateStops | BioSim_G21_Julie_Marisha/src/biosim/simulation.py:174-190 | after a failure, later items change nothing |
| Simulation.BioSim.Init | BioSim_G21_Julie_Marisha/src/biosim/simulation.py:36-78 | the facade holds the given grid |
| Simulation.BioSim.MakeGeographyCoordinates | BioSim_G21_Julie_Marisha/src/biosim/simulation.py:109-129 | whatever map is passed, the default map's grid is built |
| Simulation.BioSim.AddEntries | BioSim_G21_Julie_Marisha/src/biosim/simulation.py:180-190 | one placement's entries are added as the populate function says |
| Simulation.BioSim.AddPopulation | BioSim_G21_Julie_Marisha/src/biosim/simulation.py:174-190 | the grid after the loop is the populate function of the old grid |
| Simulation.BioSim.New | BioSim_G21_Julie_Marisha/src/biosim/simulation.py:36-78 | no map raises `AttributeError`; a rejected map raises its error; no population raises `AttributeError`; otherwise the default grid with the population |
| Simulation.BioSim.SetAnimalParameters | BioSim_G21_Julie_Marisha/src/biosim/simulation.py:131-142 | "Herbivore" and "Carnivore" set their own class and leave the other; any other name changes nothing |
| Simulation.BioSim.SetLandscapeParameters | BioSim_G21_Julie_Marisha/src/biosim/simulation.py:144-155 | "S" sets Savannah's f_max (300.0 when the key is missing) and alpha (0.3 when missing); "J" with alpha raises `TypeError`, otherwise sets f_max (800.0 when missing); other codes change nothing |
| Simulation.FMaxArgument | BioSim_G21_Julie_Marisha/src/biosim/cell.py:252-310 | the f_max a `**params` call passes: a given value unchanged, and for a missing key the keyword default of the terrain's `set_parameters`: 300.0 for Savannah, 800.0 for Jungle, `None` for Desert |
| Landscape.Defaulted | BioSim_G21_Julie_Marisha/src/biosim/landscape.py:30-41 | an attribute is set exactly when its argument is None |
| Landscape.Layout | BioSim_G21_Julie_Marisha/src/biosim/landscape.py:45-58 | one entry (code, no fodder) per map position, keyed from (1, 1) |
| Landscape.LayoutKeys | BioSim_G21_Julie_Marisha/src/biosim/landscape.py:45-58 | an h by w map has exactly the keys 1..h by 1..w |
| Landscape.DefaultGeographyKeys | BioSim_G21_Julie_Marisha/src/biosim/landscape.py:14-28 | the default geography is 13 by 21 with no fodder |
| Landscape.DefaultGeographyCells | BioSim_G21_Julie_Marisha/src/biosim/landscape.py:14-28 | the default geography has savannah, jungle and ocean cells where the map says |
| Landscape.LayOut | BioSim_G21_Julie_Marisha/src/biosim/landscape.py:45-58 | the loop builds the layout |
| Landscape.Sweeping | BioSim_G21_Julie_Marisha/src/biosim/landscape.py:60-81 | a pass over the cells keeps the set of cells |
| Landscape.Done | BioSim_G21_Julie_Marisha/src/biosim/landscape.py:60-81 | points at the first cell whose step raises, or at the end |
| Landscape.DoneIsFirst | BioSim_G21_Julie_Marisha/src/biosim/landscape.py:60-81 | every earlier cell's step succeeds |
| Landscape.SweepOutcome | BioSim_G21_Julie_Marisha/src/biosim/landscape.py:60-81 | the pass fails exactly at that first cell, with its error |
| Landscape.SweepEntry | BioSim_G21_Julie_Marisha/src/biosim/landscape.py:60-81 | a cell is updated exactly when it comes before the failure, and is otherwise unchanged |
| Landscape.SweepFails | BioSim_G21_Julie_Marisha/src/biosim/landscape.py:60-81 | a cell whose step raises makes the pass fail |
| Landscape.FirstYearPasses | BioSim_G21_Julie_Marisha/src/biosim/landscape.py:60-68 | with both maxima set, the first-year pass always passes |
| Landscape.FirstYearFills | BioSim_G21_Julie_Marisha/src/biosim/landscape.py:60-68 | it gives Savannah f_sav_max and Jungle f_jungle_max and leaves the rest |
| Landscape.JungleRegrowthIdempotent | BioSim_G21_Julie_Marisha/src/biosim/landscape.py:80-81 | regrowing a jungle twice is regrowing it once |
| Landscape.SavannahMaximumFixed | BioSim_G21_Julie_Marisha/src/biosim/landscape.py:75-78 | a savannah at its maximum stays there |
| Landscape.RegrownBetween | BioSim_G21_Julie_Marisha/src/biosim/landscape.py:75-78 | with alpha in [0, 1], regrown fodder lies between the current amount and the maximum |
| Landscape.StepKeepsKind | BioSim_G21_Julie_Marisha/src/biosim/landscape.py:60-81 | a step never changes a cell's code, and cells other than S and J are left alone |
| Landscape.StepErrors | BioSim_G21_Julie_Marisha/src/biosim/landscape.py:60-81 | a step raises only `AttributeError` for a missing attribute or `TypeError` for missing fodder, and only on S or J |
| Landscape.RegrowthOfSettled | BioSim_G21_Julie_Marisha/src/biosim/landscape.py:70-81 | regrowth changes nothing once every cell is at its maximum |
| Landscape.FirstYearThenRegrowth | BioSim_G21_Julie_Marisha/src/biosim/landscape.py:60-81 | regrowth right after the first year passes and changes nothing |
| Landscape.DroppedSavannahMaximum | BioSim_G21_Julie_Marisha/src/biosim/landscape.py:30-43 | a landscape built with f_sav_max has no maximum, so its first year raises |
| Landscape.Landscape.Init | BioSim_G21_Julie_Marisha/src/biosim/landscape.py:30-43 | a new object has no attribute set and an empty map |
| Landscape.Landscape.New | BioSim_G21_Julie_Marisha/src/biosim/landscape.py:30-43 | a given geogr raises `AttributeError`; otherwise only the None arguments get their defaults, and the map is the default geography |
| Landscape.Landscape.UseDefaultMap | BioSim_G21_Julie_Marisha/src/biosim/landscape.py:31-43 | stores the default map and its geography |
| Landscape.Landscape.NewStoring | BioSim_G21_Julie_Marisha/src/biosim/landscape.py:30-43 | the intended constructor stores each argument or its default, and lays out the given map |
| Landscape.Landscape.SetDefaults | BioSim_G21_Julie_Marisha/src/biosim/landscape.py:34-41 | each attribute becomes its default exactly when its argument is None |
| Landscape.Landscape.UseMap | BioSim_G21_Julie_Marisha/src/biosim/landscape.py:43-58 | stores the map text and its layout |
| Landscape.Landscape.MakeGeographyCoordinates | BioSim_G21_Julie_Marisha/src/biosim/landscape.py:45-58 | no geogr raises `AttributeError`; otherwise the layout of its lines |
| Landscape.Landscape.FodderFirstYear | BioSim_G21_Julie_Marisha/src/biosim/landscape.py:60-68 | the loop's outcome and map are those of the first-year pass |
| Landscape.Landscape.FillCell | BioSim_G21_Julie_Marisha/src/biosim/landscape.py:64-68 | one cell's first-year step, or its error |
| Landscape.Landscape.RegrowthFodder | BioSim_G21_Julie_Marisha/src/biosim/landscape.py:70-81 | the loop's outcome and map are those of the regrowth pass |
| Landscape.Landscape.RegrowCell | BioSim_G21_Julie_Marisha/src/biosim/landscape.py:75-81 | one cell's regrowth step, or its error |

## Left out

- Random numbers (`np.random.normal`, `np.random.random`, `np.random.choice`) and `np.exp` are parameters of the operations that use them. The model proves facts for every possible draw and every exponential, and facts about a particular distribution are not stated.
- Floating point is modelled as exact real arithmetic. Rounding, infinities and NaN are not captured.
- Python lists of animals are sequences of object references. Aliasing is modelled only as far as animals being shared between a list and a cell.
- `has_migrated`, `weight_loss_birth` and `prob_carnivore_kill` (`cell.py:101`) are defined by no class. They are parameters: `hasMigrated` (and the set `moved` of the intended migration), `loss`, and the `KillOracle` of `Cell.Kills`.
- Rossumoya.Island.ProcreationWith: the source draws against a list that grows while it is iterated over. The model draws for the residents present when the pass reaches the cell, so newborns do not procreate in the year of their birth.
- Rossumoya.Island.ProcreationWith: birth weights are read from one draw sequence per (cell, mother index) rather than from one global random stream.
- Rossumoya.Island.ProcreationWith: it keeps the source's truth test `if animal_gives_birth:` (`rossumoya.py:232`), so a birth happens on draw 1. Under the weights `[p, 1 - p]` that has probability 1 - p, and a lone animal above the weight threshold (n = 1, so p = 0, `animal.py:180-181`) gives birth for certain, against the docstring's "at least two animals" (`animal.py:173`). The model states the pass for every draw and does not correct this.
- Animal.FirstPositiveDraw: it requires that some draw is positive. The loop `while birth_weight <= 0` (`animal.py:132-133`) never ends when no draw can be positive, for instance with `w_birth = sigma_birth = 0`, which `set_parameters` accepts because it rejects only negative values (`animal.py:39-46`). That non-termination is not modelled.
- Animal.Animal.DrawBirthWeight: it requires a positive draw, as `FirstPositiveDraw` does; the endless loop for `w_birth = sigma_birth = 0` is not modelled.
- LegacyAnimals.LegacyAnimal.BirthWeight: it requires a positive draw; the loop of `animals.py:118-119` never ends without one (for instance `w_birth = sigma_birth = 0`, accepted by `animals.py:36-43`), and that is not modelled.
- Rossumoya.Island.Bear: it requires a positive draw (through `Animal.Animal.DrawBirthWeight`); a birth that would hang in the source is not modelled.
- Rossumoya.Island.AddOffspring: it requires a positive draw, as `Bear` does; the hang is not modelled.
- Rossumoya.Island.BreedOne: it requires a positive draw, as `Bear` does; the hang is not modelled.
- Rossumoya.Island.ProcreationWith: it requires `PositiveDraws`, a positive draw for every (cell, mother), and so do its proof steps (ProcreationSweep, SweepStep, ProcreationStep, ProcreationKept, ProcreationIn, ProcreationAt, BirthTurn, Deliver, TurnStep). A pass in which a mother gives birth while no positive birth weight can be drawn hangs in the source, and that is not modelled.
- Rossumoya.Island.AddOffspring: the source builds `'pop'` as one bare dict (`rossumoya.py:245-249`). `cell.add_population` iterates over it as a list (`cell.py:64-65`), so it would index the string key `'species'` and raise `TypeError` even after the property read is corrected. AddOffspring and Rossumoya.Island.Newborn wrap the entry in a one-element list instead.
- Rossumoya.Island.MigrationWith: the decision `migrates` is a fixed predicate on animals, not a fresh `prob_migration()` draw at each visit. Because `moved` stands for `has_migrated`, only an animal's first visit can move it, so what is lost is only the consumption of random numbers. Which draw outcome means migration is left to `migrates`.
- Rossumoya.Island.MigrateOne: the destination is stated per move, as `Chosen` of the island at that moment, because the propensities depend on the animals already moved. Rossumoya.Island.MigrationWith states which animals move (`Leavers`) but does not restate each destination over the whole pass.
- Rossumoya.Island.MigrationWith: the source's `for` loops over the cells and over a cell's animals are modelled as recursion (`MigrationOver`, `SendFrom`), as are the loops of `add_population` (`PlaceFrom`) and `death` (`DeathFrom`).
- Rossumoya.Island.MigrationAsWritten: the `AttributeError` that reading `animal.has_migrated` raises as written is stated in prose only. The member takes `has_migrated` as the parameter `hasMigrated` and states the `TypeError` that follows from it.
- Rossumoya.Island.constructor: it models only the map branch that builds the geography (`rossumoya.py:138-144`). It takes the built geography as an argument, and `CheckMapInput` and `MakeGeography` model the check and the build separately. The default map for a missing `island_map`, the placement of `ini_pop` or of the default herbivores and carnivores (modelled by `AddPopulation`), and the four `set_parameters()` resets (`rossumoya.py:155-158`) are not part of the constructor.
- Rossumoya.Island.ProcreationAt: it requires the cell's list to be free of duplicates, which every cell of a valid island is.
- A parameter dictionary passed as `**params` is a full parameter table: a key left out takes its keyword default. `animal.py`'s setters take `*args, **kwargs` and silently ignore an unknown key, which the table cannot express. The terrain setters of `cell.py` take no `**kwargs`, so an unknown key raises `TypeError`; only the case of `alpha` given to Jungle is modelled.
- Simulation.BioSim.SetLandscapeParameters: an explicit `None` value and a missing key are the same `None` in `LandscapeParams`, and both take the keyword default. In Python an explicit `f_max=None` reaches `BaseCell.set_parameters` and stores 0 (`cell.py:26-27`); that case is not distinguished.
- Simulation.Coordinates: each entry keeps only the terrain. The source's `BioSim.cell_code[cell]()` builds a cell whose `__init__` calls `set_parameters()` (`cell.py:46`) and so resets its class's f_max (and the savannah's alpha) to the defaults. That reset is not modelled in `simulation.py`'s layout; `Rossumoya.NewCell` models it for the island.
- The stub methods of `simulation.py` (lines 157-209 other than `add_population`: `simulate`, `animal_distribution`, `num_animals`, the plotting and movie hooks) have empty bodies or only `pass`, and are left out.
- `MountainAndOcean` is imported by `rossumoya.py:10` and `simulation.py:6` but defined nowhere (`cell.py` has the separate classes `Mountain`, line 326, and `Ocean`, line 368). As written, both imports raise `ImportError`, so neither module can be imported and no `Island` or `BioSim` object ever exists. Every `Rossumoya` and `Simulation` member models a repaired module whose code table maps 'O' to `Ocean` and 'M' to `Mountain`.
- Rossumoya.ChooseCell: it models the intended choice. As written, line 286 raises `ValueError` even after the unpacking is repaired: `np.random.choice` needs a one-dimensional population and gets four 2-tuples, and the line-81 probabilities do not sum to 1. The model draws an index into the neighbour list and returns that neighbour.
- In `simulation.py`, animals are kept as (age, weight) pairs per cell and species. This is the dictionary shape that `add_population` writes.
- In `simulation.py`, the `total pop` counter is never updated, and it is not modelled.
- LegacyAnimals.LegacyAnimal.constructor: an explicit `age=None` is treated like a missing age (age 0).
- `animals.py`'s `migration` has an empty body, and it is not modelled.
- LegacyAnimals.LegacySpecies.Attribute: the `AttributeError` carries only the attribute name, not Python's full message.
- `visualization.py`, `my_random.py` and the demo scripts are not part of this model.

## Findings

| source | as written | input that shows it | evidently intended | confidence | as-written member | corrected member |
|---|---|---|---|---|---|---|
| BioSim_G21_Julie_Marisha/src/biosim/rossumoya.py:296 | `if animal.prob_death:` tests the bound method, which is always truthy | any cell with a living animal: every animal is removed | call the death draw and remove the animals whose draw is the death outcome (0, under this model's draw convention) | high (not executed) | Rossumoya.Island.Death | Rossumoya.Island.DeathWith |
| BioSim_G21_Julie_Marisha/src/biosim/rossumoya.py:81 | `p = prop / sum_propensities * prop` | propensities 1, 1, 2, 0 give probabilities summing to 1.5 | `p = prop / sum_propensities`, a distribution summing to 1 | high (not executed) | Rossumoya.AsWrittenNotDistribution | Rossumoya.NormalisedIsDistribution |
| BioSim_G21_Julie_Marisha/src/biosim/rossumoya.py:283-286 | unpacks the calculator object itself into `locations, probabilities`; and even past that, line 286 passes `np.random.choice` the list of four `(x, y)` tuples, which is not one-dimensional, together with the line-81 probabilities, which do not sum to 1, so it raises `ValueError` on either count | any call of `choose_cell` raises `TypeError` | call `.probability()`, draw an index into the four neighbours with the normalised shares, and return the neighbour at that index | high (not executed) | Rossumoya.ChooseCellNeverChooses | Rossumoya.ChooseCell |
| BioSim_G21_Julie_Marisha/src/biosim/rossumoya.py:264 | `if animal.prob_migration and not animal.has_migrated:` tests the bound method, which is always truthy, then reads `has_migrated`, which no class defines | as written, the first animal in a passable cell raises `AttributeError`; with `has_migrated` supplied (the parameter `hasMigrated`), one animal in a passable cell that has not migrated reaches the broken `choose_cell` and the pass raises `TypeError` | call the migration draw and move migrants to an adjacent passable cell | high (not executed) | Rossumoya.Island.MigrationAsWritten | Rossumoya.Island.MigrationWith |
| BioSim_G21_Julie_Marisha/src/biosim/rossumoya.py:244 | `animal.draw_birth_weight()` calls the float returned by a property | the first mother whose draw is 1 makes the pass raise `TypeError` | read the property, add the newborn and reduce the mother's weight | high (not executed) | Rossumoya.Island.ProcreationAsWritten | Rossumoya.Island.ProcreationWith |
| BioSim_G21_Julie_Marisha/src/biosim/landscape.py:30-43 | each attribute is assigned only when its argument is None | `Landscape(f_sav_max=250.0)` has no `f_sav_max`, so `fodder_first_year` raises `AttributeError` | store the given value or the default | high (not executed) | Landscape.DroppedSavannahMaximum | Landscape.FirstYearPasses |
| BioSim_G21_Julie_Marisha/src/biosim/animals.py:266-269 | a positive `delta_phi_max` is checked but 10.0 is stored | `delta_phi_max=5.0` stores 10.0 | store the given value, as `animal.py` does | medium (not executed) | LegacyAnimals.DeltaPhiMaxIgnored | Animal.SpeciesParams.SetCarnivoreParameters |
