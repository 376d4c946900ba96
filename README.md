# Pokémon team optimiser: the genetic search, in Dafny

This project models the genetic algorithm that searches for a six-member Pokémon team scoring best
on type matchups against the gym-leader lineups of a region, together with the session bookkeeping
of the interactive app that runs it generation after generation.

- `database.dfy` (module `Database`): the local database as the search reads it (Pokémon name →
  types and optional generation; type → the three damage-relation lists), gym leaders and their
  lineups, teams (`IsRoster`: six pairwise distinct names) and the error of an undersized pool.
- `fitness.dfy` (module `Scoring`): the fitness function. Specification functions (`Delta`,
  `RelSum`, `Matchup`, `BestMatchup`, `LineupScore`, `Fitness`), the loop implementations
  `MatchupScore` and `CalculateFitness` proved equal to them, and the properties of the score.
- `operators.dfy` (module `Operators`): creating an individual, crossover, and mutation. Mutation
  comes twice: as written, and in a corrected form (see Findings).
- `evolution.dfy` (module `Evolution`): one generation: scoring, a stable descending ranking,
  elitism, and breeding the rest of the population.
- `app.dfy` (module `App`): the region's eligible pool, the initial population, and the class
  `Session` holding the app's session state (`running`, best team, best fitness, history,
  generation counter, population) with its start, stop, prepare and step operations.

Randomness is passed in as parameters:
- `random.sample(pool, 6)` reads a tape `nat -> nat`. Each draw picks one of the positions not
  taken yet.
- `random.randint(1, 5)` is a value of the subset type `Cut`.
- `random.randint(0, 5)` is a value of the subset type `Gene`.
- `random.random() < mutation_rate` is a boolean `fire`.
- `random.choices(sorted_population, k=2)` gives two ranks, each reduced modulo the population size.
- The `random.choice(pool)` resampling loop reads a tape `nat -> nat`.
- Every child of a generation takes its choices from a `Breeding` value, indexed by its child number.

The leader map `gym_leaders` is modelled by its sequence of items. The database's Pokémon map is
a Dafny `map` plus the sequence of its names in iteration order (`WellFormed`). The pool is built in
that order.

Details of the code the model keeps exactly:
- Mutation checks the new name against the whole team, including the position it overwrites, so
  the new name always differs from the old one.
- The pool check and the creation of the initial population run before every generation loop,
  not only at start. A population is created only when the generation counter is 0.
- Start does not clear the population.
- The sentinel −10 is replaced only by a strictly larger matchup. So a best matchup is the larger
  of −10 and the known members' matchups. With at most two types per Pokémon the sentinel
  always loses once some team member is in the database (`SentinelReplaced`).
  When no team member is in the database, the −10 stays (`UnknownTeam`).
- Crossover cuts the child to six entries and never pads it. Two teams as parents always give a
  full team (`CrossoverOfRosters`).

## Model

| member | source | states |
|---|---|---|
| `Scoring.Delta` | genetic_algorithm.py:28-34 | the per-type-pair score lies in [−2, 2]; it is +2 exactly when the leader type is in `double_damage_to`; −1 exactly when it is not there but in `half_damage_to`; −2 exactly when it is in neither of those but in `no_damage_to`; and 0 exactly when it is in none of the three lists |
| `Scoring.BestMatchup` | genetic_algorithm.py:15-37 | the best matchup is at least −10 and at least every known team member's matchup, and is either −10 or the matchup of some known member: the maximum over the known members, with unknown members skipped |
| `Scoring.MatchupScore` | genetic_algorithm.py:22-34 | the two nested loops accumulating +2 / −1 / −2 over team types × leader types compute `Matchup`; team types missing from the type table add nothing |
| `Scoring.CalculateFitness` | genetic_algorithm.py:4-40 | the loops over leaders, lineup entries and team members compute `Fitness`: every known leader occurrence adds its best matchup, unknown ones are skipped |
| `Scoring.FitnessIsOccurrenceSum` | genetic_algorithm.py:6-12 | the fitness is one sum over every occurrence of every lineup, repeats counted each time; no leaders give 0 |
| `Scoring.UnknownLeaderPokemonIgnored` | genetic_algorithm.py:10-12 | a leader Pokémon missing from the database adds nothing wherever it appears in a lineup |
| `Scoring.LineupScorePermutation` | genetic_algorithm.py:9-39 | two lineups with the same names, the same number of times each, score the same |
| `Scoring.FitnessOrderFree` | genetic_algorithm.py:8-39 | reordering leaders or lineup entries keeps the fitness, as long as the multiset of occurrences is the same |
| `Scoring.BestMatchupMonotone` | genetic_algorithm.py:17-37 | a team whose members all belong to a second team never has a larger best matchup |
| `Scoring.BestMatchupOrderFree` | genetic_algorithm.py:17-37 | the best matchup depends only on which names are on the team, not their order |
| `Scoring.FitnessMonotone` | genetic_algorithm.py:15-39 | adding team members never lowers the fitness |
| `Scoring.FitnessTeamOrderFree` | genetic_algorithm.py:15-39 | the fitness does not depend on the order of the team |
| `Scoring.MatchupBound` | genetic_algorithm.py:25-34 | a matchup lies within ±2 × (number of team types) × (number of leader types) |
| `Scoring.TwoTypeMatchupBound` | genetic_algorithm.py:25-34 | with at most two types on each side a matchup lies in [−8, 8] |
| `Scoring.SentinelReplaced` | genetic_algorithm.py:15-37 | when every Pokémon has at most two types and some team member is known, the −10 start is always replaced: the best matchup is above −10 and equals some known member's matchup |
| `Scoring.FireAgainstGrass` | genetic_algorithm.py:4-40 | example: a fire team member against a single grass leader Pokémon, fire doubling against grass, scores exactly +2 |
| `Scoring.UnknownTeam` | genetic_algorithm.py:15-20 | a team with no member in the database answers every known leader occurrence with −10 |
| `Operators.Sample` | genetic_algorithm.py:42-44 | sampling k entries gives k entries taken at distinct positions of the pool: its multiset is contained in the pool's |
| `Operators.CreateIndividual` | genetic_algorithm.py:42-44 | fails exactly when the pool has fewer than six entries; otherwise returns six entries taken at distinct positions of the pool |
| `Operators.CreateIndividualIsRoster` | genetic_algorithm.py:42-44 | from a pool without repeats and of at least six names, a new individual is six pairwise distinct pool names |
| `Operators.SixPoolSoleTeam` | genetic_algorithm.py:42-44 | from a pool of exactly six, every new individual holds the whole pool in some order |
| `Operators.Without` | genetic_algorithm.py:50 | the filtered list holds exactly the entries of parent2 that are not in the prefix, and has no repeats when parent2 has none; that it keeps them in parent2's order is stated by `WithoutAppend` and `WithoutSingleton` |
| `Operators.WithoutAppend` | genetic_algorithm.py:50 | filtering a concatenation filters each part and concatenates the results, so the kept entries stay in parent2's order |
| `Operators.WithoutSingleton` | genetic_algorithm.py:50 | a single entry is kept exactly when it is not in the prefix; with `WithoutAppend` this fixes the filter to be the order-keeping one of the comprehension |
| `Operators.WithoutLength` | genetic_algorithm.py:50-52 | filtering a list without repeats removes at most as many entries as there are names excluded |
| `Operators.Crossover` | genetic_algorithm.py:46-52 | the child has at most six entries; it starts with `parent1[:point]`; every entry comes from a parent, and every entry after the prefix is a name of parent2 that is not in the prefix; after the prefix come the first entries of the filtered parent2, in parent2's order, as many as fit in six, so the child's length is `min(6, prefix + filtered)`; no repeats when neither parent has any; exactly six entries when parent1 reaches the cut and parent2 is six distinct names |
| `Operators.CrossoverDisjoint` | genetic_algorithm.py:46-52 | when parent2 shares no name with `parent1[:point]`, the child is exactly `parent1[:point]` followed by the first `6 − point` entries of parent2, in parent2's order |
| `Operators.CrossoverOfRosters` | genetic_algorithm.py:46-52 | two teams as parents give a team whose first `point` entries are parent1's |
| `Operators.Mutate` | genetic_algorithm.py:54-62 | when mutation does not fire the individual is unchanged; when it fires, position `gene` alone is overwritten in place by the first draw that is not in the individual, so the new name is from the pool and was not on the team, and distinctness is kept; the loop ends only for a tape with such a draw |
| `Operators.EscapeIffOutsider` | genetic_algorithm.py:58-60 | some draw tape ends the resampling loop exactly when the pool has a name outside the individual |
| `Operators.SixPoolMutationHangs` | genetic_algorithm.py:58-60 | with a pool of exactly six, a new individual exists, and no draw of any tape leaves the resampling loop |
| `Operators.CrossoverChildMutationHangs` | genetic_algorithm.py:76-78 | with a pool of exactly six distinct names, the crossover child of two teams of pool names holds every pool name, so no draw of any tape leaves the resampling loop of the mutation applied to it |
| `Operators.Mutated` | genetic_algorithm.py:54-62 | corrected mutation: length kept; positions other than `gene` unchanged; unchanged exactly when it does not fire or no pool name is outside the team; otherwise the new name is a pool name not on the team; distinctness kept |
| `Operators.MutatedCoversMutate` | genetic_algorithm.py:58-61 | every team the resampling loop can produce is one the corrected mutation produces for some draw |
| `Operators.MutateCoversMutated` | genetic_algorithm.py:58-61 | conversely, every change the corrected mutation makes is the team the resampling loop ends on for some tape, at its first escaping draw |
| `Operators.MutateFixed` | genetic_algorithm.py:54-62 | the in-place corrected mutation leaves the array equal to `Mutated` of its old contents |
| `Evolution.ScorePopulation` | genetic_algorithm.py:67 | one score per individual, in order, each its fitness |
| `Evolution.MaxOf` | genetic_algorithm.py:81 | the result is one of the scores and at least every score |
| `Evolution.FirstIndex` | app.py:247 | the position of the first occurrence of the value |
| `Evolution.Ranking` | genetic_algorithm.py:71 | the stable descending sort: every index exactly once, higher score first, ties in population order |
| `Evolution.TopRankedIsFirstBest` | genetic_algorithm.py:71-83 | the first ranked individual is the first one in population order with the maximum score, so `sorted_population[0]` is the team the app records at app.py:247-248 |
| `Evolution.ElitesAreBest` | genetic_algorithm.py:71-72 | each of the first k ranked scores at least as high as every individual ranked after them |
| `Evolution.SortedRosters` | genetic_algorithm.py:71 | sorting a population of teams gives teams |
| `Evolution.ElitesCount` | genetic_algorithm.py:72 | the slice `[:elitism_count]` keeps `min(elitism_count, n)` for a non-negative count, and never more than n |
| `Evolution.Child` | genetic_algorithm.py:76-78 | a child of two teams is a team whose names come from its parents or the pool |
| `Evolution.BreedChild` | genetic_algorithm.py:76-78 | crossover, then in-place mutation of the fresh child, gives `Child` |
| `Evolution.NextGeneration` | genetic_algorithm.py:70-79 | the new population is the elite of the sorted population, unchanged, then children up to the target size, each from its own choices; every member is a team |
| `Evolution.EvolvePopulation` | genetic_algorithm.py:64-83 | for a non-empty population of teams: the new population has the same size, starts with the unchanged elite and holds only teams; the best score is the maximum fitness, and the returned individual is the first with that score |
| `App.EligibleNames` | app.py:224-227 | the names kept are exactly those whose generation is at most the target; no repeats when the list has none |
| `App.EligiblePool` | app.py:224-227 | the pool holds exactly the database names whose generation (99 when missing) is at most the region's, each once |
| `App.MissingGenerationExcluded` | app.py:226 | a record without a generation is left out of every region's pool below generation 99 |
| `App.InitialPopulation` | app.py:236 | the initial population has `population_size` individuals |
| `App.InitialPopulationRosters` | app.py:236 | from a pool without repeats, every initial individual is a team of pool names |
| `App.Session.constructor` | app.py:167-176 | the first session: not running, no best team, best fitness minus infinity, empty history, counter 0 |
| `App.Session.Start` | app.py:191-196 | start: running; best team none, best fitness minus infinity, history empty, counter 0; population untouched |
| `App.Session.Stop` | app.py:200-201 | stop: not running; everything else is kept |
| `App.Session.Prepare` | app.py:223-236 | fails, stopping the run with the population untouched, exactly when the pool has fewer than six names; otherwise the pool is returned and, only when the counter is 0, the initial population is created |
| `App.Session.RecordGeneration` | app.py:240-254 | the counter grows by one; the best fitness and team change only on a strictly larger generation best, and then the team is the first individual reaching it; the best fitness never decreases; exactly one history line is appended, holding the new best and the sum and count of the scores |
| `App.Session.Step` | app.py:239-267 | one generation: the bookkeeping above on the population's scores, and the population replaced by the elite of the stable sort followed by children up to `population_size`; the session invariant (history numbered 1..n, its best values non-decreasing and ending at the best fitness) is kept |

## Findings

| source | as written | input that shows it | evidently intended | confidence | as-written member | corrected member |
|---|---|---|---|---|---|---|
| genetic_algorithm.py:58-60 | the mutation redraws from the whole pool until it draws a name not on the team; nothing bounds the loop | a pool of exactly six names, which passes the guard at app.py:228; every team then holds all six, and so does every crossover child of two of them, so once the mutation of a child fires no draw ever leaves the loop (`Operators.SixPoolMutationHangs`, `Operators.CrossoverChildMutationHangs`) | pick the replacement among the pool names not on the team, and leave the team unchanged when there is none | high; not executed | `Operators.Mutate` | `Operators.MutateFixed` |

The rest of the model, `Evolution.NextGeneration` and so `EvolvePopulation` and `Session.Step`, uses
the corrected mutation. `Operators.MutatedCoversMutate`, `Operators.MutateCoversMutated` and `Operators.EscapeIffOutsider`
show it chooses among the same names the loop can end on, and that the loop can end exactly when the
corrected form changes the team.

## Left out

- Fetching from PokeAPI, reading and writing the JSON cache, and loading the database are I/O. The database is a parameter.
- The Streamlit interface is left out: widgets, buttons, reruns, `st.stop`, placeholders, sprites, the chart and `time.sleep`.
- Session.Step covers one turn of the `while running` loop. Clicking Stop ends that loop at a generation boundary through a rerun, which is modelled by `Session.Stop`.
- Probabilities are not modelled. The uniformity of `sample`, `randint`, `choice` and `choices` is dropped, and the mutation rate becomes the boolean `fire`.
- Operators.Sample: takes any six distinct positions the tape selects. It does not follow CPython's own sampling algorithm, so the same seed does not give the same team.
- The history average is a float division. The model keeps the sum and the count.
- The minus-infinity start of the best fitness is `None`.
- The truthiness tests `if not leader_pokemon` and `if relations` become map membership, because a stored record is never an empty dict.
- The damage-relation lists of `{name, url}` dicts become lists of type names.
- app.py:104-159 holds code identical to the genetic_algorithm.py functions, so they are modelled once, by the `Scoring` and `Operators` members.
- Evolution.Child, Evolution.BreedChild, Evolution.NextGeneration, Evolution.EvolvePopulation, App.Session.Step: they mutate children with the corrected mutation, not the unbounded resampling loop (see Findings).
- Evolution.EvolvePopulation, App.Session.Step: they require a non-empty population, because `max` of an empty score list raises. They also require a population made of teams, as every population the app builds is.
- Operators.Mutate: requires the position to exist in the list, because `individual[gene]` raises otherwise. This cannot happen for the six-name children of two teams.
- The best team is held as a value. In the app it is the same list object as a population member, but no population list is changed after it is created, so the sharing cannot be observed.
- App.Session.Step: scores the population before it increments the counter, which the app does in the other order. Scoring does not read the counter, so the result is the same.
