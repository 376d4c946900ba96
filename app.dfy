/** The interactive search session: the eligible pool of a region, the start and stop
    controls, and the per-generation step that tracks the best team ever found, the history
    of scores and the generation counter. */
module App {
  import opened Database
  import opened Scoring
  import opened Operators
  import opened Evolution

  /** The generation a record counts towards; a record without one counts as generation 99. */
  function GenerationOf(p: Pokemon): int
  {
    match p.generationId
    case Some(g) => g
    case None => 99
  }

  /** The names of the list, in order, whose records are of generation targetGenId or older. */
  function EligibleNames(db: Db, names: seq<string>, targetGenId: int): (pool: seq<string>)
    requires forall n :: n in names ==> n in db.pokemons
    ensures forall n :: n in pool <==> n in names && GenerationOf(db.pokemons[n]) <= targetGenId
    ensures Distinct(names) ==> Distinct(pool)
  {
    if |names| == 0 then []
    else
      var rest := EligibleNames(db, names[..|names| - 1], targetGenId);
      var name := names[|names| - 1];
      if GenerationOf(db.pokemons[name]) <= targetGenId then
        assert Distinct(names) ==> name !in names[..|names| - 1];
        rest + [name]
      else rest
  }

  /** The pool of a region: every name of the database whose generation is at most the
      region's, each once, in the database's order. */
  function EligiblePool(db: Db, targetGenId: int): (pool: seq<string>)
    requires WellFormed(db)
    ensures forall n :: n in pool <==> n in db.pokemons && GenerationOf(db.pokemons[n]) <= targetGenId
    ensures Distinct(pool)
  {
    EligibleNames(db, db.names, targetGenId)
  }

  /** A record without a generation stays out of the pool of every region before generation 99. */
  lemma MissingGenerationExcluded(db: Db, targetGenId: int, name: string)
    requires WellFormed(db) && name in db.pokemons && db.pokemons[name].generationId.None?
    requires targetGenId < 99
    ensures name !in EligiblePool(db, targetGenId)
  {
  }

  /** The initial population: populationSize new individuals, individual i drawn by tape i. */
  function InitialPopulation(pool: seq<string>, populationSize: nat, samples: nat -> (nat -> nat)): (population: seq<seq<string>>)
    requires |pool| >= TeamSize
    ensures |population| == populationSize
  {
    seq(populationSize, i requires 0 <= i < populationSize => CreateIndividual(pool, samples(i)).value)
  }

  /** From a pool without repeats every initial individual is a team of pool members. */
  lemma InitialPopulationRosters(pool: seq<string>, populationSize: nat, samples: nat -> (nat -> nat))
    requires |pool| >= TeamSize && Distinct(pool)
    ensures forall i :: 0 <= i < populationSize ==> IsRoster(InitialPopulation(pool, populationSize, samples)[i])
    ensures forall i, x :: 0 <= i < populationSize && x in InitialPopulation(pool, populationSize, samples)[i] ==> x in pool
  {
    forall i | 0 <= i < populationSize
      ensures IsRoster(InitialPopulation(pool, populationSize, samples)[i])
      ensures forall x :: x in InitialPopulation(pool, populationSize, samples)[i] ==> x in pool
    {
      CreateIndividualIsRoster(pool, samples(i));
    }
  }

  /** One line of the fitness history: the generation, the best score ever after it, and the
      sum and count of that generation's scores (their average is the one over the other). */
  datatype HistoryRecord = HistoryRecord(generation: nat, bestFitness: int, scoreSum: int, scoreCount: nat)

  class Session {
    var running: bool
    var bestTeam: Option<seq<string>>
    /** The best score ever; None stands for minus infinity. */
    var bestFitness: Option<int>
    var fitnessHistory: seq<HistoryRecord>
    var generationCount: nat
    var population: seq<seq<string>>

    /** The session invariant: one history line per generation, numbered from 1, whose best
        scores never decrease and end at the best score ever, which is recorded together with
        its team; every individual is a team. */
    ghost predicate Valid()
      reads this
    {
      |fitnessHistory| == generationCount
      && (forall i :: 0 <= i < |fitnessHistory| ==> fitnessHistory[i].generation == i + 1)
      && (forall i, j :: 0 <= i < j < |fitnessHistory| ==> fitnessHistory[i].bestFitness <= fitnessHistory[j].bestFitness)
      && (bestFitness.Some? <==> bestTeam.Some?)
      && (bestFitness.None? <==> |fitnessHistory| == 0)
      && (|fitnessHistory| > 0 ==> bestFitness == Some(fitnessHistory[|fitnessHistory| - 1].bestFitness))
      && (bestTeam.Some? ==> IsRoster(bestTeam.value))
      && (forall i :: 0 <= i < |population| ==> IsRoster(population[i]))
    }

    /** The session as first opened: not running, no best team, no history. */
    constructor ()
      ensures Valid()
      ensures !running && bestTeam == None && bestFitness == None
      ensures fitnessHistory == [] && generationCount == 0 && population == []
    {
      running := false;
      bestTeam := None;
      bestFitness := None;
      fitnessHistory := [];
      generationCount := 0;
      population := [];
    }

    /** Start: running, and the best team, best score, history and counter reset. The old
        population stays until the next preparation replaces it. */
    method Start()
      requires Valid()
      modifies this
      ensures Valid()
      ensures running && bestTeam == None && bestFitness == None
      ensures fitnessHistory == [] && generationCount == 0
      ensures population == old(population)
    {
      running := true;
      bestTeam := None;
      bestFitness := None;
      fitnessHistory := [];
      generationCount := 0;
    }

    /** Stop: not running; everything found so far is kept. */
    method Stop()
      requires Valid()
      modifies this
      ensures Valid()
      ensures !running
      ensures bestTeam == old(bestTeam) && bestFitness == old(bestFitness)
      ensures fitnessHistory == old(fitnessHistory) && generationCount == old(generationCount)
      ensures population == old(population)
    {
      running := false;
    }

    /** Before the generations run: build the region's pool; with fewer than six names stop
        running and report the error before any population is made; otherwise, on the first
        generation, create the initial population. */
    method Prepare(db: Db, targetGenId: int, populationSize: nat, samples: nat -> (nat -> nat))
      returns (result: Result<seq<string>>)
      requires Valid() && running && WellFormed(db)
      modifies this
      ensures Valid()
      ensures result.Err? <==> |EligiblePool(db, targetGenId)| < TeamSize
      ensures result.Err? ==> !running && population == old(population)
      ensures result.Ok? ==> running && result.value == EligiblePool(db, targetGenId)
      ensures result.Ok? && old(generationCount) == 0 ==> population == InitialPopulation(result.value, populationSize, samples)
      ensures result.Ok? && old(generationCount) != 0 ==> population == old(population)
      ensures bestTeam == old(bestTeam) && bestFitness == old(bestFitness)
      ensures fitnessHistory == old(fitnessHistory) && generationCount == old(generationCount)
    {
      var pokemonPoolNames := EligiblePool(db, targetGenId);
      if |pokemonPoolNames| < TeamSize {
        running := false;
        return Err(InsufficientPool);
      }
      if generationCount == 0 {
        InitialPopulationRosters(pokemonPoolNames, populationSize, samples);
        population := InitialPopulation(pokemonPoolNames, populationSize, samples);
      }
      result := Ok(pokemonPoolNames);
    }

    /** The bookkeeping of one generation with these scores: count it, take a strictly better
        generation best (with the first individual reaching it) as the best ever, and append
        the history line. */
    method RecordGeneration(fitnessScores: seq<int>)
      requires Valid() && |fitnessScores| == |population| > 0
      modifies this
      ensures Valid()
      ensures running == old(running) && population == old(population)
      ensures generationCount == old(generationCount) + 1
      ensures var genBest := MaxOf(fitnessScores);
              if old(bestFitness).None? || genBest > old(bestFitness).value
              then bestFitness == Some(genBest) && bestTeam == Some(population[FirstIndex(fitnessScores, genBest)])
              else bestFitness == old(bestFitness) && bestTeam == old(bestTeam)
      ensures old(bestFitness).Some? ==> bestFitness.Some? && old(bestFitness).value <= bestFitness.value
      ensures fitnessHistory == old(fitnessHistory) + [HistoryRecord(generationCount, bestFitness.value, Sum(fitnessScores), |fitnessScores|)]
    {
      generationCount := generationCount + 1;

      var bestGenFitness := MaxOf(fitnessScores);
      if bestFitness.None? || bestGenFitness > bestFitness.value {
        bestFitness := Some(bestGenFitness);
        var bestGenIdx := FirstIndex(fitnessScores, bestGenFitness);
        bestTeam := Some(population[bestGenIdx]);
      }

      ghost var history := fitnessHistory;
      fitnessHistory := fitnessHistory + [HistoryRecord(generationCount, bestFitness.value, Sum(fitnessScores), |fitnessScores|)];
      assert forall i :: 0 <= i < |history| ==> history[i].bestFitness <= bestFitness.value;
    }

    /** One generation: score the population, record the generation, and replace the
        population by the elite and children up to populationSize. */
    method Step(db: Db, gymLeaders: seq<GymLeader>, pokemonPoolNames: seq<string>, populationSize: nat,
                elitismCount: int, breed: nat -> Breeding)
      requires Valid() && |population| > 0
      modifies this
      ensures Valid()
      ensures running == old(running)
      ensures generationCount == old(generationCount) + 1
      ensures var scores := Scores(db, old(population), gymLeaders);
              var genBest := MaxOf(scores);
              if old(bestFitness).None? || genBest > old(bestFitness).value
              then bestFitness == Some(genBest) && bestTeam == Some(old(population)[FirstIndex(scores, genBest)])
              else bestFitness == old(bestFitness) && bestTeam == old(bestTeam)
      ensures old(bestFitness).Some? ==> bestFitness.Some? && old(bestFitness).value <= bestFitness.value
      ensures var scores := Scores(db, old(population), gymLeaders);
              fitnessHistory == old(fitnessHistory) + [HistoryRecord(generationCount, bestFitness.value, Sum(scores), |scores|)]
      ensures IsNextGeneration(SortedPopulation(old(population), Scores(db, old(population), gymLeaders)),
                               elitismCount, populationSize, pokemonPoolNames, breed, population)
    {
      var fitnessScores := ScorePopulation(db, population, gymLeaders);
      assert fitnessScores == Scores(db, population, gymLeaders);
      RecordGeneration(fitnessScores);

      var sortedPopulation := SortedPopulation(population, fitnessScores);
      SortedRosters(population, fitnessScores);
      var newPopulation := NextGeneration(sortedPopulation, elitismCount, populationSize, pokemonPoolNames, breed);
      population := newPopulation;
    }
  }
}
