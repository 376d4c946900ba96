/** One generation of the search: score every individual, rank them by a stable descending
    sort on the score, copy the elite, and breed the rest by crossover then mutation. */
module Evolution {
  import opened Database
  import opened Scoring
  import opened Operators

  /** The random choices behind one child: the ranks of its two parents (reduced modulo the
      population size), the cut point, whether the mutation fires, the mutated position and
      the draw among the mutation's candidates. */
  datatype Breeding = Breeding(parent1: nat, parent2: nat, point: Cut, fire: bool, gene: Gene, draw: nat)

  function Sum(s: seq<int>): int
  {
    if |s| == 0 then 0 else Sum(s[..|s| - 1]) + s[|s| - 1]
  }

  /** The largest score. */
  function MaxOf(s: seq<int>): (m: int)
    requires |s| > 0
    ensures m in s
    ensures forall i :: 0 <= i < |s| ==> s[i] <= m
  {
    if |s| == 1 then s[0]
    else
      var m := MaxOf(s[..|s| - 1]);
      assert forall i :: 0 <= i < |s| - 1 ==> s[..|s| - 1][i] == s[i];
      if s[|s| - 1] > m then s[|s| - 1] else m
  }

  /** The position of the first occurrence of x. */
  function FirstIndex(s: seq<int>, x: int): (i: nat)
    requires x in s
    ensures i < |s| && s[i] == x
    ensures forall j :: 0 <= j < i ==> s[j] != x
  {
    if s[0] == x then 0 else 1 + FirstIndex(s[1..], x)
  }

  /** The fitness of every individual, in population order. */
  function Scores(db: Db, population: seq<seq<string>>, gymLeaders: seq<GymLeader>): seq<int>
  {
    seq(|population|, i requires 0 <= i < |population| => Fitness(db, population[i], gymLeaders))
  }

  /** The scores of a population, by a loop computing one fitness after another. */
  method ScorePopulation(db: Db, population: seq<seq<string>>, gymLeaders: seq<GymLeader>) returns (fitnessScores: seq<int>)
    ensures |fitnessScores| == |population|
    ensures forall i :: 0 <= i < |population| ==> fitnessScores[i] == Fitness(db, population[i], gymLeaders)
  {
    fitnessScores := [];
    for i := 0 to |population|
      invariant |fitnessScores| == i
      invariant forall j :: 0 <= j < i ==> fitnessScores[j] == Fitness(db, population[j], gymLeaders)
    {
      var score := CalculateFitness(population[i], gymLeaders, db);
      fitnessScores := fitnessScores + [score];
    }
  }

  // ---------------------------------------------------------------------------------------
  // Ranking: a stable sort of the population by descending score

  /** Individual a is ranked before individual b: a higher score, or the same score and an
      earlier position in the population. */
  predicate RanksBefore(scores: seq<int>, a: nat, b: nat)
    requires a < |scores| && b < |scores|
  {
    scores[a] > scores[b] || (scores[a] == scores[b] && a < b)
  }

  predicate Ordered(scores: seq<int>, r: seq<nat>)
  {
    (forall i :: 0 <= i < |r| ==> r[i] < |scores|)
    && forall i, j :: 0 <= i < j < |r| ==> RanksBefore(scores, r[i], r[j])
  }

  /** Put index x, larger than every index of r, after every index whose score is at least
      its own. */
  function Insert(scores: seq<int>, x: nat, r: seq<nat>): (r': seq<nat>)
    requires x < |scores| && Ordered(scores, r)
    requires forall i :: 0 <= i < |r| ==> r[i] < x
    ensures |r'| == |r| + 1
    ensures forall y: nat :: y in r' <==> y == x || y in r
    ensures Ordered(scores, r')
  {
    if |r| == 0 then [x]
    else if scores[r[0]] >= scores[x] then
      var tail := Insert(scores, x, r[1..]);
      var res := [r[0]] + tail;
      assert forall j :: 0 < j < |res| ==> RanksBefore(scores, r[0], res[j]) by {
        forall j | 0 < j < |res| ensures RanksBefore(scores, r[0], res[j]) {
          assert res[j] in tail;
          if res[j] != x {
            var p :| 0 <= p < |r[1..]| && r[1..][p] == res[j];
            assert r[p + 1] == res[j];
          }
        }
      }
      res
    else
      assert forall j :: 0 <= j < |r| ==> scores[r[j]] <= scores[r[0]] by {
        forall j | 0 < j < |r| ensures scores[r[j]] <= scores[r[0]] {
          assert RanksBefore(scores, r[0], r[j]);
        }
      }
      [x] + r
  }

  /** The first n indices, ranked. */
  function RankPrefix(scores: seq<int>, n: nat): (r: seq<nat>)
    requires n <= |scores|
    ensures |r| == n
    ensures forall y: nat :: y in r <==> y < n
    ensures Ordered(scores, r)
  {
    if n == 0 then []
    else
      var prev := RankPrefix(scores, n - 1);
      assert forall i :: 0 <= i < |prev| ==> prev[i] in prev;
      Insert(scores, n - 1, prev)
  }

  /** The population's indices in the order of a stable descending sort by score: every
      index exactly once, higher scores first, ties in population order. */
  function Ranking(scores: seq<int>): (r: seq<nat>)
    ensures |r| == |scores|
    ensures forall y: nat :: y in r <==> y < |scores|
    ensures Ordered(scores, r)
  {
    RankPrefix(scores, |scores|)
  }

  function SortedPopulation(population: seq<seq<string>>, scores: seq<int>): (sorted: seq<seq<string>>)
    requires |scores| == |population|
    ensures |sorted| == |population|
  {
    var r := Ranking(scores);
    seq(|population|, i requires 0 <= i < |population| => population[r[i]])
  }

  /** Sorting a population of teams gives teams. */
  lemma SortedRosters(population: seq<seq<string>>, scores: seq<int>)
    requires |scores| == |population| && forall i :: 0 <= i < |population| ==> IsRoster(population[i])
    ensures forall i :: 0 <= i < |population| ==> IsRoster(SortedPopulation(population, scores)[i])
  {
    forall i | 0 <= i < |population| ensures IsRoster(SortedPopulation(population, scores)[i]) {
      assert Ranking(scores)[i] in Ranking(scores);
    }
  }

  /** Every index but the first ranked one is ranked after it. */
  lemma TopRanksFirst(scores: seq<int>, j: nat)
    requires j < |scores| && j != Ranking(scores)[0]
    ensures RanksBefore(scores, Ranking(scores)[0], j)
  {
    var r := Ranking(scores);
    assert j in r;
    var p :| 0 <= p < |r| && r[p] == j;
  }

  /** The first ranked individual is the first one, in population order, with the largest
      score: the choice the session makes when it records a new best team. */
  lemma TopRankedIsFirstBest(scores: seq<int>)
    requires |scores| > 0
    ensures Ranking(scores)[0] == FirstIndex(scores, MaxOf(scores))
  {
    var top := Ranking(scores)[0];
    var m := MaxOf(scores);
    var f := FirstIndex(scores, m);
    if f != top {
      TopRanksFirst(scores, f);
    }
  }

  /** The elite, the first k of the sorted population, scores at least as high as every
      individual left out of it. */
  lemma ElitesAreBest(scores: seq<int>, k: nat, i: nat, j: nat)
    requires k <= |scores| && i < k <= j < |scores|
    ensures scores[Ranking(scores)[i]] >= scores[Ranking(scores)[j]]
  {
    assert RanksBefore(scores, Ranking(scores)[i], Ranking(scores)[j]);
  }

  // ---------------------------------------------------------------------------------------
  // Breeding the next generation

  /** How many individuals the slice `sorted[:elitismCount]` keeps, negative counts included. */
  function ElitesCount(elitismCount: int, n: nat): (e: nat)
    ensures e <= n
    ensures 0 <= elitismCount ==> e == Min(elitismCount, n)
  {
    if elitismCount >= 0 then Min(elitismCount, n) else Max(0, n + elitismCount)
  }

  /** One child: crossover of the two chosen parents, then the corrected mutation. */
  function Child(sorted: seq<seq<string>>, pool: seq<string>, b: Breeding): (child: seq<string>)
    requires |sorted| > 0 && forall i :: 0 <= i < |sorted| ==> IsRoster(sorted[i])
    ensures IsRoster(child)
    ensures forall x :: x in child ==> x in sorted[b.parent1 % |sorted|] || x in sorted[b.parent2 % |sorted|] || x in pool
  {
    var parent1 := sorted[b.parent1 % |sorted|];
    var parent2 := sorted[b.parent2 % |sorted|];
    assert IsRoster(parent1) && IsRoster(parent2);
    var crossed := Crossover(parent1, parent2, b.point);
    var child := Mutated(crossed, pool, b.fire, b.gene, b.draw);
    assert forall x :: x in child ==> x in crossed || x in pool by {
      forall x | x in child ensures x in crossed || x in pool {
        var i :| 0 <= i < |child| && child[i] == x;
        if i != b.gene || child == crossed {
          assert child[i] == crossed[i];
        }
      }
    }
    child
  }

  /** The new population: the elite of the sorted population first, unchanged, then children
      until the target size is reached, child number c made from choice breed(c). */
  predicate IsNextGeneration(sorted: seq<seq<string>>, elitismCount: int, targetSize: nat, pool: seq<string>,
                             breed: nat -> Breeding, next: seq<seq<string>>)
    requires |sorted| > 0 && forall i :: 0 <= i < |sorted| ==> IsRoster(sorted[i])
  {
    var e := ElitesCount(elitismCount, |sorted|);
    |next| == Max(targetSize, e)
    && next[..e] == sorted[..e]
    && forall i :: e <= i < |next| ==> next[i] == Child(sorted, pool, breed(i - e))
  }

  /** One child, made as the loop body makes it: crossover of the chosen parents, then the
      corrected mutation applied in place to the fresh child. */
  method BreedChild(sortedPopulation: seq<seq<string>>, pool: seq<string>, b: Breeding) returns (child: seq<string>)
    requires |sortedPopulation| > 0 && forall i :: 0 <= i < |sortedPopulation| ==> IsRoster(sortedPopulation[i])
    ensures child == Child(sortedPopulation, pool, b)
  {
    var n := |sortedPopulation|;
    var parent1 := sortedPopulation[b.parent1 % n];
    var parent2 := sortedPopulation[b.parent2 % n];
    assert IsRoster(parent1) && IsRoster(parent2);
    var crossed := Crossover(parent1, parent2, b.point);
    var genes := new string[|crossed|](i requires 0 <= i < |crossed| => crossed[i]);
    assert genes[..] == crossed;
    MutateFixed(genes, pool, b.fire, b.gene, b.draw);
    child := genes[..];
  }

  /** Fill the new population: extend it with the elite, then append children while it is
      smaller than the target size. */
  method NextGeneration(sortedPopulation: seq<seq<string>>, elitismCount: int, targetSize: nat,
                        pool: seq<string>, breed: nat -> Breeding) returns (newPopulation: seq<seq<string>>)
    requires |sortedPopulation| > 0 && forall i :: 0 <= i < |sortedPopulation| ==> IsRoster(sortedPopulation[i])
    ensures IsNextGeneration(sortedPopulation, elitismCount, targetSize, pool, breed, newPopulation)
    ensures forall i :: 0 <= i < |newPopulation| ==> IsRoster(newPopulation[i])
  {
    var e := ElitesCount(elitismCount, |sortedPopulation|);
    newPopulation := sortedPopulation[..e];
    while |newPopulation| < targetSize
      invariant e <= |newPopulation| <= Max(targetSize, e)
      invariant newPopulation[..e] == sortedPopulation[..e]
      invariant forall i :: e <= i < |newPopulation| ==> newPopulation[i] == Child(sortedPopulation, pool, breed(i - e))
      decreases targetSize - |newPopulation|
    {
      var child := BreedChild(sortedPopulation, pool, breed(|newPopulation| - e));
      ChildExtends(sortedPopulation, e, pool, breed, newPopulation, child);
      newPopulation := newPopulation + [child];
    }
    GenerationRosters(sortedPopulation, e, pool, breed, newPopulation);
  }

  /** Appending the next child keeps the elite prefix and the children made so far. */
  lemma ChildExtends(sorted: seq<seq<string>>, e: nat, pool: seq<string>, breed: nat -> Breeding,
                     population: seq<seq<string>>, child: seq<string>)
    requires |sorted| > 0 && forall i :: 0 <= i < |sorted| ==> IsRoster(sorted[i])
    requires e <= |sorted| && e <= |population| && population[..e] == sorted[..e]
    requires forall i :: e <= i < |population| ==> population[i] == Child(sorted, pool, breed(i - e))
    requires child == Child(sorted, pool, breed(|population| - e))
    ensures (population + [child])[..e] == sorted[..e]
    ensures forall i :: e <= i < |population| + 1 ==> (population + [child])[i] == Child(sorted, pool, breed(i - e))
  {
    assert (population + [child])[..e] == population[..e];
  }

  /** The elite prefix of a population of teams, followed by children, holds only teams. */
  lemma GenerationRosters(sorted: seq<seq<string>>, e: nat, pool: seq<string>, breed: nat -> Breeding,
                          population: seq<seq<string>>)
    requires |sorted| > 0 && forall i :: 0 <= i < |sorted| ==> IsRoster(sorted[i])
    requires e <= |sorted| && e <= |population| && population[..e] == sorted[..e]
    requires forall i :: e <= i < |population| ==> population[i] == Child(sorted, pool, breed(i - e))
    ensures forall i :: 0 <= i < |population| ==> IsRoster(population[i])
  {
    forall i | 0 <= i < |population| ensures IsRoster(population[i]) {
      if i < e {
        assert population[i] == population[..e][i];
      }
    }
  }

  /** One generation: score, rank, keep the elite, breed the rest. Returns the new population
      (as large as the old one), this generation's best score and the first ranked individual,
      which has that score. */
  method EvolvePopulation(population: seq<seq<string>>, gymLeaders: seq<GymLeader>, db: Db, elitismCount: int,
                          pokemonPool: seq<string>, breed: nat -> Breeding)
    returns (newPopulation: seq<seq<string>>, bestFitnessCurrentGen: int, best: seq<string>)
    requires |population| > 0 && forall i :: 0 <= i < |population| ==> IsRoster(population[i])
    ensures |newPopulation| == |population|
    ensures forall i :: 0 <= i < |newPopulation| ==> IsRoster(newPopulation[i])
    ensures IsNextGeneration(SortedPopulation(population, Scores(db, population, gymLeaders)), elitismCount,
                             |population|, pokemonPool, breed, newPopulation)
    ensures bestFitnessCurrentGen == MaxOf(Scores(db, population, gymLeaders))
    ensures forall i :: 0 <= i < |population| ==> Fitness(db, population[i], gymLeaders) <= bestFitnessCurrentGen
    ensures best in population && Fitness(db, best, gymLeaders) == bestFitnessCurrentGen
    ensures best == population[FirstIndex(Scores(db, population, gymLeaders), bestFitnessCurrentGen)]
  {
    var fitnessScores := ScorePopulation(db, population, gymLeaders);
    assert fitnessScores == Scores(db, population, gymLeaders);
    var sortedPopulation := SortedPopulation(population, fitnessScores);
    SortedRosters(population, fitnessScores);
    newPopulation := NextGeneration(sortedPopulation, elitismCount, |population|, pokemonPool, breed);
    bestFitnessCurrentGen := MaxOf(fitnessScores);
    best := sortedPopulation[0];
    TopRankedIsFirstBest(fitnessScores);
  }
}
