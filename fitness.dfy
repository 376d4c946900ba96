/** The fitness of a team against a region's gym leaders: for every occurrence of a leader
    Pokémon, the best type matchup any known team member achieves, summed. */
module Scoring {
  import opened Database

  /** The starting value of a leader occurrence's best matchup. */
  const Sentinel := -10

  /** The score one attacking type earns against one defending type; the three relation
      lists are consulted in this order and the first that holds the type decides. */
  function Delta(rel: Relations, leaderType: string): (d: int)
    ensures -2 <= d <= 2
    ensures d == 2 <==> leaderType in rel.doubleDamageTo
    ensures d == -1 <==> leaderType !in rel.doubleDamageTo && leaderType in rel.halfDamageTo
    ensures d == -2 <==> leaderType !in rel.doubleDamageTo + rel.halfDamageTo && leaderType in rel.noDamageTo
    ensures d == 0 <==> leaderType !in rel.doubleDamageTo + rel.halfDamageTo + rel.noDamageTo
  {
    if leaderType in rel.doubleDamageTo then 2
    else if leaderType in rel.halfDamageTo then -1
    else if leaderType in rel.noDamageTo then -2
    else 0
  }

  /** The deltas of one attacking type against every type of the leader Pokémon. */
  function RelSum(rel: Relations, leaderTypes: seq<string>): int
  {
    if |leaderTypes| == 0 then 0
    else RelSum(rel, leaderTypes[..|leaderTypes| - 1]) + Delta(rel, leaderTypes[|leaderTypes| - 1])
  }

  /** The matchup of a team Pokémon's types against a leader Pokémon's types; team types
      without relations in the database add nothing. */
  function Matchup(db: Db, teamTypes: seq<string>, leaderTypes: seq<string>): int
  {
    if |teamTypes| == 0 then 0
    else
      var t := teamTypes[|teamTypes| - 1];
      Matchup(db, teamTypes[..|teamTypes| - 1], leaderTypes)
      + (if t in db.types then RelSum(db.types[t], leaderTypes) else 0)
  }

  /** The matchup of a known team member against a leader Pokémon's types. */
  function MemberScore(db: Db, name: string, leaderTypes: seq<string>): int
    requires name in db.pokemons
  {
    Matchup(db, db.pokemons[name].types, leaderTypes)
  }

  /** The best matchup over the team, starting from the sentinel and replacing it by each
      known member's matchup that is strictly larger. It is the largest of the sentinel and
      the known members' matchups. */
  function BestMatchup(db: Db, team: seq<string>, leaderTypes: seq<string>): (r: int)
    ensures Sentinel <= r
    ensures forall i :: 0 <= i < |team| && team[i] in db.pokemons ==> MemberScore(db, team[i], leaderTypes) <= r
    ensures r == Sentinel || exists i :: 0 <= i < |team| && team[i] in db.pokemons && r == MemberScore(db, team[i], leaderTypes)
  {
    if |team| == 0 then Sentinel
    else
      var best := BestMatchup(db, team[..|team| - 1], leaderTypes);
      var last := team[|team| - 1];
      if last in db.pokemons && MemberScore(db, last, leaderTypes) > best
      then MemberScore(db, last, leaderTypes)
      else best
  }

  /** What one occurrence of a leader Pokémon adds to the fitness: nothing when the name is
      not in the database. */
  function OccurrenceScore(db: Db, team: seq<string>, name: string): int
  {
    if name in db.pokemons then BestMatchup(db, team, db.pokemons[name].types) else 0
  }

  /** The sum over every occurrence of a lineup, repeats included. */
  function LineupScore(db: Db, team: seq<string>, lineup: seq<string>): int
  {
    if |lineup| == 0 then 0
    else LineupScore(db, team, lineup[..|lineup| - 1]) + OccurrenceScore(db, team, lineup[|lineup| - 1])
  }

  /** The fitness of a team: the sum of its lineup scores over the gym leaders. */
  function Fitness(db: Db, team: seq<string>, gymLeaders: seq<GymLeader>): int
  {
    if |gymLeaders| == 0 then 0
    else Fitness(db, team, gymLeaders[..|gymLeaders| - 1]) + LineupScore(db, team, gymLeaders[|gymLeaders| - 1].lineup)
  }

  /** All leader Pokémon occurrences, leader after leader. */
  function Occurrences(gymLeaders: seq<GymLeader>): seq<string>
  {
    if |gymLeaders| == 0 then []
    else Occurrences(gymLeaders[..|gymLeaders| - 1]) + gymLeaders[|gymLeaders| - 1].lineup
  }

  // ---------------------------------------------------------------------------------------
  // The loops of the fitness computation

  /** The matchup of one team Pokémon's types against one leader Pokémon's types, by two
      nested loops accumulating the deltas. */
  method MatchupScore(db: Db, teamTypes: seq<string>, leaderTypes: seq<string>) returns (score: int)
    ensures score == Matchup(db, teamTypes, leaderTypes)
  {
    score := 0;
    for i := 0 to |teamTypes|
      invariant score == Matchup(db, teamTypes[..i], leaderTypes)
    {
      assert teamTypes[..i + 1][..i] == teamTypes[..i];
      var teamType := teamTypes[i];
      if teamType in db.types {
        var relations := db.types[teamType];
        for j := 0 to |leaderTypes|
          invariant score == Matchup(db, teamTypes[..i], leaderTypes) + RelSum(relations, leaderTypes[..j])
        {
          assert leaderTypes[..j + 1][..j] == leaderTypes[..j];
          var leaderType := leaderTypes[j];
          if leaderType in relations.doubleDamageTo {
            score := score + 2;
          } else if leaderType in relations.halfDamageTo {
            score := score - 1;
          } else if leaderType in relations.noDamageTo {
            score := score - 2;
          }
        }
        assert leaderTypes[..|leaderTypes|] == leaderTypes;
      }
    }
    assert teamTypes[..|teamTypes|] == teamTypes;
  }

  /** The fitness of a team, by the loops over leaders, lineup occurrences and team members. */
  method CalculateFitness(team: seq<string>, gymLeaders: seq<GymLeader>, db: Db) returns (totalScore: int)
    ensures totalScore == Fitness(db, team, gymLeaders)
  {
    totalScore := 0;
    for l := 0 to |gymLeaders|
      invariant totalScore == Fitness(db, team, gymLeaders[..l])
    {
      assert gymLeaders[..l + 1][..l] == gymLeaders[..l];
      var leaderTeam := gymLeaders[l].lineup;
      for k := 0 to |leaderTeam|
        invariant totalScore == Fitness(db, team, gymLeaders[..l]) + LineupScore(db, team, leaderTeam[..k])
      {
        assert leaderTeam[..k + 1][..k] == leaderTeam[..k];
        var leaderPokemonName := leaderTeam[k];
        if leaderPokemonName in db.pokemons {
          var leaderTypes := db.pokemons[leaderPokemonName].types;
          var bestMatchupScore := Sentinel;
          for m := 0 to |team|
            invariant bestMatchupScore == BestMatchup(db, team[..m], leaderTypes)
          {
            assert team[..m + 1][..m] == team[..m];
            var teamPokemonName := team[m];
            if teamPokemonName in db.pokemons {
              var currentMatchupScore := MatchupScore(db, db.pokemons[teamPokemonName].types, leaderTypes);
              if currentMatchupScore > bestMatchupScore {
                bestMatchupScore := currentMatchupScore;
              }
            }
          }
          assert team[..|team|] == team;
          totalScore := totalScore + bestMatchupScore;
        }
      }
      assert leaderTeam[..|leaderTeam|] == leaderTeam;
    }
    assert gymLeaders[..|gymLeaders|] == gymLeaders;
  }

  // ---------------------------------------------------------------------------------------
  // Properties of the fitness

  /** A lineup's score is additive over concatenation. */
  lemma {:induction false} LineupScoreAppend(db: Db, team: seq<string>, a: seq<string>, b: seq<string>)
    ensures LineupScore(db, team, a + b) == LineupScore(db, team, a) + LineupScore(db, team, b)
    decreases |b|
  {
    if |b| > 0 {
      var b' := b[..|b| - 1];
      assert (a + b)[..|a + b| - 1] == a + b';
      LineupScoreAppend(db, team, a, b');
    } else {
      assert a + b == a;
    }
  }

  /** The fitness is one sum over every leader occurrence of every leader, each counted as
      often as it appears; no leaders give 0. */
  lemma {:induction false} FitnessIsOccurrenceSum(db: Db, team: seq<string>, gymLeaders: seq<GymLeader>)
    ensures Fitness(db, team, gymLeaders) == LineupScore(db, team, Occurrences(gymLeaders))
    ensures gymLeaders == [] ==> Fitness(db, team, gymLeaders) == 0
  {
    if |gymLeaders| > 0 {
      var init := gymLeaders[..|gymLeaders| - 1];
      FitnessIsOccurrenceSum(db, team, init);
      LineupScoreAppend(db, team, Occurrences(init), gymLeaders[|gymLeaders| - 1].lineup);
    }
  }

  /** A leader Pokémon missing from the database adds nothing wherever it appears. */
  lemma UnknownLeaderPokemonIgnored(db: Db, team: seq<string>, a: seq<string>, name: string, b: seq<string>)
    requires name !in db.pokemons
    ensures LineupScore(db, team, a + [name] + b) == LineupScore(db, team, a + b)
  {
    LineupScoreAppend(db, team, a + [name], b);
    LineupScoreAppend(db, team, a, [name]);
    LineupScoreAppend(db, team, a, b);
    assert [name][..0] == [];
  }

  /** The order of the occurrences does not matter: two lineups holding the same names the
      same number of times score the same. */
  lemma {:induction false} LineupScorePermutation(db: Db, team: seq<string>, a: seq<string>, b: seq<string>)
    requires multiset(a) == multiset(b)
    ensures LineupScore(db, team, a) == LineupScore(db, team, b)
    decreases |a|
  {
    if |a| > 0 {
      var x := a[|a| - 1];
      var a' := a[..|a| - 1];
      assert a == a' + [x];
      assert x in multiset(b);
      var k :| 0 <= k < |b| && b[k] == x;
      var b' := b[..k] + b[k + 1..];
      assert b == b[..k] + [x] + b[k + 1..];
      assert multiset(b) == multiset(b[..k]) + multiset{x} + multiset(b[k + 1..]);
      assert multiset(b') == multiset(b[..k]) + multiset(b[k + 1..]);
      assert multiset(a) == multiset(a') + multiset{x};
      assert multiset(b) == multiset(b') + multiset{x};
      assert forall y :: multiset(a')[y] == multiset(b')[y] by {
        forall y ensures multiset(a')[y] == multiset(b')[y] {
          assert multiset(a)[y] == multiset(b)[y];
        }
      }
      assert multiset(a') == multiset(b');
      LineupScorePermutation(db, team, a', b');
      LineupScoreAppend(db, team, b[..k] + [x], b[k + 1..]);
      LineupScoreAppend(db, team, b[..k], [x]);
      LineupScoreAppend(db, team, b[..k], b[k + 1..]);
      assert [x][..0] == [];
    } else {
      assert b == [];
    }
  }

  /** Reordering the leaders, or the Pokémon inside their lineups, keeps the fitness. */
  lemma FitnessOrderFree(db: Db, team: seq<string>, g1: seq<GymLeader>, g2: seq<GymLeader>)
    requires multiset(Occurrences(g1)) == multiset(Occurrences(g2))
    ensures Fitness(db, team, g1) == Fitness(db, team, g2)
  {
    FitnessIsOccurrenceSum(db, team, g1);
    FitnessIsOccurrenceSum(db, team, g2);
    LineupScorePermutation(db, team, Occurrences(g1), Occurrences(g2));
  }

  /** A team whose members all appear in a second team never has the larger best matchup. */
  lemma BestMatchupMonotone(db: Db, t1: seq<string>, t2: seq<string>, leaderTypes: seq<string>)
    requires forall x :: x in t1 ==> x in t2
    ensures BestMatchup(db, t1, leaderTypes) <= BestMatchup(db, t2, leaderTypes)
  {
    var r1 := BestMatchup(db, t1, leaderTypes);
    if r1 != Sentinel {
      var i :| 0 <= i < |t1| && t1[i] in db.pokemons && r1 == MemberScore(db, t1[i], leaderTypes);
      assert t1[i] in t1;
    }
  }

  /** The best matchup depends on which names are on the team, not on their order. */
  lemma BestMatchupOrderFree(db: Db, t1: seq<string>, t2: seq<string>, leaderTypes: seq<string>)
    requires forall x :: x in t1 <==> x in t2
    ensures BestMatchup(db, t1, leaderTypes) == BestMatchup(db, t2, leaderTypes)
  {
    BestMatchupMonotone(db, t1, t2, leaderTypes);
    BestMatchupMonotone(db, t2, t1, leaderTypes);
  }

  /** Adding team members never lowers the fitness. */
  lemma {:induction false} FitnessMonotone(db: Db, t1: seq<string>, t2: seq<string>, gymLeaders: seq<GymLeader>)
    requires forall x :: x in t1 ==> x in t2
    ensures Fitness(db, t1, gymLeaders) <= Fitness(db, t2, gymLeaders)
  {
    FitnessIsOccurrenceSum(db, t1, gymLeaders);
    FitnessIsOccurrenceSum(db, t2, gymLeaders);
    LineupScoreMonotone(db, t1, t2, Occurrences(gymLeaders));
  }

  lemma {:induction false} LineupScoreMonotone(db: Db, t1: seq<string>, t2: seq<string>, lineup: seq<string>)
    requires forall x :: x in t1 ==> x in t2
    ensures LineupScore(db, t1, lineup) <= LineupScore(db, t2, lineup)
  {
    if |lineup| > 0 {
      LineupScoreMonotone(db, t1, t2, lineup[..|lineup| - 1]);
      var name := lineup[|lineup| - 1];
      if name in db.pokemons {
        BestMatchupMonotone(db, t1, t2, db.pokemons[name].types);
      }
    }
  }

  /** The fitness depends on which names are on the team, not on their order. */
  lemma FitnessTeamOrderFree(db: Db, t1: seq<string>, t2: seq<string>, gymLeaders: seq<GymLeader>)
    requires forall x :: x in t1 <==> x in t2
    ensures Fitness(db, t1, gymLeaders) == Fitness(db, t2, gymLeaders)
  {
    FitnessMonotone(db, t1, t2, gymLeaders);
    FitnessMonotone(db, t2, t1, gymLeaders);
  }

  lemma {:induction false} RelSumBound(rel: Relations, leaderTypes: seq<string>)
    ensures -2 * |leaderTypes| <= RelSum(rel, leaderTypes) <= 2 * |leaderTypes|
  {
    if |leaderTypes| > 0 {
      RelSumBound(rel, leaderTypes[..|leaderTypes| - 1]);
    }
  }

  /** Each pair of types moves a matchup by at most 2 either way. */
  lemma {:induction false} MatchupBound(db: Db, teamTypes: seq<string>, leaderTypes: seq<string>)
    ensures -(2 * |leaderTypes|) * |teamTypes| <= Matchup(db, teamTypes, leaderTypes) <= (2 * |leaderTypes|) * |teamTypes|
  {
    if |teamTypes| > 0 {
      var n := |teamTypes|;
      var c := 2 * |leaderTypes|;
      var t := teamTypes[n - 1];
      MatchupBound(db, teamTypes[..n - 1], leaderTypes);
      if t in db.types {
        RelSumBound(db.types[t], leaderTypes);
      }
      assert c * (n - 1) + c == c * n;
    }
  }

  /** With at most two types on either side a matchup lies in [-8, 8]. */
  lemma TwoTypeMatchupBound(db: Db, teamTypes: seq<string>, leaderTypes: seq<string>)
    requires |teamTypes| <= 2 && |leaderTypes| <= 2
    ensures -8 <= Matchup(db, teamTypes, leaderTypes) <= 8
  {
    MatchupBound(db, teamTypes, leaderTypes);
    assert (2 * |leaderTypes|) * |teamTypes| <= 8 by {
      assert (2 * |leaderTypes|) * |teamTypes| <= (2 * |leaderTypes|) * 2;
    }
  }

  /** When every Pokémon has at most two types and some team member is known, the sentinel
      never survives: the best matchup is the largest known member's matchup. */
  lemma SentinelReplaced(db: Db, team: seq<string>, leaderTypes: seq<string>)
    requires forall n :: n in db.pokemons ==> |db.pokemons[n].types| <= 2
    requires |leaderTypes| <= 2
    requires exists i :: 0 <= i < |team| && team[i] in db.pokemons
    ensures Sentinel < BestMatchup(db, team, leaderTypes)
    ensures exists i :: 0 <= i < |team| && team[i] in db.pokemons && BestMatchup(db, team, leaderTypes) == MemberScore(db, team[i], leaderTypes)
  {
    var i :| 0 <= i < |team| && team[i] in db.pokemons;
    TwoTypeMatchupBound(db, db.pokemons[team[i]].types, leaderTypes);
  }

  /** Example: a fire Pokémon on the team, a grass Pokémon in the single lineup,
      fire doubling against grass and grass listing nothing, score exactly +2. */
  lemma FireAgainstGrass()
    ensures
      var db := Db(map["charmander" := Pokemon(["fire"], Some(1)), "bulbasaur" := Pokemon(["grass"], Some(1))],
                   ["charmander", "bulbasaur"],
                   map["fire" := Relations(["grass"], [], []), "grass" := Relations([], [], [])]);
      Fitness(db, ["charmander"], [GymLeader("leader", ["bulbasaur"])]) == 2
  {
    var db := Db(map["charmander" := Pokemon(["fire"], Some(1)), "bulbasaur" := Pokemon(["grass"], Some(1))],
                 ["charmander", "bulbasaur"],
                 map["fire" := Relations(["grass"], [], []), "grass" := Relations([], [], [])]);
    assert ["fire"][..0] == [] && ["grass"][..0] == [] && ["charmander"][..0] == [];
    assert MemberScore(db, "charmander", ["grass"]) == 2;
    assert ["bulbasaur"][..0] == [];
  }

  /** A team with no member in the database answers every known leader occurrence with
      the sentinel. */
  lemma UnknownTeam(db: Db, team: seq<string>, name: string)
    requires forall i :: 0 <= i < |team| ==> team[i] !in db.pokemons
    requires name in db.pokemons
    ensures OccurrenceScore(db, team, name) == Sentinel
  {
  }
}
