/** The genetic operators: creating a team from the pool, crossing two parents, and mutating
    one position of a team. Every random draw is a parameter: a tape of natural numbers or
    a value of the range the draw is taken from. */
module Operators {
  import opened Database

  /** A crossover cut point, drawn from 1..5. */
  type Cut = p: int | 1 <= p <= 5 witness 1

  /** A position to mutate, drawn from 0..5. */
  type Gene = g: int | 0 <= g <= 5 witness 0

  // ---------------------------------------------------------------------------------------
  // Creating an individual

  /** Sampling k entries at distinct positions of the pool: each draw of the tape picks one of
      the positions not taken yet. */
  function Sample(pool: seq<string>, k: nat, draw: nat -> nat, i: nat): (r: seq<string>)
    requires k <= |pool|
    ensures |r| == k
    ensures multiset(r) <= multiset(pool)
    decreases k
  {
    if k == 0 then []
    else
      var j := draw(i) % |pool|;
      var rest := pool[..j] + pool[j + 1..];
      assert pool == pool[..j] + [pool[j]] + pool[j + 1..];
      assert multiset(pool) == multiset(rest) + multiset{pool[j]};
      [pool[j]] + Sample(rest, k - 1, draw, i + 1)
  }

  /** A new individual: six entries of the pool taken at distinct positions, or the error of
      a pool with fewer than six entries. */
  function CreateIndividual(pool: seq<string>, draw: nat -> nat): (r: Result<seq<string>>)
    ensures r.Err? <==> |pool| < TeamSize
    ensures r.Ok? ==> |r.value| == TeamSize && multiset(r.value) <= multiset(pool)
  {
    if |pool| < TeamSize then Err(InsufficientPool) else Ok(Sample(pool, TeamSize, draw, 0))
  }

  /** From a pool without repeats, a new individual is a team. */
  lemma CreateIndividualIsRoster(pool: seq<string>, draw: nat -> nat)
    requires Distinct(pool) && |pool| >= TeamSize
    ensures CreateIndividual(pool, draw).Ok? && IsRoster(CreateIndividual(pool, draw).value)
    ensures forall x :: x in CreateIndividual(pool, draw).value ==> x in pool
  {
    var team := CreateIndividual(pool, draw).value;
    DistinctSubMultiset(team, pool);
    forall x | x in team ensures x in pool {
      assert x in multiset(team);
    }
  }

  lemma SubMultisetSameSize(a: multiset<string>, b: multiset<string>)
    requires a <= b && |a| == |b|
    ensures a == b
  {
    assert b == a + (b - a);
    assert |b - a| == 0;
  }

  /** From a pool of exactly six, every new individual holds the whole pool, in some order. */
  lemma SixPoolSoleTeam(pool: seq<string>, draw: nat -> nat)
    requires |pool| == TeamSize
    ensures multiset(CreateIndividual(pool, draw).value) == multiset(pool)
    ensures forall x :: x in pool ==> x in CreateIndividual(pool, draw).value
  {
    var team := CreateIndividual(pool, draw).value;
    SubMultisetSameSize(multiset(team), multiset(pool));
    forall x | x in pool ensures x in team {
      assert x in multiset(pool);
    }
  }

  // ---------------------------------------------------------------------------------------
  // Crossover

  /** The entries of s, in order, that do not occur in exclude. */
  function Without(s: seq<string>, exclude: seq<string>): (r: seq<string>)
    ensures forall x :: x in r <==> x in s && x !in exclude
    ensures |r| <= |s|
    ensures Distinct(s) ==> Distinct(r)
  {
    if |s| == 0 then []
    else
      var rest := Without(s[..|s| - 1], exclude);
      var last := s[|s| - 1];
      if last in exclude then rest
      else
        assert Distinct(s) ==> last !in s[..|s| - 1];
        rest + [last]
  }

  /** Filtering distributes over concatenation: the kept entries keep their order. */
  lemma {:induction false} WithoutAppend(a: seq<string>, b: seq<string>, exclude: seq<string>)
    ensures Without(a + b, exclude) == Without(a, exclude) + Without(b, exclude)
    decreases |b|
  {
    if |b| > 0 {
      var init := b[..|b| - 1];
      var last := b[|b| - 1];
      var kept := if last in exclude then [] else [last];
      assert (a + b)[..|a + b| - 1] == a + init;
      assert (a + b)[|a + b| - 1] == last;
      assert Without(b, exclude) == Without(init, exclude) + kept;
      assert Without(a + b, exclude) == Without(a + init, exclude) + kept;
      WithoutAppend(a, init, exclude);
    } else {
      assert a + b == a;
    }
  }

  /** A single entry is kept exactly when it is not excluded. */
  lemma WithoutSingleton(x: string, exclude: seq<string>)
    ensures Without([x], exclude) == if x in exclude then [] else [x]
  {
    assert [x][..0] == [];
  }

  lemma {:induction false} WithoutSameExclusions(s: seq<string>, e1: seq<string>, e2: seq<string>)
    requires forall y :: y in s ==> (y in e1 <==> y in e2)
    ensures Without(s, e1) == Without(s, e2)
  {
    if |s| > 0 {
      WithoutSameExclusions(s[..|s| - 1], e1, e2);
    }
  }

  lemma {:induction false} WithoutShrinks(s: seq<string>, x: string)
    requires x in s
    ensures |Without(s, [x])| < |s|
  {
    var init := s[..|s| - 1];
    if s[|s| - 1] != x {
      WithoutShrinks(init, x);
    }
  }

  /** Filtering a sequence without repeats removes at most as many entries as there are
      exclusions. */
  lemma {:induction false} WithoutLength(s: seq<string>, e: seq<string>)
    ensures Distinct(s) ==> |Without(s, e)| + |e| >= |s|
    decreases |s|
  {
    if |s| > 0 && Distinct(s) {
      var init := s[..|s| - 1];
      var x := s[|s| - 1];
      assert Distinct(init);
      if x in e {
        var e' := Without(e, [x]);
        WithoutShrinks(e, x);
        assert x !in init;
        WithoutSameExclusions(init, e, e');
        WithoutLength(init, e');
      } else {
        WithoutLength(init, e);
      }
    }
  }

  /** The first n entries of s, or all of s when it is shorter. */
  function Take(s: seq<string>, n: nat): seq<string>
  {
    s[..Min(n, |s|)]
  }

  /** The child keeps the first `point` entries of parent1, then takes the entries of parent2
      not among them, and is cut to six entries. */
  function Crossover(parent1: seq<string>, parent2: seq<string>, point: Cut): (child: seq<string>)
    ensures |child| <= TeamSize
    ensures |child| >= Min(point, |parent1|) && child[..Min(point, |parent1|)] == parent1[..Min(point, |parent1|)]
    ensures forall x :: x in child ==> x in parent1 || x in parent2
    ensures forall i :: Min(point, |parent1|) <= i < |child| ==>
              child[i] in parent2 && child[i] !in parent1[..Min(point, |parent1|)]
    ensures Distinct(parent1) && Distinct(parent2) ==> Distinct(child)
    ensures |child| == Min(TeamSize, Min(point, |parent1|) + |Without(parent2, parent1[..Min(point, |parent1|)])|)
    ensures child[Min(point, |parent1|)..] == Without(parent2, parent1[..Min(point, |parent1|)])[..|child| - Min(point, |parent1|)]
    ensures |parent1| >= point && Distinct(parent2) && |parent2| >= TeamSize ==> |child| == TeamSize
  {
    var prefix := Take(parent1, point);
    var rest := Without(parent2, prefix);
    WithoutLength(parent2, prefix);
    var n := Min(TeamSize, |prefix| + |rest|);
    Splice(prefix, rest, n, parent2);
    assert forall x :: x in prefix ==> x in parent1;
    assert Distinct(parent1) ==> Distinct(prefix);
    (prefix + rest)[..n]
  }

  /** The first n entries of prefix + rest, where rest holds names of parent2 outside the
      prefix: the prefix, then the head of rest, without repeats when neither part has any. */
  lemma Splice(prefix: seq<string>, rest: seq<string>, n: nat, parent2: seq<string>)
    requires |prefix| <= n <= |prefix| + |rest|
    requires forall x :: x in rest ==> x in parent2 && x !in prefix
    ensures (prefix + rest)[..n][..|prefix|] == prefix
    ensures (prefix + rest)[..n][|prefix|..] == rest[..n - |prefix|]
    ensures forall i :: |prefix| <= i < n ==> (prefix + rest)[..n][i] in parent2 && (prefix + rest)[..n][i] !in prefix
    ensures forall x :: x in (prefix + rest)[..n] ==> x in prefix || x in rest
    ensures Distinct(prefix) && Distinct(rest) ==> Distinct((prefix + rest)[..n])
  {
    var cut := (prefix + rest)[..n];
    assert forall i :: |prefix| <= i < n ==> cut[i] == rest[i - |prefix|];
    assert forall i :: 0 <= i < |prefix| ==> cut[i] == prefix[i];
    if Distinct(prefix) && Distinct(rest) {
      forall i, j | 0 <= i < j < n ensures cut[i] != cut[j] {
        if i < |prefix| <= j {
          assert cut[j] in rest;
          assert cut[i] in prefix;
        }
      }
    }
  }

  /** When parent2 shares no name with the prefix, the child is the prefix followed by the
      first entries of parent2, in parent2's order, up to six. */
  lemma CrossoverDisjoint(parent1: seq<string>, parent2: seq<string>, point: Cut)
    requires point <= |parent1| && TeamSize - point <= |parent2|
    requires forall x :: x in parent2 ==> x !in parent1[..point]
    ensures Crossover(parent1, parent2, point) == parent1[..point] + parent2[..TeamSize - point]
  {
    WithoutNothingExcluded(parent2, parent1[..point]);
    var child := Crossover(parent1, parent2, point);
    assert child == child[..point] + child[point..];
  }

  /** Filtering a list none of whose entries is excluded leaves it as it is. */
  lemma {:induction false} WithoutNothingExcluded(s: seq<string>, exclude: seq<string>)
    requires forall x :: x in s ==> x !in exclude
    ensures Without(s, exclude) == s
  {
    if |s| > 0 {
      WithoutNothingExcluded(s[..|s| - 1], exclude);
      assert s == s[..|s| - 1] + [s[|s| - 1]];
    }
  }

  /** Two parent teams give a team. */
  lemma CrossoverOfRosters(parent1: seq<string>, parent2: seq<string>, point: Cut)
    requires IsRoster(parent1) && IsRoster(parent2)
    ensures IsRoster(Crossover(parent1, parent2, point))
    ensures Crossover(parent1, parent2, point)[..point] == parent1[..point]
  {
  }

  // ---------------------------------------------------------------------------------------
  // Mutation, as written: resample from the pool until the draw is not in the individual

  /** Draw number k of the tape picks a pool entry that is not in the individual. */
  predicate Escapes(individual: seq<string>, pool: seq<string>, draw: nat -> nat, k: nat)
    requires |pool| > 0
  {
    pool[draw(k) % |pool|] !in individual
  }

  /** Draw number k is the first one that escapes. */
  predicate FirstEscape(individual: seq<string>, pool: seq<string>, draw: nat -> nat, k: nat)
    requires |pool| > 0
  {
    Escapes(individual, pool, draw, k) && forall j :: 0 <= j < k ==> !Escapes(individual, pool, draw, j)
  }

  /** When the mutation fires, position `gene` is overwritten in place by the first draw of
      the tape that is not in the individual. The resampling loop ends only if such a draw
      exists, which the precondition states. */
  method Mutate(individual: array<string>, pool: seq<string>, fire: bool, gene: Gene, draw: nat -> nat)
    requires fire ==> gene < individual.Length && |pool| > 0 && exists k :: Escapes(individual[..], pool, draw, k)
    modifies individual
    ensures !fire ==> individual[..] == old(individual[..])
    ensures fire ==> exists k :: FirstEscape(old(individual[..]), pool, draw, k)
                                 && individual[..] == old(individual[..])[gene := pool[draw(k) % |pool|]]
    ensures fire ==> individual[gene] in pool && individual[gene] !in old(individual[..])
    ensures Distinct(old(individual[..])) ==> Distinct(individual[..])
  {
    if fire {
      ghost var stop: nat :| Escapes(individual[..], pool, draw, stop);
      var k := 0;
      var newPokemon := pool[draw(0) % |pool|];
      while newPokemon in individual[..]
        invariant k <= stop
        invariant newPokemon == pool[draw(k) % |pool|]
        invariant forall j :: 0 <= j < k ==> !Escapes(individual[..], pool, draw, j)
        decreases stop - k
      {
        k := k + 1;
        newPokemon := pool[draw(k) % |pool|];
      }
      assert FirstEscape(individual[..], pool, draw, k);
      individual[gene] := newPokemon;
    }
  }

  /** The resampling loop can end for some tape exactly when the pool has an entry outside
      the individual; when every pool entry is in the individual, no draw ever escapes. */
  lemma EscapeIffOutsider(individual: seq<string>, pool: seq<string>)
    requires |pool| > 0
    ensures (exists draw: nat -> nat, k: nat :: Escapes(individual, pool, draw, k)) <==> |Without(pool, individual)| > 0
  {
    if exists draw: nat -> nat, k: nat :: Escapes(individual, pool, draw, k) {
      var draw: nat -> nat, k: nat :| Escapes(individual, pool, draw, k);
      EscapeIsOutsider(individual, pool, draw, k);
    }
    if |Without(pool, individual)| > 0 {
      OutsiderEscapes(individual, pool);
    }
  }

  lemma EscapeIsOutsider(individual: seq<string>, pool: seq<string>, draw: nat -> nat, k: nat)
    requires |pool| > 0 && Escapes(individual, pool, draw, k)
    ensures pool[draw(k) % |pool|] in Without(pool, individual)
  {
  }

  lemma OutsiderEscapes(individual: seq<string>, pool: seq<string>)
    requires |pool| > 0 && |Without(pool, individual)| > 0
    ensures exists draw: nat -> nat :: Escapes(individual, pool, draw, 0)
  {
    var c := Without(pool, individual)[0];
    assert c in Without(pool, individual);
    assert c in pool && c !in individual;
    var j: nat :| j < |pool| && pool[j] == c;
    ConstantTapeEscapes(individual, pool, j);
  }

  /** The tape that always draws position j escapes when pool[j] is not in the individual. */
  lemma ConstantTapeEscapes(individual: seq<string>, pool: seq<string>, j: nat)
    requires j < |pool| && pool[j] !in individual
    ensures exists draw: nat -> nat :: Escapes(individual, pool, draw, 0)
  {
    var draw: nat -> nat := k => j;
    assert draw(0) == j;
    ModBelow(j, |pool|);
    assert Escapes(individual, pool, draw, 0);
  }

  /** A pool of exactly six passes the size guard, yet once a team holds all six of its
      names no draw escapes, so the resampling loop of a firing mutation never ends. */
  lemma SixPoolMutationHangs(pool: seq<string>, create: nat -> nat, draw: nat -> nat)
    requires |pool| == TeamSize
    ensures CreateIndividual(pool, create).Ok?
    ensures forall k :: !Escapes(CreateIndividual(pool, create).value, pool, draw, k)
  {
    SixPoolSoleTeam(pool, create);
  }

  /** The hang where the program meets it: from a six-name pool without repeats, the crossover
      child of two teams of pool names holds all six names, so the mutation applied to it
      finds no draw that escapes. */
  lemma CrossoverChildMutationHangs(pool: seq<string>, parent1: seq<string>, parent2: seq<string>, point: Cut,
                                    draw: nat -> nat)
    requires |pool| == TeamSize && Distinct(pool)
    requires IsRoster(parent1) && IsRoster(parent2)
    requires forall x :: x in parent1 ==> x in pool
    requires forall x :: x in parent2 ==> x in pool
    ensures forall k :: !Escapes(Crossover(parent1, parent2, point), pool, draw, k)
  {
    var child := Crossover(parent1, parent2, point);
    CrossoverOfRosters(parent1, parent2, point);
    DistinctFillsPool(child, pool);
  }

  /** Distinct entries of the pool, as many as the pool has, hold every entry of the pool. */
  lemma DistinctFillsPool(s: seq<string>, pool: seq<string>)
    requires Distinct(s) && |s| == |pool|
    requires forall x :: x in s ==> x in pool
    ensures forall x :: x in pool ==> x in s
  {
    assert multiset(s) <= multiset(pool) by {
      forall x ensures multiset(s)[x] <= multiset(pool)[x] {
        DistinctCount(s, x);
        if x in s {
          assert x in multiset(pool);
        }
      }
    }
    SubMultisetSameSize(multiset(s), multiset(pool));
    forall x | x in pool ensures x in s {
      assert x in multiset(pool);
    }
  }

  // ---------------------------------------------------------------------------------------
  // Mutation, corrected: choose directly among the pool entries not in the individual

  /** The individual after the corrected mutation: when it fires and some pool entry is not
      in the individual, position `gene` takes the candidate the draw picks; otherwise the
      individual is unchanged. */
  function Mutated(individual: seq<string>, pool: seq<string>, fire: bool, gene: Gene, draw: nat): (r: seq<string>)
    requires fire ==> gene < |individual|
    ensures |r| == |individual|
    ensures forall i :: 0 <= i < |r| && i != gene ==> r[i] == individual[i]
    ensures r == individual <==> !fire || |Without(pool, individual)| == 0
    ensures r != individual ==> r[gene] in pool && r[gene] !in individual
    ensures Distinct(individual) ==> Distinct(r)
  {
    var candidates := Without(pool, individual);
    if fire && |candidates| > 0 then
      var r := individual[gene := candidates[draw % |candidates|]];
      assert r[gene] != individual[gene] by { assert individual[gene] in individual; }
      r
    else individual
  }

  /** Every value the resampling loop can end on is one the corrected mutation can choose. */
  lemma MutatedCoversMutate(individual: seq<string>, pool: seq<string>, gene: Gene, draw: nat -> nat, k: nat)
    requires gene < |individual| && |pool| > 0
    requires Escapes(individual, pool, draw, k)
    ensures exists d: nat :: Mutated(individual, pool, true, gene, d) == individual[gene := pool[draw(k) % |pool|]]
  {
    var v := pool[draw(k) % |pool|];
    assert v in pool && v !in individual;
    var c := Without(pool, individual);
    var i := IndexOf(c, v);
    ModBelow(i, |c|);
    MutatedChoice(individual, pool, gene, i);
    assert Mutated(individual, pool, true, gene, i) == individual[gene := v];
  }

  /** Reducing a number below the modulus leaves it unchanged. */
  lemma ModBelow(i: nat, n: nat)
    requires i < n
    ensures i % n == i
  {
  }

  /** A position of v in s. */
  lemma IndexOf(s: seq<string>, v: string) returns (i: nat)
    requires v in s
    ensures i < |s| && s[i] == v
  {
    i :| i < |s| && s[i] == v;
  }

  /** A firing mutation with candidates puts in the candidate the draw picks. */
  lemma MutatedChoice(individual: seq<string>, pool: seq<string>, gene: Gene, d: nat)
    requires gene < |individual| && |Without(pool, individual)| > 0
    ensures Mutated(individual, pool, true, gene, d)
            == individual[gene := Without(pool, individual)[d % |Without(pool, individual)|]]
  {
  }

  /** Every change the corrected mutation makes is one the resampling loop ends on for some
      tape: the tape that draws the chosen entry first. */
  lemma MutateCoversMutated(individual: seq<string>, pool: seq<string>, gene: Gene, d: nat)
    requires gene < |individual| && |Without(pool, individual)| > 0
    ensures |pool| > 0
    ensures exists draw: nat -> nat, k: nat :: FirstEscape(individual, pool, draw, k)
              && Mutated(individual, pool, true, gene, d) == individual[gene := pool[draw(k) % |pool|]]
  {
    var c := Without(pool, individual);
    var v := c[d % |c|];
    assert v in c;
    var j: nat :| j < |pool| && pool[j] == v;
    ConstantTapeEndsOn(individual, pool, j);
    var draw: nat -> nat :| FirstEscape(individual, pool, draw, 0) && pool[draw(0) % |pool|] == v;
    MutatedChoice(individual, pool, gene, d);
    assert Mutated(individual, pool, true, gene, d) == individual[gene := pool[draw(0) % |pool|]];
  }

  /** The tape that always draws position j ends the loop at its first draw, on pool[j], when
      pool[j] is not in the individual. */
  lemma ConstantTapeEndsOn(individual: seq<string>, pool: seq<string>, j: nat)
    requires j < |pool| && pool[j] !in individual
    ensures exists draw: nat -> nat :: FirstEscape(individual, pool, draw, 0) && pool[draw(0) % |pool|] == pool[j]
  {
    var draw: nat -> nat := k => j;
    ModBelow(j, |pool|);
    assert FirstEscape(individual, pool, draw, 0);
  }

  /** The corrected mutation, in place. */
  method MutateFixed(individual: array<string>, pool: seq<string>, fire: bool, gene: Gene, draw: nat)
    requires fire ==> gene < individual.Length
    modifies individual
    ensures individual[..] == Mutated(old(individual[..]), pool, fire, gene, draw)
  {
    if fire {
      var candidates := Without(pool, individual[..]);
      if |candidates| > 0 {
        individual[gene] := candidates[draw % |candidates|];
      }
    }
  }
}
