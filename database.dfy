/** The local Pokémon database as the search engine reads it, and the shapes shared by the
    rest of the model: rosters, gym-leader lineups and the error of an undersized pool. */
module Database {

  datatype Option<T> = None | Some(value: T)

  datatype Error = InsufficientPool

  datatype Result<T> = Ok(value: T) | Err(error: Error)

  /** The damage relations of one attacking type: the defending types it hits for double,
      half and no damage. */
  datatype Relations = Relations(doubleDamageTo: seq<string>, halfDamageTo: seq<string>, noDamageTo: seq<string>)

  /** One Pokémon record: its own types and, when the record has one, its generation. */
  datatype Pokemon = Pokemon(types: seq<string>, generationId: Option<int>)

  /** The database: Pokémon records by name, the names in the order the record map lists
      them, and the damage relations of each type by type name. */
  datatype Db = Db(pokemons: map<string, Pokemon>, names: seq<string>, types: map<string, Relations>)

  /** One gym leader and the lineup he or she fields; a lineup may repeat a name. */
  datatype GymLeader = GymLeader(name: string, lineup: seq<string>)

  /** Every team has this many members. */
  const TeamSize := 6

  predicate Distinct<T(==)>(s: seq<T>) {
    forall i, j :: 0 <= i < j < |s| ==> s[i] != s[j]
  }

  /** A team: exactly six pairwise distinct names. */
  predicate IsRoster(team: seq<string>) {
    |team| == TeamSize && Distinct(team)
  }

  /** `names` lists every record name exactly once, as the iteration over a record map does. */
  predicate WellFormed(db: Db) {
    Distinct(db.names)
    && (forall n :: n in db.names ==> n in db.pokemons)
    && (forall n :: n in db.pokemons.Keys ==> n in db.names)
  }

  function Min(a: int, b: int): int { if a <= b then a else b }

  function Max(a: int, b: int): int { if a >= b then a else b }

  /** A sequence without repeats holds each value at most once. */
  lemma {:induction false} DistinctCount<T>(s: seq<T>, x: T)
    requires Distinct(s)
    ensures multiset(s)[x] <= 1
  {
    if |s| > 0 {
      var t := s[..|s| - 1];
      assert s == t + [s[|s| - 1]];
      assert Distinct(t);
      DistinctCount(t, x);
      if s[|s| - 1] == x {
        assert x !in t;
      }
    }
  }

  /** Taking some of the values of a sequence without repeats, at distinct positions, gives
      a sequence without repeats. */
  lemma DistinctSubMultiset<T>(a: seq<T>, b: seq<T>)
    requires multiset(a) <= multiset(b) && Distinct(b)
    ensures Distinct(a)
  {
    forall i, j | 0 <= i < j < |a| ensures a[i] != a[j] {
      if a[i] == a[j] {
        var x := a[i];
        assert a == a[..i] + [x] + a[i + 1..j] + [x] + a[j + 1..];
        assert multiset(a)[x] >= 2;
        DistinctCount(b, x);
        assert false;
      }
    }
  }
}
