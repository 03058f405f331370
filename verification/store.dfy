/** The entity store of `World` as a value: the per-entity vectors, the
    spatial index and the lineage maps, the invariants that tie them together,
    and the store operations `create_entity`, `set_position`,
    `move_to_position`, `die` and `spawn_person` as functions from one
    snapshot to the next.

    Entity ids index vectors of length CAPACITY. The value 0 means "none":
    no position, no mate, not pregnant. */
module Store {
  import opened Grid

  /** The length of every per-entity vector in `World::new`. */
  const CAPACITY: nat := 65535
  /** The day `World::new` starts the clock at. */
  const START_DAY: nat := 36500

  /** One state of the world. Field by field this is `World`; `forages` is
      indexed by cell, everything before it by entity id. */
  datatype Snapshot = Snapshot(
    day: nat,
    entities: nat,
    worldHeight: USize,
    worldWidth: USize,
    positions: seq<USize>,
    lives: seq<bool>,
    spawnDates: seq<nat>,
    males: seq<bool>,
    females: seq<bool>,
    humans: seq<bool>,
    forages: seq<nat>,
    residents: map<USize, set<nat>>,
    mates: seq<nat>,
    parents: map<nat, seq<nat>>,
    children: map<nat, set<nat>>,
    fertile: seq<bool>,
    pregnant: seq<nat>)

  /** `entry(k).or_insert_with(HashSet::new)` read without inserting: the set
      at `k`, or the empty set. */
  function SetAt<K, V>(m: map<K, set<V>>, k: K): set<V>
  {
    if k in m then m[k] else {}
  }

  // ---------------------------------------------------------------------
  // Invariants
  // ---------------------------------------------------------------------

  /** Every per-entity vector has the fixed length. */
  ghost predicate Shaped(s: Snapshot)
  {
    |s.positions| == CAPACITY && |s.lives| == CAPACITY && |s.spawnDates| == CAPACITY &&
    |s.males| == CAPACITY && |s.females| == CAPACITY && |s.humans| == CAPACITY &&
    |s.mates| == CAPACITY && |s.fertile| == CAPACITY && |s.pregnant| == CAPACITY
  }

  /** A slot no entity has ever used: every vector holds its initial value. */
  ghost predicate Blank(s: Snapshot, e: nat)
    requires Shaped(s) && e < CAPACITY
  {
    s.positions[e] == 0 && !s.lives[e] && s.spawnDates[e] == 0 && !s.males[e] &&
    !s.females[e] && !s.humans[e] && s.mates[e] == 0 && !s.fertile[e] && s.pregnant[e] == 0
  }

  /** Ids 1..entities have been issued; slot 0 and every later slot are blank. */
  ghost predicate IdsIssued(s: Snapshot)
    requires Shaped(s)
  {
    s.entities < CAPACITY &&
    forall e: nat :: e < CAPACITY && (e == 0 || e > s.entities) ==> Blank(s, e)
  }

  /** No spawn date lies in the future, so every age is defined. */
  ghost predicate AgesDefined(s: Snapshot)
    requires Shaped(s)
  {
    forall e: nat :: e < CAPACITY ==> s.spawnDates[e] <= s.day
  }

  /** Spatial consistency: a resident of cell p has position p, and an entity
      with a non-zero position is a resident of that cell. (Cell 0 can only
      become a key when a wrapped move lands on it; its residents then have
      position 0 as well.) */
  ghost predicate Spatial(s: Snapshot)
    requires Shaped(s)
  {
    (forall p: USize, e: nat {:trigger e in s.residents[p]} :: p in s.residents && e in s.residents[p] ==>
      1 <= e <= s.entities && e < CAPACITY && s.positions[e] == p) &&
    (forall e: nat :: e < CAPACITY && s.positions[e] != 0 ==>
      s.positions[e] in s.residents && e in s.residents[s.positions[e]])
  }

  /** Mate symmetry of a mates vector: slot 0 has no mate, and a mate is an
      issued id whose own mate is the entity. */
  ghost predicate Symmetric(mates: seq<nat>, entities: nat)
  {
    |mates| == CAPACITY &&
    forall e: nat :: e < CAPACITY && mates[e] != 0 ==>
      e != 0 && 1 <= mates[e] <= entities && mates[e] < CAPACITY && mates[mates[e]] == e
  }

  ghost predicate MatesSymmetric(s: Snapshot)
  {
    Symmetric(s.mates, s.entities)
  }

  /** An entity is never fertile and pregnant at once. */
  ghost predicate FertileExclusive(s: Snapshot)
    requires Shaped(s)
  {
    forall e: nat :: e < CAPACITY && s.fertile[e] ==> s.pregnant[e] == 0
  }

  /** Every issued id, and no other key, has a children set; the sets and the
      parents map mention issued ids only. */
  ghost predicate Lineage(s: Snapshot)
  {
    (forall c :: c in s.children <==> 1 <= c <= s.entities) &&
    (forall c, k :: c in s.children && k in s.children[c] ==> 1 <= k <= s.entities) &&
    (forall c :: c in s.parents ==> 1 <= c <= s.entities)
  }

  ghost predicate Inv(s: Snapshot)
  {
    Shaped(s) && IdsIssued(s) && AgesDefined(s) && Spatial(s) &&
    MatesSymmetric(s) && FertileExclusive(s) && Lineage(s)
  }

  /** `q` lists the members of `S`, each exactly once: the order in which a
      `HashSet` or the keys of a `HashMap` are iterated. */
  ghost predicate Lists<T(!new)>(q: seq<T>, S: set<T>)
  {
    (forall x :: x in q <==> x in S) && Distinct(q)
  }

  /** No element occurs twice. */
  ghost predicate Distinct<T>(q: seq<T>)
  {
    forall i, j :: 0 <= i < j < |q| ==> q[i] != q[j]
  }

  /** Every element is a valid index into the per-entity vectors. */
  ghost predicate Below(q: seq<nat>)
  {
    forall i :: 0 <= i < |q| ==> q[i] < CAPACITY
  }

  /** `keys` is an iteration order of the resident map and `buckets[i]` one of
      the resident set of `keys[i]`: how `for (position, residents) in
      &self.residents` visits the spatial index. */
  ghost predicate Enumerates(s: Snapshot, keys: seq<USize>, buckets: seq<seq<nat>>)
  {
    Lists(keys, s.residents.Keys) && |buckets| == |keys| &&
    forall i :: 0 <= i < |keys| ==> keys[i] in s.residents && Lists(buckets[i], s.residents[keys[i]])
  }

  /** A cell's list of residents, in the cell `p`. */
  ghost predicate Roster(s: Snapshot, p: USize, q: seq<nat>)
  {
    p in s.residents && Lists(q, s.residents[p])
  }

  /** Every list is the roster of the cell at the same place in `keys`. */
  ghost predicate Rosters(s: Snapshot, keys: seq<USize>, buckets: seq<seq<nat>>)
  {
    |keys| == |buckets| && forall i :: 0 <= i < |buckets| ==> Roster(s, keys[i], buckets[i])
  }

  /** An entity that is in no resident set. */
  ghost predicate Unplaced(s: Snapshot, e: nat)
  {
    forall p :: p in s.residents ==> e !in s.residents[p]
  }

  // ---------------------------------------------------------------------
  // Operations
  // ---------------------------------------------------------------------

  /** `World::new`: the clock at START_DAY, no entities, every vector blank and
      the given forage bounties, one per cell. */
  ghost function Initial(worldHeight: USize, worldWidth: USize, forages: seq<nat>): (r: Snapshot)
    ensures Shaped(r) && r.entities == 0 && r.residents == map[]
    ensures forall e: nat :: e < CAPACITY ==> Blank(r, e)
  {
    Snapshot(START_DAY, 0, worldHeight, worldWidth,
      seq(CAPACITY, _ => 0), seq(CAPACITY, _ => false), seq(CAPACITY, _ => 0),
      seq(CAPACITY, _ => false), seq(CAPACITY, _ => false), seq(CAPACITY, _ => false),
      forages, map[], seq(CAPACITY, _ => 0), map[], map[],
      seq(CAPACITY, _ => false), seq(CAPACITY, _ => 0))
  }

  /** `create_entity`: bump the counter; the new counter is the new id. */
  ghost function CreateEntity(s: Snapshot): Snapshot
  {
    s.(entities := s.entities + 1)
  }

  /** The effect of `set_position` once the cell index `p` is computed:
      record the cell and add the entity to its resident set, without leaving
      any previous cell. */
  ghost function PlaceAt(s: Snapshot, e: nat, p: USize): Snapshot
    requires Shaped(s) && e < CAPACITY
  {
    s.(positions := s.positions[e := p], residents := s.residents[p := SetAt(s.residents, p) + {e}])
  }

  /** `set_position`: encode the coordinates, then place the entity there. */
  ghost function SetPosition(s: Snapshot, e: nat, x: USize, y: USize): Snapshot
    requires Shaped(s) && e < CAPACITY
  {
    PlaceAt(s, e, XyToIndex(s.worldWidth, x, y))
  }

  /** The effect of `move_to_position` once the cell index `p` is computed:
      leave the current cell's resident set (if that cell has one), then
      record and join the new cell. */
  ghost function MoveTo(s: Snapshot, e: nat, p: USize): Snapshot
    requires Shaped(s) && e < CAPACITY
  {
    var current := s.positions[e];
    var left := if current in s.residents then s.residents[current := s.residents[current] - {e}] else s.residents;
    s.(positions := s.positions[e := p], residents := left[p := SetAt(left, p) + {e}])
  }

  /** `move_to_position`: encode the coordinates, then move there. */
  ghost function MoveToPosition(s: Snapshot, e: nat, x: USize, y: USize): Snapshot
    requires Shaped(s) && e < CAPACITY
  {
    MoveTo(s, e, XyToIndex(s.worldWidth, x, y))
  }

  /** `die`: leave the resident set of the current cell, clear position, life,
      fertility and pregnancy, and cut the mate link on both sides. The human,
      sex and spawn-date entries are left as they were. */
  ghost function Die(s: Snapshot, e: nat): Snapshot
    requires Shaped(s) && e < CAPACITY && s.mates[e] < CAPACITY
  {
    var p := s.positions[e];
    var residents := if p in s.residents then s.residents[p := s.residents[p] - {e}] else s.residents;
    var mate := s.mates[e];
    var mates := if mate != 0 then s.mates[mate := 0][e := 0] else s.mates;
    s.(residents := residents, positions := s.positions[e := 0], lives := s.lives[e := false],
       fertile := s.fertile[e := false], pregnant := s.pregnant[e := 0], mates := mates)
  }

  /** The effect of `spawn_person` once the cell index `p` is computed: issue
      an id, place it, mark it alive and human, record its spawn date and sex
      (anything but "male" is female) and give it an empty children set.
      Returns the new snapshot and the id. */
  ghost function SpawnPersonAt(s: Snapshot, p: USize, ageDays: nat, sex: string): (r: (Snapshot, nat))
    requires Shaped(s) && s.entities + 1 < CAPACITY
    ensures Shaped(r.0) && r.1 == s.entities + 1 == r.0.entities
  {
    var id := s.entities + 1;
    var t := PlaceAt(CreateEntity(s), id, p);
    var t := t.(lives := t.lives[id := true], humans := t.humans[id := true],
                spawnDates := t.spawnDates[id := ageDays]);
    var t := if sex == "male" then t.(males := t.males[id := true]) else t.(females := t.females[id := true]);
    (t.(children := t.children[id := {}]), id)
  }

  /** `spawn_person`: spawn on the cell the coordinates encode. */
  ghost function SpawnPerson(s: Snapshot, x: USize, y: USize, ageDays: nat, sex: string): (r: (Snapshot, nat))
    requires Shaped(s) && s.entities + 1 < CAPACITY
  {
    SpawnPersonAt(s, XyToIndex(s.worldWidth, x, y), ageDays, sex)
  }

  // ---------------------------------------------------------------------
  // Lemmas
  // ---------------------------------------------------------------------

  /** The new world satisfies every invariant and has issued no id. */
  lemma InitialValid(worldHeight: USize, worldWidth: USize, forages: seq<nat>)
    ensures Inv(Initial(worldHeight, worldWidth, forages))
    ensures Initial(worldHeight, worldWidth, forages).entities == 0
  {
  }

  /** The id the next creation issues has never been used: its slot is blank,
      it is nobody's resident, mate, child or parent. */
  lemma NextIdIsFresh(s: Snapshot)
    requires Inv(s) && s.entities + 1 < CAPACITY
    ensures Blank(s, s.entities + 1) && Unplaced(s, s.entities + 1)
    ensures s.entities + 1 !in s.children && s.entities + 1 !in s.parents
    ensures forall e: nat :: e < CAPACITY ==> s.mates[e] != s.entities + 1
    ensures forall c, k :: c in s.children && k in s.children[c] ==> k != s.entities + 1
  {
  }

  /** The ids issued by successive creations. */
  ghost function IssuedIds(s: Snapshot, n: nat): (ids: seq<nat>)
    ensures |ids| == n
  {
    if n == 0 then [] else IssuedIds(s, n - 1) + [CreateEntity(CreateEntityTimes(s, n - 1)).entities]
  }

  /** `n` successive creations. */
  ghost function CreateEntityTimes(s: Snapshot, n: nat): Snapshot
  {
    if n == 0 then s else CreateEntity(CreateEntityTimes(s, n - 1))
  }

  /** Ids run s.entities + 1, s.entities + 2, ...: strictly increasing and
      above every id issued before, so none is reused and 0 is never issued. */
  lemma {:induction false} IssuedIdsIncrease(s: Snapshot, n: nat)
    ensures CreateEntityTimes(s, n).entities == s.entities + n
    ensures forall k :: 0 <= k < n ==> IssuedIds(s, n)[k] == s.entities + k + 1
    ensures forall i, j :: 0 <= i < j < n ==> IssuedIds(s, n)[i] < IssuedIds(s, n)[j]
  {
    if n > 0 {
      IssuedIdsIncrease(s, n - 1);
    }
  }

  /** `set_position` on an unplaced entity keeps the spatial index consistent. */
  lemma SetPositionPlaces(s: Snapshot, e: nat, p: USize)
    requires Shaped(s) && e < CAPACITY && Unplaced(s, e)
    ensures var r := PlaceAt(s, e, p);
      r.positions[e] == p && p in r.residents && e in r.residents[p] &&
      (forall q :: q in r.residents && q != p ==> e !in r.residents[q])
  {
  }

  /** `move_to_position` keeps every invariant for an issued id. */
  lemma MoveToPositionValid(s: Snapshot, e: nat, p: USize)
    requires Inv(s) && 1 <= e <= s.entities
    ensures Inv(MoveTo(s, e, p))
  {
    var r := MoveTo(s, e, p);
    assert r.residents.Keys == s.residents.Keys + {p};
    forall q: USize, k: nat | q in r.residents && k in r.residents[q]
      ensures 1 <= k <= r.entities && k < CAPACITY && r.positions[k] == q
    {
      if k != e {
        assert q in s.residents && k in s.residents[q];
      }
    }
    forall k: nat | k < CAPACITY && r.positions[k] != 0
      ensures r.positions[k] in r.residents && k in r.residents[r.positions[k]]
    {
      if k != e {
        var q := s.positions[k];
        assert q in s.residents && k in s.residents[q];
      }
    }
    forall k: nat | k < CAPACITY && (k == 0 || k > r.entities) ensures Blank(r, k) {
      assert Blank(s, k);
    }
  }

  /** `move_to_position` moves exactly one entity: it now lives in the target
      cell and nowhere else; every other entity keeps its position, and the
      resident sets of all other cells but the one it left are unchanged. */
  lemma MoveToPositionMovesOne(s: Snapshot, e: nat, p: USize)
    requires Inv(s) && 1 <= e <= s.entities
    ensures var r := MoveTo(s, e, p);
      r.positions[e] == p && p in r.residents && e in r.residents[p] &&
      (forall q :: q in r.residents && q != p ==> e !in r.residents[q]) &&
      (forall k: nat :: k < CAPACITY && k != e ==> r.positions[k] == s.positions[k]) &&
      (forall q :: q in s.residents && q != p && q != s.positions[e] ==> q in r.residents && r.residents[q] == s.residents[q]) &&
      (forall q: USize, k: nat :: q in r.residents && k in r.residents[q] && k != e ==> q in s.residents && k in s.residents[q])
  {
  }

  /** Moving to cell 0, which a wrapped step can reach, makes 0 a key of the
      spatial index whose residents have position 0, the value that
      otherwise means "no position". */
  lemma MoveToCellZero(s: Snapshot, e: nat)
    requires Inv(s) && 1 <= e <= s.entities
    ensures var r := MoveTo(s, e, 0);
      r.positions[e] == 0 && 0 in r.residents && e in r.residents[0] && Inv(r)
  {
    MoveToPositionValid(s, e, 0);
  }

  /** Moving an entity that has died puts it back into the spatial index:
      `move_to_position` never looks at `lives`. */
  lemma MovingTheDeadPlacesThem(s: Snapshot, e: nat, p: USize)
    requires Inv(s) && 1 <= e <= s.entities && !s.lives[e] && Unplaced(s, e)
    ensures var r := MoveTo(s, e, p);
      !r.lives[e] && p in r.residents && e in r.residents[p]
  {
  }

  /** Under mate symmetry only an issued id has a mate. */
  lemma MatedIsIssued(mates: seq<nat>, entities: nat, e: nat)
    requires Symmetric(mates, entities) && e < CAPACITY
    ensures mates[e] != 0 ==> 1 <= e <= entities
  {
    if mates[e] != 0 {
      assert mates[mates[e]] == e;
    }
  }

  /** `die` keeps every invariant, mate symmetry in particular. */
  lemma DieValid(s: Snapshot, e: nat)
    requires Inv(s) && e < CAPACITY
    ensures Inv(Die(s, e))
  {
    var r := Die(s, e);
    var mate := s.mates[e];
    assert Blank(s, 0);
    forall k: nat | k < CAPACITY && r.mates[k] != 0
      ensures k != 0 && 1 <= r.mates[k] <= r.entities && r.mates[k] < CAPACITY && r.mates[r.mates[k]] == k
    {
      assert k != e && (mate != 0 ==> k != mate);
      var m := s.mates[k];
      assert r.mates[k] == m;
      assert s.mates[m] == k;
      assert m != e;
      assert mate != 0 ==> m != mate;
    }
    forall q: USize, k: nat | q in r.residents && k in r.residents[q]
      ensures 1 <= k <= r.entities && k < CAPACITY && r.positions[k] == q
    {
      assert q in s.residents && k in s.residents[q];
    }
    forall k: nat | k < CAPACITY && r.positions[k] != 0
      ensures r.positions[k] in r.residents && k in r.residents[r.positions[k]]
    {
      var q := s.positions[k];
      assert q in s.residents && k in s.residents[q];
    }
    forall k: nat | k < CAPACITY && (k == 0 || k > r.entities) ensures Blank(r, k) {
      assert Blank(s, k);
    }
  }

  /** After `die` the entity is in no resident set and has no position, life,
      fertility, pregnancy or mate, and neither has its former mate a mate;
      its human, sex and spawn-date entries are untouched. */
  lemma DieTearsDown(s: Snapshot, e: nat)
    requires Inv(s) && e < CAPACITY
    ensures var r := Die(s, e);
      Unplaced(r, e) && r.positions[e] == 0 && !r.lives[e] && !r.fertile[e] &&
      r.pregnant[e] == 0 && r.mates[e] == 0 &&
      (s.mates[e] != 0 ==> r.mates[s.mates[e]] == 0) &&
      r.humans == s.humans && r.males == s.males && r.females == s.females &&
      r.spawnDates == s.spawnDates
  {
  }

  /** `die` touches no other entity's position, life, fertility or pregnancy;
      it cuts no mate link but the entity's own and its mate's (none when it
      has no mate), and it removes the entity, and no one else, from the
      resident sets. */
  lemma DieFrame(s: Snapshot, e: nat)
    requires Inv(s) && e < CAPACITY
    ensures var r := Die(s, e);
      (forall k: nat :: k < CAPACITY && k != e ==>
        r.positions[k] == s.positions[k] && r.lives[k] == s.lives[k] &&
        r.fertile[k] == s.fertile[k] && r.pregnant[k] == s.pregnant[k]) &&
      (forall k: nat :: k < CAPACITY ==> r.mates[k] == 0 || r.mates[k] == s.mates[k]) &&
      (forall k: nat :: k < CAPACITY && k != e && k != s.mates[e] ==> r.mates[k] == s.mates[k]) &&
      (s.mates[e] == 0 ==> r.mates == s.mates) &&
      (forall q: USize, k: nat :: q in r.residents && k in r.residents[q] ==> q in s.residents && k in s.residents[q]) &&
      (forall q: USize, k: nat :: q in s.residents && k in s.residents[q] && k != e ==> q in r.residents && k in r.residents[q])
  {
  }

  /** A second `die` changes nothing. */
  lemma DieIdempotent(s: Snapshot, e: nat)
    requires Inv(s) && e < CAPACITY
    ensures Die(Die(s, e), e) == Die(s, e)
  {
    var r := Die(s, e);
    DieTearsDown(s, e);
    if 0 in r.residents {
      assert e !in r.residents[0];
      assert r.residents[0] - {e} == r.residents[0];
      assert r.residents[0 := r.residents[0] - {e}] == r.residents;
    }
  }

  /** `spawn_person` installs a live human with the given spawn date, exactly
      one sex, an empty children set and a position in the resident set of the
      encoded cell; no other entity changes. */
  lemma SpawnPersonInstalls(s: Snapshot, p: USize, ageDays: nat, sex: string)
    requires Inv(s) && s.entities + 1 < CAPACITY
    ensures var (r, id) := SpawnPersonAt(s, p, ageDays, sex);
      id == s.entities + 1 && r.lives[id] && r.humans[id] && r.spawnDates[id] == ageDays &&
      (r.males[id] <==> sex == "male") && (r.females[id] <==> sex != "male") &&
      r.children[id] == {} && r.positions[id] == p && id in r.residents[p] &&
      r.mates[id] == 0 && !r.fertile[id] && r.pregnant[id] == 0 &&
      (forall k: nat :: k < CAPACITY && k != id ==>
        r.positions[k] == s.positions[k] && r.lives[k] == s.lives[k] && r.humans[k] == s.humans[k] &&
        r.males[k] == s.males[k] && r.females[k] == s.females[k] && r.spawnDates[k] == s.spawnDates[k]) &&
      r.mates == s.mates && r.fertile == s.fertile && r.pregnant == s.pregnant &&
      r.parents == s.parents && r.children == s.children[id := {}] && r.day == s.day
  {
    NextIdIsFresh(s);
  }

  /** `spawn_person` keeps every invariant when the spawn date is not in the
      future. */
  lemma SpawnPersonValid(s: Snapshot, p: USize, ageDays: nat, sex: string)
    requires Inv(s) && s.entities + 1 < CAPACITY && ageDays <= s.day
    ensures Inv(SpawnPersonAt(s, p, ageDays, sex).0)
  {
    NextIdIsFresh(s);
    var id := s.entities + 1;
    var placed := PlaceAt(CreateEntity(s), id, p);
    PlacingFreshKeepsSpatial(s, p);
    var r := SpawnPersonAt(s, p, ageDays, sex).0;
    assert Spatial(r) by {
      assert r.positions == placed.positions && r.residents == placed.residents;
      assert r.entities == placed.entities;
    }
    SpawningKeepsIds(s, p, ageDays, sex);
    assert r.mates == s.mates && r.fertile == s.fertile && r.pregnant == s.pregnant;
  }

  /** Spawning fills exactly the next blank slot, with a spawn date that is
      not in the future. */
  lemma SpawningKeepsIds(s: Snapshot, p: USize, ageDays: nat, sex: string)
    requires Shaped(s) && IdsIssued(s) && AgesDefined(s) && s.entities + 1 < CAPACITY && ageDays <= s.day
    ensures IdsIssued(SpawnPersonAt(s, p, ageDays, sex).0)
    ensures AgesDefined(SpawnPersonAt(s, p, ageDays, sex).0)
  {
    var r := SpawnPersonAt(s, p, ageDays, sex).0;
    forall k: nat | k < CAPACITY && (k == 0 || k > r.entities) ensures Blank(r, k) {
      assert Blank(s, k);
    }
  }

  /** Placing the next id in a cell keeps the spatial index consistent. */
  lemma PlacingFreshKeepsSpatial(s: Snapshot, p: USize)
    requires Inv(s) && s.entities + 1 < CAPACITY
    ensures Spatial(PlaceAt(CreateEntity(s), s.entities + 1, p))
  {
    NextIdIsFresh(s);
    var id := s.entities + 1;
    var r := PlaceAt(CreateEntity(s), id, p);
    forall q: USize, k: nat | q in r.residents && k in r.residents[q]
      ensures 1 <= k <= r.entities && k < CAPACITY && r.positions[k] == q
    {
      if k != id {
        assert q in s.residents && k in s.residents[q];
      }
    }
    forall k: nat | k < CAPACITY && r.positions[k] != 0
      ensures r.positions[k] in r.residents && k in r.residents[r.positions[k]]
    {
      if k != id {
        var q := s.positions[k];
        assert q in s.residents && k in s.residents[q];
      }
    }
  }

  /** A resident of a cell is an issued id positioned at that cell. */
  lemma RosterIssued(s: Snapshot, p: USize, q: seq<nat>)
    requires Inv(s) && Roster(s, p, q)
    ensures Below(q) && Distinct(q)
    ensures forall e :: e in q ==> 1 <= e <= s.entities && s.positions[e] == p
  {
    forall i | 0 <= i < |q| ensures q[i] < CAPACITY {
      assert q[i] in s.residents[p];
    }
  }
}
