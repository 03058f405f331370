/** `World` itself: the struct whose fields the store operations and the
    per-day systems update in place. Every method is proved against the
    value-level model: its new state is the model's function of the old state
    and of the draws, so the lemmas proved there (the invariants kept, who is
    paired, born, killed or moved) hold of the object. */
module Sim {
  import opened Grid
  import opened Store
  import opened Lifecycle
  import opened Birth
  import opened Matchmaker
  import opened Movement

  /** `world_height * world_width + 1` in `usize` arithmetic: one more than
      the number of forage bounties `World::new` draws. */
  function GridSize(worldHeight: USize, worldWidth: USize): USize
  {
    (worldHeight * worldWidth + 1) % USIZE
  }

  /** The number of bounties the loop `for _i in 1..grid_size` draws. */
  function ForageCount(worldHeight: USize, worldWidth: USize): (n: nat)
    ensures n < USIZE
    ensures worldHeight * worldWidth + 1 < USIZE ==> n == worldHeight * worldWidth
  {
    var size := GridSize(worldHeight, worldWidth);
    if size == 0 then 0 else size - 1
  }

  class World {
    var day: nat
    var entities: nat
    var worldHeight: USize
    var worldWidth: USize
    var positions: seq<USize>
    var lives: seq<bool>
    var spawnDates: seq<nat>
    var males: seq<bool>
    var females: seq<bool>
    var humans: seq<bool>
    var forages: seq<nat>
    var residents: map<USize, set<nat>>
    var mates: seq<nat>
    var parents: map<nat, seq<nat>>
    var children: map<nat, set<nat>>
    var fertile: seq<bool>
    var pregnant: seq<nat>

    /** The fields as a value. */
    ghost function State(): Snapshot
      reads this
    {
      Snapshot(day, entities, worldHeight, worldWidth, positions, lives, spawnDates, males,
               females, humans, forages, residents, mates, parents, children, fertile, pregnant)
    }

    /** Every invariant of the store holds. */
    ghost predicate Valid()
      reads this
    {
      Inv(State())
    }

    /** `World::new`: the forage bounties are the draws of the construction,
        one in 1..=10 per cell. */
    constructor(worldHeight: USize, worldWidth: USize, forages: seq<nat>)
      requires |forages| == ForageCount(worldHeight, worldWidth)
      requires forall i :: 0 <= i < |forages| ==> 1 <= forages[i] <= 10
      ensures State() == Initial(worldHeight, worldWidth, forages)
      ensures Valid() && entities == 0
    {
      day := START_DAY;
      entities := 0;
      this.worldHeight := worldHeight;
      this.worldWidth := worldWidth;
      positions := seq(CAPACITY, _ => 0);
      lives := seq(CAPACITY, _ => false);
      spawnDates := seq(CAPACITY, _ => 0);
      males := seq(CAPACITY, _ => false);
      females := seq(CAPACITY, _ => false);
      humans := seq(CAPACITY, _ => false);
      this.forages := forages;
      residents := map[];
      mates := seq(CAPACITY, _ => 0);
      fertile := seq(CAPACITY, _ => false);
      pregnant := seq(CAPACITY, _ => 0);
      parents := map[];
      children := map[];
      new;
      InitialValid(worldHeight, worldWidth, forages);
    }

    /** `create_entity`: the counter moves on by one and is the new id. */
    method CreateEntity() returns (id: nat)
      modifies this
      ensures id == old(entities) + 1 == entities
      ensures State() == Store.CreateEntity(old(State()))
    {
      entities := entities + 1;
      id := entities;
    }

    /** `die`: leave the cell, reset the slot's flags, cut the mate link. */
    method Die(index: nat)
      requires Shaped(State()) && index < CAPACITY && mates[index] < CAPACITY
      modifies this
      ensures State() == Store.Die(old(State()), index)
      ensures old(Valid()) ==> Valid()
    {
      LeaveCell(index);
      ResetFlags(index);
      var mateIndex := mates[index];
      if mateIndex != 0 {
        Unlink(index, mateIndex);
      }
      if old(Valid()) {
        DieValid(old(State()), index);
      }
    }

    /** The first step of `die`: drop the entity from the resident set of
        its cell, when that cell has one, and reset its position. */
    method LeaveCell(index: nat)
      requires Shaped(State()) && index < CAPACITY
      modifies this
      ensures var p := old(positions[index]);
        State() == old(State()).(positions := old(positions)[index := 0],
          residents := if p in old(residents) then old(residents)[p := old(residents)[p] - {index}] else old(residents))
    {
      if positions[index] in residents {
        residents := residents[positions[index] := residents[positions[index]] - {index}];
      }
      positions := positions[index := 0];
    }

    /** The second step of `die`: clear the life, fertility and pregnancy of
        the slot. */
    method ResetFlags(index: nat)
      requires Shaped(State()) && index < CAPACITY
      modifies this
      ensures State() == old(State()).(lives := old(lives)[index := false],
        fertile := old(fertile)[index := false], pregnant := old(pregnant)[index := 0])
    {
      lives := lives[index := false];
      fertile := fertile[index := false];
      pregnant := pregnant[index := 0];
    }

    /** The last step of `die`: clear the mate entry of both partners. */
    method Unlink(index: nat, mateIndex: nat)
      requires Shaped(State()) && index < CAPACITY && mateIndex < CAPACITY
      modifies this
      ensures State() == old(State()).(mates := old(mates)[mateIndex := 0][index := 0])
    {
      mates := mates[mateIndex := 0];
      mates := mates[index := 0];
    }

    /** `move_to_position`. */
    method MoveToPosition(entity: nat, newX: USize, newY: USize)
      requires Shaped(State()) && entity < CAPACITY
      modifies this
      ensures State() == Store.MoveToPosition(old(State()), entity, newX, newY)
      ensures old(Valid()) && 1 <= entity <= entities ==> Valid()
    {
      var currentPosition := positions[entity];
      if currentPosition in residents {
        residents := residents[currentPosition := residents[currentPosition] - {entity}];
      }
      var newPosition := XyToIndex(worldWidth, newX, newY);
      positions := positions[entity := newPosition];
      residents := residents[newPosition := SetAt(residents, newPosition) + {entity}];
      if old(Valid()) && 1 <= entity <= entities {
        MoveToPositionValid(old(State()), entity, newPosition);
      }
    }

    /** `set_position`. */
    method SetPosition(entity: nat, x: USize, y: USize)
      requires Shaped(State()) && entity < CAPACITY
      modifies this
      ensures State() == Store.SetPosition(old(State()), entity, x, y)
    {
      var positionId := XyToIndex(worldWidth, x, y);
      positions := positions[entity := positionId];
      residents := residents[positionId := SetAt(residents, positionId) + {entity}];
    }

    /** `set_life`. */
    method SetLife(entity: nat)
      requires Shaped(State()) && entity < CAPACITY
      modifies this
      ensures State() == old(State()).(lives := old(lives)[entity := true])
    {
      lives := lives[entity := true];
    }

    /** `set_human`. */
    method SetHuman(entity: nat)
      requires Shaped(State()) && entity < CAPACITY
      modifies this
      ensures State() == old(State()).(humans := old(humans)[entity := true])
    {
      humans := humans[entity := true];
    }

    /** `set_age`: records the spawn date. */
    method SetAge(entity: nat, date: nat)
      requires Shaped(State()) && entity < CAPACITY
      modifies this
      ensures State() == old(State()).(spawnDates := old(spawnDates)[entity := date])
    {
      spawnDates := spawnDates[entity := date];
    }

    /** `set_sex`: "male" sets the male flag, anything else the female one. */
    method SetSex(entity: nat, sex: string)
      requires Shaped(State()) && entity < CAPACITY
      modifies this
      ensures sex == "male" ==> State() == old(State()).(males := old(males)[entity := true])
      ensures sex != "male" ==> State() == old(State()).(females := old(females)[entity := true])
    {
      if sex == "male" {
        males := males[entity := true];
      } else {
        females := females[entity := true];
      }
    }

    /** `spawn_person`. */
    method SpawnPerson(x: USize, y: USize, ageDays: nat, sex: string) returns (entity: nat)
      requires Shaped(State()) && entities + 1 < CAPACITY
      modifies this
      ensures (State(), entity) == Store.SpawnPerson(old(State()), x, y, ageDays, sex)
      ensures old(Valid()) && ageDays <= day ==> Valid()
    {
      entity := CreateEntity();
      SetPosition(entity, x, y);
      SetLife(entity);
      SetHuman(entity);
      SetAge(entity, ageDays);
      SetSex(entity, sex);
      children := children[entity := {}];
      if old(Valid()) && ageDays <= day {
        SpawnPersonValid(old(State()), XyToIndex(worldWidth, x, y), ageDays, sex);
      }
    }

    /** `time_system`. */
    method TimeSystem()
      requires Valid()
      modifies this
      ensures State() == AdvanceDay(old(State()))
      ensures Valid()
    {
      AdvanceDayValid(State());
      day := day + 1;
    }

    /** `fertility_system`, with `draw(e)` the draw for candidate `e`. */
    method FertilitySystem(draw: nat -> bool)
      requires Valid()
      modifies this
      ensures State() == Fertility(old(State()), draw)
      ensures Valid()
    {
      FertilityValid(State(), draw);
      MarkFertile(draw);
    }

    /** The loop of `fertility_system`. */
    method MarkFertile(draw: nat -> bool)
      requires Shaped(State()) && AgesDefined(State())
      modifies this
      ensures State() == Fertility(old(State()), draw)
    {
      ghost var s := State();
      var index := 0;
      while index < |females|
        invariant index <= CAPACITY
        invariant State() == s.(fertile := fertile) && |fertile| == CAPACITY
        invariant forall k :: 0 <= k < index ==> fertile[k] == Fertility(s, draw).fertile[k]
        invariant forall k :: index <= k < CAPACITY ==> fertile[k] == s.fertile[k]
      {
        assert Fertility(s, draw).fertile[index] == (s.fertile[index] || (FertilityCandidate(s, index) && draw(index)));
        if humans[index] && females[index] && !fertile[index] && pregnant[index] == 0 {
          var age := GetAge(day, spawnDates[index]);
          if age >= 14 * YEAR && age <= 50 * YEAR {
            if draw(index) {
              fertile := fertile[index := true];
            }
          }
        }
        index := index + 1;
      }
      assert fertile == Fertility(s, draw).fertile;
    }

    /** `conception_system`, with `draw(e)` the draw for candidate `e` and
        `gestation(e)` its drawn gestation. */
    method ConceptionSystem(draw: nat -> bool, gestation: nat -> Gestation)
      requires Valid()
      modifies this
      ensures State() == Conception(old(State()), draw, gestation)
      ensures Valid()
    {
      ConceptionValid(State(), draw, gestation);
      Conceive(draw, gestation);
    }

    /** The loop of `conception_system`. */
    method Conceive(draw: nat -> bool, gestation: nat -> Gestation)
      requires Shaped(State())
      modifies this
      ensures State() == Conception(old(State()), draw, gestation)
    {
      ghost var s := State();
      var index := 0;
      while index < |humans|
        invariant index <= CAPACITY
        invariant State() == s.(fertile := fertile, pregnant := pregnant)
        invariant |fertile| == CAPACITY && |pregnant| == CAPACITY
        invariant forall k :: 0 <= k < index ==>
          fertile[k] == Conception(s, draw, gestation).fertile[k] &&
          pregnant[k] == Conception(s, draw, gestation).pregnant[k]
        invariant forall k :: index <= k < CAPACITY ==> fertile[k] == s.fertile[k] && pregnant[k] == s.pregnant[k]
      {
        ghost var conceives := ConceptionCandidate(s, index) && draw(index);
        assert Conception(s, draw, gestation).fertile[index] == if conceives then false else s.fertile[index];
        assert Conception(s, draw, gestation).pregnant[index] == if conceives then s.day + gestation(index) else s.pregnant[index];
        if humans[index] && females[index] && fertile[index] && mates[index] != 0 && pregnant[index] == 0 {
          if draw(index) {
            StartPregnancy(index, day + gestation(index));
          }
        }
        index := index + 1;
      }
      assert fertile == Conception(s, draw, gestation).fertile;
      assert pregnant == Conception(s, draw, gestation).pregnant;
    }

    /** The effect of a successful draw in `conception_system`: the due
        day is set and the fertility flag cleared. */
    method StartPregnancy(index: nat, due: nat)
      requires Shaped(State()) && index < CAPACITY
      modifies this
      ensures State() == old(State()).(pregnant := old(pregnant)[index := due], fertile := old(fertile)[index := false])
    {
      pregnant := pregnant[index := due];
      fertile := fertile[index := false];
    }

    /** `birth_system`, with `heads(e)` the coin for the child of mother `e`.
        The births must leave the last id inside the vectors, and a birth
        decodes the mother's id, which divides by the world width. */
    method BirthSystem(heads: nat -> bool)
      requires Valid() && entities + DueCount(State(), CAPACITY) < CAPACITY
      requires DueCount(State(), CAPACITY) > 0 ==> worldWidth > 0
      modifies this
      ensures State() == BirthsUpTo(old(State()), heads, CAPACITY)
      ensures Valid()
    {
      ghost var s := State();
      var index := 0;
      while index < |humans|
        invariant index <= CAPACITY
        invariant DueCount(s, index) <= DueCount(s, CAPACITY)
        invariant State() == BirthsUpTo(s, heads, index)
        invariant Valid()
        invariant forall e: nat :: index <= e < CAPACITY ==> (Due(State(), e) <==> Due(s, e))
      {
        DueCountMonotone(s, index + 1, CAPACITY);
        BirthsUpToValid(s, heads, index + 1);
        if humans[index] && pregnant[index] != 0 && day >= pregnant[index] {
          DueCountCounts(s, index, CAPACITY);
          DeliverDecodesMotherId(State(), index, heads(index));
          GiveBirth(index, heads(index));
        }
        index := index + 1;
      }
    }

    /** One delivery of `birth_system`: clear the mother's pregnancy, spawn
        the child on the cell decoded from the mother's id and record the
        lineage. */
    method GiveBirth(mother: nat, heads: bool)
      requires Shaped(State()) && mother < CAPACITY && entities + 1 < CAPACITY && worldWidth > 0
      modifies this
      ensures var (x, y) := IndexToXy(old(worldWidth), mother);
        var (u, child) := Store.SpawnPerson(ClearPregnancy(old(State()), mother), x, y, old(day), NewbornSex(heads));
        State() == RecordLineage(u, mother, child, old(mates[mother]))
    {
      pregnant := pregnant[mother := 0];
      var sex := NewbornSex(heads);
      var (x, y) := IndexToXy(worldWidth, mother);
      var childId := SpawnPerson(x, y, day, sex);
      RecordBirth(mother, childId);
    }

    /** The lineage step of a delivery: the child's own children set, its
        entry in the mother's set, its parents, and the father's own id in
        the father's set when the mother has a mate. */
    method RecordBirth(mother: nat, childId: nat)
      requires Shaped(State()) && mother < CAPACITY
      modifies this
      ensures State() == RecordLineage(old(State()), mother, childId, old(mates[mother]))
    {
      children := children[childId := {}];
      children := children[mother := SetAt(children, mother) + {childId}];
      parents := parents[childId := [mother, mates[mother]]];
      if mates[mother] != 0 {
        children := children[mates[mother] := SetAt(children, mates[mother]) + {mates[mother]}];
      }
    }

    /** `death_system`, with `draw(e)` the draw for human `e`. */
    method DeathSystem(draw: nat -> bool)
      requires Valid()
      modifies this
      ensures State() == DeathsUpTo(old(State()), draw, CAPACITY)
      ensures Valid()
    {
      ghost var s := State();
      var index := 0;
      while index < |lives|
        invariant index <= CAPACITY == |lives|
        invariant State() == DeathsUpTo(s, draw, index)
      {
        if humans[index] {
          if draw(index) {
            Die(index);
          }
        }
        index := index + 1;
      }
    }

    /** `matchmaker_system`: `keys` is the visiting order of the resident
        map and `buckets[i]` that of the residents of `keys[i]`; `accept(b)`
        is the coin of the pair of bachelor `b`. */
    method MatchmakerSystem(keys: seq<USize>, buckets: seq<seq<nat>>, accept: nat -> bool)
      requires Valid() && Enumerates(State(), keys, buckets)
      modifies this
      ensures (forall i :: 0 <= i < |buckets| ==> Below(buckets[i])) &&
        State() == MatchAllCells(old(State()), buckets, accept)
      ensures Valid()
    {
      ghost var s := State();
      assert Rosters(s, keys, buckets);
      EnumeratedBelow(s, keys, buckets);
      MatchCells(buckets, accept);
      MatchUpToValid(s, keys, buckets, accept, |buckets|);
    }

    /** The loop of `matchmaker_system` over the listed cells, in order. */
    method MatchCells(buckets: seq<seq<nat>>, accept: nat -> bool)
      requires Matchable(State(), buckets)
      modifies this
      ensures State() == MatchUpTo(old(State()), buckets, accept, |buckets|)
    {
      ghost var states := [State()];
      var k := 0;
      while k < |buckets|
        invariant k <= |buckets| && |states| == k + 1 && states[0] == old(State()) && State() == states[k]
        invariant Chained(states, buckets, accept)
      {
        states := MatchNextCell(states, buckets, accept, k);
        k := k + 1;
      }
      ChainedMatches(states, buckets, accept);
    }

    /** One iteration of the loop of `matchmaker_system`: match cell `k`. */
    method MatchNextCell(ghost states: seq<Snapshot>, buckets: seq<seq<nat>>, accept: nat -> bool, k: nat) returns (ghost states': seq<Snapshot>)
      requires k < |buckets| && |states| == k + 1 && State() == states[k] && Chained(states, buckets, accept)
      modifies this
      ensures states' == states + [State()] && Chained(states', buckets, accept)
    {
      MatchCellOf(buckets[k], accept);
      states' := states + [State()];
      assert Matchable(State(), buckets);
    }

    /** The body of `matchmaker_system` for one cell whose residents are
        listed in `q`. */
    method MatchCellOf(q: seq<nat>, accept: nat -> bool)
      requires Shaped(State()) && AgesDefined(State()) && Below(q)
      modifies this
      ensures State() == MatchCell(old(State()), q, accept)
    {
      var bachelors, spinsters := SortSingles(q);
      WedPairs(bachelors, spinsters, accept);
    }

    /** The first loop of a cell in `matchmaker_system`: its marriageable
        residents, males as bachelors and the others as spinsters, in the
        order listed. */
    method SortSingles(q: seq<nat>) returns (bachelors: seq<nat>, spinsters: seq<nat>)
      requires Shaped(State()) && AgesDefined(State()) && Below(q)
      ensures bachelors == Singles(State(), q, true) && spinsters == Singles(State(), q, false)
    {
      bachelors, spinsters := [], [];
      var i := 0;
      while i < |q|
        invariant i <= |q|
        invariant bachelors == Singles(State(), q[..i], true)
        invariant spinsters == Singles(State(), q[..i], false)
      {
        var entity := q[i];
        assert q[..i + 1][..i] == q[..i];
        if humans[entity] && mates[entity] == 0 && GetAge(day, spawnDates[entity]) >= MARRIAGE_AGE {
          if males[entity] {
            bachelors := bachelors + [entity];
          } else {
            spinsters := spinsters + [entity];
          }
        }
        i := i + 1;
      }
      assert q[..|q|] == q;
    }

    /** The second loop of a cell in `matchmaker_system`: every zipped pair
        whose coin is accepted is linked both ways, as `(b, s)` and then
        `(s, b)`. */
    method WedPairs(bachelors: seq<nat>, spinsters: seq<nat>, accept: nat -> bool)
      requires |mates| == CAPACITY && Below(bachelors) && Below(spinsters)
      modifies this
      ensures State() == old(State()).(mates := Wed(old(mates), Zip(bachelors, spinsters), accept))
    {
      ghost var pairs := Zip(bachelors, spinsters);
      assert PairsBelow(pairs);
      var j := 0;
      while j < Min(|bachelors|, |spinsters|)
        invariant j <= |pairs| && State() == old(State()).(mates := mates)
        invariant mates == Wed(old(mates), pairs[..j], accept)
      {
        var bachelor, spinster := bachelors[j], spinsters[j];
        assert pairs[..j + 1][..j] == pairs[..j] && pairs[j] == (bachelor, spinster);
        if accept(bachelor) {
          mates := mates[bachelor := spinster];
          mates := mates[spinster := bachelor];
          mates := mates[spinster := bachelor];
          mates := mates[bachelor := spinster];
        }
        j := j + 1;
      }
      assert pairs[..|pairs|] == pairs;
    }

    /** The moves one mover lists: itself, its mate in the family loop, and
        every child, all with the target drawn from its cell. */
    method PlanGroup(position: USize, entity: nat, family: bool, draws: Draws, kids: nat -> seq<nat>) returns (group: seq<Move>)
      requires Shaped(State()) && worldWidth > 0 && entity < CAPACITY
      ensures group == GroupMoves(State(), position, entity, family, draws, kids)
    {
      var (x, y) := IndexToXy(worldWidth, position);
      var movement := GenerateRandomMove(x, y, draws.coins(entity, family));
      var newX := WrapI32(AsI32(x) + movement.0);
      var newY := WrapI32(AsI32(y) + movement.1);
      group := [Move(entity, newX, newY)];
      if family && mates[entity] != 0 {
        group := group + [Move(mates[entity], newX, newY)];
      }
      ghost var head := group;
      var cs := kids(entity);
      var j := 0;
      while j < |cs|
        invariant j <= |cs|
        invariant group == head + KidMoves(cs[..j], (newX, newY))
      {
        assert cs[..j + 1][..j] == cs[..j];
        group := group + [Move(cs[j], newX, newY)];
        j := j + 1;
      }
      assert cs[..|cs|] == cs;
    }

    /** The two loops of one cell in `move_system`: the odds from the head
        count and the bounty, then the families, then the singles. */
    method PlanCell(position: USize, q: seq<nat>, draws: Draws, kids: nat -> seq<nat>) returns (cellMoves: seq<Move>)
      requires Shaped(State()) && AgesDefined(State()) && MatesSymmetric(State()) && worldWidth > 0
      requires Below(q) && (|q| > 0 ==> q[0] < |forages|)
      ensures cellMoves == CellMoves(State(), position, q, draws, kids)
    {
      var humanCount := |q|;
      var forageBounty := if |q| > 0 then forages[q[0]] else 1;
      var moveProbability := MovePercent(humanCount, forageBounty);
      assert moveProbability == CellOdds(State(), q);
      var familyMoves := PlanFamilies(position, q, moveProbability, draws, kids);
      var singleMoves := PlanSingles(position, q, moveProbability, draws, kids);
      cellMoves := familyMoves + singleMoves;
    }

    /** The family loop of a cell: every male human with a mate draws, and
        on a roll below the odds lists himself, his mate and his children. */
    method PlanFamilies(position: USize, q: seq<nat>, pct: nat, draws: Draws, kids: nat -> seq<nat>) returns (moves: seq<Move>)
      requires Shaped(State()) && AgesDefined(State()) && MatesSymmetric(State()) && worldWidth > 0 && Below(q)
      ensures moves == LoopMoves(State(), position, q, pct, true, draws, kids)
    {
      moves := [];
      var i := 0;
      while i < |q|
        invariant i <= |q|
        invariant moves == LoopMoves(State(), position, q[..i], pct, true, draws, kids)
      {
        var entity := q[i];
        assert q[..i + 1][..i] == q[..i];
        if humans[entity] && males[entity] && mates[entity] != 0 {
          if draws.roll(entity, true) < pct {
            var group := PlanGroup(position, entity, true, draws, kids);
            moves := moves + group;
          }
        }
        i := i + 1;
      }
      assert q[..|q|] == q;
    }

    /** The singles loop of a cell: every adult human passing the
        complemented-mate test draws, and on a roll below the odds lists
        itself and its children. */
    method PlanSingles(position: USize, q: seq<nat>, pct: nat, draws: Draws, kids: nat -> seq<nat>) returns (moves: seq<Move>)
      requires Shaped(State()) && AgesDefined(State()) && MatesSymmetric(State()) && worldWidth > 0 && Below(q)
      ensures moves == LoopMoves(State(), position, q, pct, false, draws, kids)
    {
      moves := [];
      var i := 0;
      while i < |q|
        invariant i <= |q|
        invariant moves == LoopMoves(State(), position, q[..i], pct, false, draws, kids)
      {
        var entity := q[i];
        assert q[..i + 1][..i] == q[..i];
        if humans[entity] && NotUSize(mates[entity]) != 0 && GetAge(day, spawnDates[entity]) >= ADULT_AGE {
          if draws.roll(entity, false) < pct {
            var group := PlanGroup(position, entity, false, draws, kids);
            moves := moves + group;
          }
        }
        i := i + 1;
      }
      assert q[..|q|] == q;
    }

    /** The last loop of `move_system`: apply the listed moves in order. */
    method ApplyMoves(moves: seq<Move>)
      requires Valid() && MovesIssued(State(), moves)
      modifies this
      ensures MovesBelow(moves) && State() == Movement.ApplyMoves(old(State()), moves)
      ensures Valid()
    {
      ghost var s := State();
      var n := 0;
      while n < |moves|
        invariant n <= |moves|
        invariant State() == Movement.ApplyMoves(s, moves[..n]) && Valid()
      {
        var move := moves[n];
        assert moves[..n + 1][..n] == moves[..n] && moves[..n + 1][n] == move;
        assert MovesIssued(s, moves[..n + 1]);
        ApplyMovesValid(s, moves[..n + 1]);
        MoveToPosition(move.entity, AsUSize(move.x), AsUSize(move.y));
        n := n + 1;
      }
      assert moves[..|moves|] == moves;
      ApplyMovesValid(s, moves);
    }

    /** `move_system`: `keys` and `buckets` are the visiting order of the
        resident map, `draws` the draws of the movers and `kids(e)` the
        iteration order of the children of `e`. Decoding a cell divides by
        the world width, and the bounty of a cell is read from `forages` at
        its first resident's id. */
    method MoveSystem(keys: seq<USize>, buckets: seq<seq<nat>>, draws: Draws, kids: nat -> seq<nat>)
      requires Valid() && worldWidth > 0 && ChildOrders(State(), kids)
      requires Enumerates(State(), keys, buckets) && Bounties(State(), buckets)
      modifies this
      ensures (forall i :: 0 <= i < |buckets| ==> Below(buckets[i])) &&
        MovesBelow(AllMoves(old(State()), keys, buckets, draws, kids, |keys|)) &&
        State() == Movement.ApplyMoves(old(State()), AllMoves(old(State()), keys, buckets, draws, kids, |keys|))
      ensures Valid()
    {
      ghost var s := State();
      AllMovesIssued(s, keys, buckets, draws, kids, |keys|);
      var moves := PlanMoves(keys, buckets, draws, kids);
      ApplyMoves(moves);
    }

    /** The first loop of `move_system`: the moves listed cell by cell. */
    method PlanMoves(keys: seq<USize>, buckets: seq<seq<nat>>, draws: Draws, kids: nat -> seq<nat>) returns (moves: seq<Move>)
      requires Plannable(State(), keys, buckets)
      ensures moves == AllMoves(State(), keys, buckets, draws, kids, |keys|)
    {
      ghost var cells: seq<seq<Move>> := [];
      moves := [];
      var k := 0;
      while k < |keys|
        invariant k <= |keys| && |cells| == k && moves == Flatten(cells)
        invariant Planned(old(State()), keys, buckets, draws, kids, cells)
      {
        moves, cells := PlanNextCell(cells, moves, keys, buckets, draws, kids, k);
        k := k + 1;
      }
      AllMovesFlatten(old(State()), keys, buckets, draws, kids, cells);
    }

    /** One iteration of the first loop of `move_system`: the moves of cell
        `k` follow those of the cells before it. */
    method PlanNextCell(ghost cells: seq<seq<Move>>, moves: seq<Move>, keys: seq<USize>, buckets: seq<seq<nat>>, draws: Draws, kids: nat -> seq<nat>, k: nat)
      returns (moves': seq<Move>, ghost cells': seq<seq<Move>>)
      requires k < |keys| && |cells| == k && moves == Flatten(cells)
      requires Planned(State(), keys, buckets, draws, kids, cells)
      ensures |cells'| == k + 1 && moves' == Flatten(cells')
      ensures Planned(State(), keys, buckets, draws, kids, cells')
    {
      assert Below(buckets[k]) && (|buckets[k]| > 0 ==> buckets[k][0] < |forages|);
      var cellMoves := PlanCell(keys[k], buckets[k], draws, kids);
      FlattenStep(cells, cellMoves);
      cells' := cells + [cellMoves];
      moves' := moves + cellMoves;
    }
  }
}
