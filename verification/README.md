# mono_world: the World store and its daily systems, in Dafny

mono_world is a grid-based population simulation. Humans are born, come of
age, pair off, conceive, give birth, die and migrate. One `World` value holds
everything, and a fixed set of systems updates it once per simulated day.
This project models `src/world.rs`:

- the `World` struct, with its per-entity vectors, its spatial index
  `residents` and its lineage maps;
- its store operations: `new`, `create_entity`, `die`, `xy_to_index`,
  `index_to_xy`, `move_to_position`, `set_position`, the setters and
  `spawn_person`;
- its systems: `matchmaker_system`, `fertility_system`, `conception_system`,
  `birth_system`, `death_system`, `time_system` and `move_system`;
- the read-only `average_human_age`;
- the free functions `get_age` and `generate_random_move`.

## How the model is built

- **Grid** (`grid.dfy`) holds the free helpers:
  - the `usize` and `i32` casts;
  - the cell-index codec;
  - the random step of a mover;
  - the odds of moving, in hundredths;
  - `get_age`.
- **Store** (`store.dfy`):
  - `Snapshot` is the value of the 17 fields of `World`.
  - `Inv` is the invariant that every system keeps:
    - fixed-length vectors;
    - ids `1..entities` issued and every other slot blank;
    - no spawn date in the future;
    - a spatial index consistent with `positions`;
    - symmetric mate links between issued ids;
    - never fertile and pregnant at once;
    - lineage maps mentioning issued ids only.
  - It also holds the store operations as functions on snapshots.
- **Lifecycle**, **Birth**, **Matchmaker** and **Movement** give each system
  as a function from one snapshot to the next. Their lemmas state what the
  system does and that it keeps `Inv`.
- **Sim** (`world.dfy`) has `class World`, with the same fields as the Rust
  struct.
  - Every method updates those fields in place, with the loops of the source.
  - Each method is proved to leave `State()` equal to its specification
    function applied to the old state.
  - The system methods also keep `Valid()`.

The vectors hold 65535 slots, as in `World::new`.

Rust's `usize` is taken as 64 bits, and the release build wraps on overflow. So:

- `xy_to_index` and `index_to_xy` are computed modulo 2^64;
- `as i32` keeps the low 32 bits;
- an `i32` sum wraps;
- `as usize` sign-extends.

Randomness is not modelled as such. Every draw a system makes is a parameter
of the model, and each lemma holds for every outcome:

- a `draw(e)` per entity (fertility, conception, death);
- a gestation `gestation(e)` in 260..300;
- a coin `heads(e)` for a newborn's sex;
- a coin `accept(b)` for the pair of bachelor `b`;
- a percentile roll and the step coins for each mover and loop.

The iteration order of a `HashMap` or `HashSet` is a parameter too:

- `keys` and `buckets` list the resident map;
- `kids(e)` lists a children set.

`Enumerates`, `Rosters` and `ChildOrders` constrain these to list exactly
the members of the map or set.

### Behaviour kept as written

In these places the model follows what `src/world.rs` does rather than
what its comments and names suggest:

- **Newborn's cell.** A newborn is spawned on the cell that `index_to_xy`
  decodes from the mother's entity id, not on the mother's cell.
  `DeliverDecodesMotherId` shows that this cell is numbered like the id.
- **Father's children set.** When the mother has a mate, the mate's own id,
  not the child, is added to the mate's children set.
- **Singles filter.** The filter tests `!mates[e] != 0`, the bitwise
  complement of the mate id. That is non-zero for every mate id, so every
  adult human draws in the singles loop, married or not
  (`SinglesIgnoreMates`). A family head may therefore be listed twice.
- **Forage bounty.** The comment at `src/world.rs:258-259` speaks of at
  most one forage entity per position, but no entity carries a bounty. The
  bounties live in the `forages` vector, and a cell's bounty is read there
  at the id of its first listed resident. The variable `human_count` counts
  every resident, not just humans.
- **Steps leave the grid.** `xy_to_index` checks no bound, and a step from
  coordinate 0 wraps to the largest `usize`:
  - A step left from column 0 lands on the last column of the previous row
    (`WrappedColumnLandsOnPreviousRow`).
  - A step right from the last column lands on the first cell of the next
    row (`ColumnPastRowLandsOnNextRow`).
  - A step down from row 0 lands on a cell numbered just below 2^64, far
    beyond the grid, except from the last two columns
    (`WrappedRowLandsBeyondGrid`). A step of (+1, -1) from (width-2, 0)
    lands on cell 0, and from (width-1, 0) on cell 1, which is (0, 0)
    (`ColumnPastWrappedRowIsCellOne`, `DownStepFromLastColumns`).
- **Cell 0.** Cells are numbered from 1, and position 0 means "no position".
  A step of (-1, -1) from (0, 1) lands on cell 0 (`CornerStepLandsOnCellZero`).
  Cell 0 then becomes a key of `residents`, and its residents have position 0
  (`MoveToCellZero`). So the spatial invariant `Spatial` requires only that a
  resident of cell `p` has position `p`, and that an entity with a non-zero
  position is a resident of its cell. It does not claim that every entity
  with position 0 is unplaced.
- **Death keeps some flags.** The comment at `src/world.rs:64` says the
  entity's "position and status flags" are reset. In fact `die` resets only
  position, life, fertility and pregnancy, and leaves the human, sex and
  spawn-date entries in place. The dead are drawn for again by
  `death_system` and still count in `average_human_age`. A dead child moved with its family rejoins
  the spatial index (`MovingTheDeadPlacesThem`).
- **Fertility ages.** The fertility age window is 14 to 50 years, both ends
  included. No penalty for existing children is applied.
- **Effects in the loop.** Effects are applied inside the loops, except in
  `move_system`. Later cells of the matchmaker therefore see the mates
  written for earlier ones. The model keeps that order.

## Model

| member | source | states |
|---|---|---|
| Grid.AsI32 | src/world.rs:281 | `x as i32` is the identity on every value up to `i32::MAX` |
| Grid.WrapI32 | src/world.rs:281 | an `i32` sum that wraps is exact whenever the true sum fits in `i32` |
| Grid.AsUSize | src/world.rs:305 | `as usize` keeps non-negative targets and maps a negative one to 2^64 plus it |
| Grid.StepTargetInRange | src/world.rs:281 | away from the edges, a ±1 step lands on the coordinate plus the step |
| Grid.StepFromZeroWraps | src/world.rs:281 | a -1 step from coordinate 0 gives the largest `usize`, not a negative coordinate |
| Grid.XyRoundTrip | src/world.rs:78-86 | for `x` inside a row and no overflow, the encoded cell is at least 1 and decodes back to `(x, y)` |
| Grid.IndexRoundTrip | src/world.rs:78-86 | every index other than 0 decodes to an `x` inside a row and re-encodes to itself |
| Grid.XyToIndex | src/world.rs:78-80 | `xy_to_index` in wrapping `usize` arithmetic; its partner lemmas are XyRoundTrip and IndexRoundTrip |
| Grid.IndexToXy | src/world.rs:81-86 | the decoded column always lies inside a row, `x < width` |
| Grid.WrappedColumnLandsOnPreviousRow | src/world.rs:78-80 | column 2^64-1 of row `y` is the same cell as the last column of row `y - 1` |
| Grid.ColumnPastRowLandsOnNextRow | src/world.rs:78-80 | column `width` of row `y` is the same cell as column 0 of row `y + 1` |
| Grid.WrappedRowLandsBeyondGrid | src/world.rs:78-80 | row 2^64-1 encodes to cell 2^64+1+x-width, beyond any grid, or to cell 0 from the last column |
| Grid.CornerStepLandsOnCellZero | src/world.rs:78-80 | a (-1, -1) step from (0, 1) encodes to cell 0 |
| Grid.ColumnPastWrappedRowIsCellOne | src/world.rs:78-80 | column `width` of the wrapped row 2^64-1 encodes to cell 1, the grid's (0, 0) |
| Grid.DownStepFromLastColumns | src/world.rs:78-80 | a (+1, -1) step from (width-2, 0) encodes to cell 0, and from (width-1, 0) to cell 1 |
| Grid.AxisStep | src/world.rs:361-382 | the step on one axis is ±1; below the centre heads means +1, above it heads means -1, at the centre heads means +1 |
| Grid.GenerateRandomMove | src/world.rs:355-391 | both components are ±1 and equal the per-axis biased steps, so the zero-step fallback is never taken |
| Grid.MovePercent | src/world.rs:257-274 | the odds lie in 1..90 hundredths; they are 90 exactly for a lone resident, and at most 20 otherwise |
| Grid.MovePercentMonotone | src/world.rs:265-274 | apart from a lone resident, more residents never lower the odds for a given bounty |
| Grid.GetAge | src/world.rs:350-353 | an age is at most the current day |
| Store.SpawnPersonAt | src/world.rs:132-141 | spawning issues the next id, `entities + 1`, and keeps every vector at full length |
| Store.Initial | src/world.rs:25-52 | the new world has full-length vectors, no entities, an empty spatial index and every slot blank |
| Store.CreateEntity | src/world.rs:54-57 | the counter grows by one; IssuedIdsIncrease shows the ids it issues |
| Store.MoveToPosition | src/world.rs:88-103 | move to the encoded cell; MoveToPositionMovesOne and MoveToPositionValid state its effect |
| Store.Die | src/world.rs:59-75 | `die` on a snapshot; DieTearsDown, DieFrame, DieValid and DieIdempotent state its effect |
| Store.SpawnPerson | src/world.rs:132-141 | `spawn_person` at the encoded cell; SpawnPersonInstalls and SpawnPersonValid state its effect |
| Store.InitialValid | src/world.rs:25-52 | the new world satisfies every invariant and has no entities |
| Store.NextIdIsFresh | src/world.rs:54-57 | the next id has a blank slot, is in no cell, and is nobody's mate, child or parent |
| Store.IssuedIdsIncrease | src/world.rs:54-57 | `n` creations issue `entities+1, …, entities+n`: strictly increasing, never reused, never 0 |
| Store.SetPositionPlaces | src/world.rs:105-109 | placing an entity in no cell records the cell and makes it a resident of that cell only |
| Store.MoveToPositionValid | src/world.rs:88-103 | moving an issued entity keeps every invariant |
| Store.MoveToPositionMovesOne | src/world.rs:88-103 | the mover lives in the target cell and nowhere else; no other position changes; only its old and new cells change membership |
| Store.MoveToCellZero | src/world.rs:88-103 | moving to cell 0 makes 0 a key of the spatial index whose resident has position 0, and keeps every invariant |
| Store.MovingTheDeadPlacesThem | src/world.rs:88-103 | a dead entity that is moved re-enters the spatial index and stays dead |
| Store.MatedIsIssued | src/world.rs:16 | under mate symmetry, only an issued id has a mate |
| Store.DieValid | src/world.rs:59-75 | `die` keeps every invariant, mate symmetry included |
| Store.DieTearsDown | src/world.rs:59-75 | after `die`, the entity is in no cell and has no position, life, fertility, pregnancy or mate; the former mate has no mate; human, sex and spawn-date entries are untouched |
| Store.DieFrame | src/world.rs:59-75 | `die` changes no other entity's position, life, fertility or pregnancy; it changes no mate entry but the entity's and its mate's, and none at all without a mate; it removes the entity, and no one else, from the resident sets |
| Store.DieIdempotent | src/world.rs:59-75 | a second `die` of the same entity changes nothing |
| Store.SpawnPersonInstalls | src/world.rs:132-141 | the new id is a live human with the given spawn date and exactly one sex ("male" or else female); it has an empty children set and is a resident of the encoded cell; no other entity changes |
| Store.SpawnPersonValid | src/world.rs:132-141 | spawning with a spawn date not in the future keeps every invariant |
| Store.SpawningKeepsIds | src/world.rs:133-138 | spawning fills exactly the next blank slot, and every age stays defined |
| Store.PlacingFreshKeepsSpatial | src/world.rs:133-134 | placing the freshly created id keeps the spatial index consistent |
| Store.RosterIssued | src/world.rs:15 | the residents listed for a cell are distinct, issued, and positioned in that cell |
| Lifecycle.AdvanceDay | src/world.rs:246-248 | one more day; AdvanceDayValid states its effect |
| Lifecycle.Fertility | src/world.rs:175-190 | `fertility_system` on a snapshot; FertilityValid states its effect |
| Lifecycle.Conception | src/world.rs:192-204 | `conception_system` on a snapshot; ConceptionValid states its effect |
| Lifecycle.AverageHumanAge | src/world.rs:309-327 | the truncated mean age of the humans, or 0 without any; AverageHumanAgeBetween bounds it |
| Lifecycle.AdvanceDayValid | src/world.rs:246-248 | the day step keeps every invariant and makes every entity exactly one day older |
| Lifecycle.FertilityValid | src/world.rs:175-190 | fertility keeps every invariant and changes only `fertile`; the flag changes exactly for human, non-fertile, non-pregnant females aged 14–50 years whose draw succeeds; no flag is cleared |
| Lifecycle.ConceptionValid | src/world.rs:192-204 | conception keeps every invariant and changes only `pregnant` and `fertile`; a pregnancy starts exactly for fertile mated human females, not pregnant, whose draw succeeds; the due day is 260–300 days ahead and fertility is cleared |
| Lifecycle.DeathsUpTo | src/world.rs:228-244 | the deaths of the ids below `n` keep every invariant and change only residents, positions, lives, fertility, pregnancy and mates |
| Lifecycle.DieKeepsTornDown | src/world.rs:239 | a later death never undoes an earlier one's tear-down |
| Lifecycle.DeathsUpToSpare | src/world.rs:228-244 | an entity that was not killed keeps its position, life, fertility and pregnancy; each mate link is either the old one or cut; a link between two spared entities is kept |
| Lifecycle.SparedCoupleKept | src/world.rs:239 | one death keeps the link of every entity spared together with its original mate |
| Lifecycle.DeathsUpToTearDown | src/world.rs:228-244 | every human whose draw succeeded ends up torn down, and so does the link of the mate it had at the start |
| Lifecycle.KilledNowTornDown | src/world.rs:233-240 | the death of `v` after those below it tears `v` down together with its original mate link |
| Lifecycle.TotalAgeAtMost | src/world.rs:313-316 | the age total is at most the oldest age times the human count |
| Lifecycle.TotalAgeAtLeast | src/world.rs:313-316 | the age total is at least the youngest age times the human count |
| Lifecycle.AverageHumanAgeBetween | src/world.rs:309-327 | with at least one human, the truncated mean age lies between the youngest and the oldest human age |
| Lifecycle.DeathKeepsHumanCount | src/world.rs:233-239 | deaths leave the human count and the mean age unchanged, because the dead stay flagged human |
| Birth.Deliver | src/world.rs:211-223 | one delivery issues exactly one id and keeps the day, the width and every mate link |
| Birth.DeliverDecodesMotherId | src/world.rs:216-217 | the decode-then-encode of the mother's id yields that id, so the child is placed on the cell numbered like its mother's id |
| Birth.DueIsIssued | src/world.rs:211 | a due entity is an issued id other than 0 |
| Birth.ClearPregnancyValid | src/world.rs:213 | clearing a pregnancy keeps every invariant |
| Birth.RecordLineageValid | src/world.rs:218-223 | recording the lineage of issued ids keeps every invariant |
| Birth.DeliverEffects | src/world.rs:211-223 | the child is the next id: a live human born today, male exactly on heads, in the mother's children set, with parents `[mother, mate]`; the mother is no longer pregnant; a mate's set gains the mate's own id; no mate link changes |
| Birth.DeliverFrame | src/world.rs:211-223 | a delivery changes no other pregnancy; it changes no other entity's human flag, sex flags, life, fertility, position or spawn date; it drops no recorded parent pair or children-set member |
| Birth.BirthsUpToFrame | src/world.rs:206-226 | the births leave every id issued before them with the same human flag, sex flags, life, fertility, position and spawn date; they drop no recorded parent pair or children-set member |
| Birth.RecordLineageKeeps | src/world.rs:218-223 | recording a new child's lineage changes only the lineage maps and drops nothing already recorded |
| Birth.DeliverValid | src/world.rs:211-223 | a delivery by a due mother keeps every invariant |
| Birth.BirthsUpTo | src/world.rs:206-226 | the births below `n` issue exactly one id per due mother and keep the day, the width and all mates |
| Birth.BirthsUpToValid | src/world.rs:206-226 | the births keep every invariant; they leave the pregnancy and due status of every later id as at the start, so the loop decides dueness on the starting state |
| Birth.DeliverKeepsLaterDue | src/world.rs:209-225 | one delivery keeps every invariant and changes no later id's pregnancy or due status |
| Birth.BirthsUpToDelivers | src/world.rs:206-226 | every due mother delivers a child whose id comes after the ids issued before and the children of earlier due mothers; the child is a live human, male on heads and female on tails, with today's date, a place in her children set and `[mother, mate]` as parents |
| Birth.DeliversStep | src/world.rs:209-225 | the delivery by the next due mother keeps what earlier deliveries established and adds hers |
| Birth.BirthsUpToClearsDue | src/world.rs:211-213 | after the births, a pregnancy is cleared exactly when its mother was due |
| Birth.DeliveredKept | src/world.rs:209-225 | a later delivery keeps everything an earlier one left |
| Matchmaker.Singles | src/world.rs:149-157 | the filtered list holds valid indices and is no longer than the residents |
| Matchmaker.Link | src/world.rs:168-169 | writing one directed pair sets exactly the two entries involved |
| Matchmaker.Wed | src/world.rs:162-170 | wedding the pairs keeps the mates vector at full length |
| Matchmaker.MatchCell | src/world.rs:144-171 | matching one cell changes only `mates` |
| Matchmaker.MatchUpTo | src/world.rs:143-173 | matching the first `n` cells changes only `mates` |
| Matchmaker.MatchAllCells | src/world.rs:143-173 | `matchmaker_system` changes only `mates`; MatchUpToValid states the rest |
| Matchmaker.ChainedMatches | src/world.rs:144-172 | a chain of states, one cell after another, ends in the state after matching those cells |
| Matchmaker.MatchUpToNext | src/world.rs:144-172 | matching one more cell extends the matching of the cells before it |
| Matchmaker.SinglesMembers | src/world.rs:149-157 | an id is a bachelor (spinster) exactly when it is a resident, unmated, human, at least 16 years old and male (not male) |
| Matchmaker.SinglesDistinct | src/world.rs:149-157 | the bachelor and spinster lists have no repeated ids |
| Matchmaker.ZipMatching | src/world.rs:162-163 | the zipped pairs form a matching: no id in two pairs, and no id on both sides |
| Matchmaker.WedLinks | src/world.rs:162-170 | wedding a matching of unmated ids keeps mate symmetry; an accepted pair ends up linked both ways, a rejected one stays unmated, and every other id keeps its mate |
| Matchmaker.LinkSymmetric | src/world.rs:167-170 | linking two unmated issued ids both ways keeps mate symmetry |
| Matchmaker.CellPairsEligible | src/world.rs:145-163 | every zipped pair joins a marriageable male resident with a marriageable non-male resident, both issued and in the same cell |
| Matchmaker.MatchCellPairs | src/world.rs:162-170 | the i-th bachelor weds the i-th spinster exactly when both exist and the coin accepts; everyone else in the lists stays single |
| Matchmaker.NotPaired | src/world.rs:162-163 | a bachelor or spinster beyond the length of the other list is in no pair |
| Matchmaker.MatchCellValid | src/world.rs:144-171 | one cell keeps every invariant; each changed mate was marriageable and is wed to a marriageable partner of the other sex in the same cell |
| Matchmaker.PairWedded | src/world.rs:167-170 | a linked pair of marriageable cell-mates of opposite sex is a match for both |
| Matchmaker.MatchUpToValid | src/world.rs:143-173 | the matchmaker keeps every invariant; every changed mate entry is a new match made today; existing couples are never split |
| Matchmaker.EnumeratedBelow | src/world.rs:144 | the listed residents of every cell are valid indices |
| Matchmaker.MatchesCompose | src/world.rs:143-173 | matches made over two rounds are matches against the state before both |
| Movement.NotUSize | src/world.rs:291 | the complement of a `usize` is zero exactly for the largest value |
| Movement.KidMoves | src/world.rs:285-287 | one move per listed child, in order, all to the shared target |
| Movement.CellOdds | src/world.rs:257-274 | a cell's odds lie in 1..90 hundredths |
| Movement.Bounty | src/world.rs:260-263 | a cell's bounty is `forages` at its first listed resident's id, or 1 without residents |
| Movement.GroupMoves | src/world.rs:279-298 | a mover's moves; FamilyMovesTogether and GroupIssued state their content |
| Movement.LoopMoves | src/world.rs:277-300 | one loop of a cell; GroupInLoop and LoopMovesOnlyPassing state its content in both directions, LoopIssued and LoopDiagonal its ids and targets |
| Movement.CellMoves | src/world.rs:255-300 | the families' moves, then the singles'; CellMovesOnlyPassing and CellMovesDiagonal state who moves and where |
| Movement.AllMoves | src/world.rs:252-301 | the moves of all cells in visiting order; AllMovesIssued, AllMovesOnlyPassing and AllMovesFlatten state their content |
| Movement.MoveSystem | src/world.rs:250-307 | plan, then apply; MoveSystemValid and ApplyMovesPositions state its effect |
| Movement.ApplyMoves | src/world.rs:304-306 | applying moves changes only positions and resident sets |
| Movement.AllMovesFlatten | src/world.rs:255-301 | the per-cell move lists, concatenated in visiting order, are the moves of those cells |
| Movement.SinglesIgnoreMates | src/world.rs:291 | an entity passes the singles filter exactly when it is a human aged 14 years or more, whatever its mate |
| Movement.GroupIssued | src/world.rs:279-298 | a mover's group (itself, its mate, its children) lists issued ids only |
| Movement.LoopIssued | src/world.rs:277-300 | one loop of a cell lists issued ids only |
| Movement.AllMovesIssued | src/world.rs:255-301 | every planned move names an issued id |
| Movement.BucketsIssued | src/world.rs:255 | every listed resident is an issued id |
| Movement.ApplyMovesValid | src/world.rs:304-306 | applying moves of issued ids keeps every invariant |
| Movement.ApplyMovesPositions | src/world.rs:304-306 | each entity ends in the cell of its last listed move; an unlisted entity keeps its position |
| Movement.MoveSystemValid | src/world.rs:250-307 | `move_system` keeps every invariant and changes only positions and resident sets |
| Movement.FamilyMovesTogether | src/world.rs:277-289 | a family head that passes its roll lists itself, its mate and every child, all with one target a diagonal step from its cell |
| Movement.GroupInLoop | src/world.rs:277-300 | the group of a candidate that passes its roll is among its loop's moves |
| Movement.LoopMovesOnlyPassing | src/world.rs:277-300 | conversely, every move a loop lists belongs to the group of a resident that passed the loop's filter and its roll |
| Movement.CellMovesOnlyPassing | src/world.rs:255-300 | every move a cell lists belongs to the group of a resident that passed the filter and the roll of one of the two loops |
| Movement.AllMovesOnlyPassing | src/world.rs:252-301 | every planned move belongs to the group of a resident of a visited cell that passed a loop's filter and roll; with ApplyMovesPositions, everyone else keeps their position |
| Movement.FamilyGroup | src/world.rs:279-289 | a family head's group lists itself, its mate and every child with one target a diagonal step from the cell |
| Movement.HeadGroupInCell | src/world.rs:277-289 | a passing family head's group is among its cell's moves |
| Movement.CellMovesDiagonal | src/world.rs:255-301 | every move a cell lists targets a diagonal neighbour of that cell (coordinate ±1 on each axis, wrapping) |
| Movement.LoopDiagonal | src/world.rs:277-300 | every move of one loop targets a diagonal neighbour of the cell |
| Sim.ForageCount | src/world.rs:26-31 | `new` draws `height * width` bounties when the grid size does not overflow, and fewer than 2^64 in any case |
| Sim.World.constructor | src/world.rs:25-52 | the new world is the initial snapshot with the drawn bounties; it is valid and has no entities |
| Sim.World.CreateEntity | src/world.rs:54-57 | the counter grows by one and the new counter is the returned id |
| Sim.World.Die | src/world.rs:59-75 | the fields become `Die` of the old state, and a valid world stays valid |
| Sim.World.LeaveCell | src/world.rs:60-65 | the entity leaves its cell's resident set, if that cell has one, and its position is reset |
| Sim.World.ResetFlags | src/world.rs:66-68 | life, fertility and pregnancy of the entity are cleared; nothing else changes |
| Sim.World.Unlink | src/world.rs:70-74 | both mate entries are cleared; nothing else changes |
| Sim.World.MoveToPosition | src/world.rs:88-103 | the fields become `MoveToPosition` of the old state; a valid world stays valid when an issued id moves |
| Sim.World.SetPosition | src/world.rs:105-109 | the fields become `SetPosition` of the old state |
| Sim.World.SetLife | src/world.rs:111-113 | only the entity's life flag is set |
| Sim.World.SetHuman | src/world.rs:115-117 | only the entity's human flag is set |
| Sim.World.SetAge | src/world.rs:119-121 | only the entity's spawn date is set |
| Sim.World.SetSex | src/world.rs:123-130 | "male" sets only the male flag; any other string sets only the female flag |
| Sim.World.SpawnPerson | src/world.rs:132-141 | state and returned id are those of `SpawnPerson` on the old state; a valid world stays valid when the spawn date is not in the future |
| Sim.World.TimeSystem | src/world.rs:246-248 | the day advances by one and the world stays valid |
| Sim.World.FertilitySystem | src/world.rs:175-190 | the fields become `Fertility` of the old state under the draws, and the world stays valid |
| Sim.World.MarkFertile | src/world.rs:179-189 | the loop over all slots produces `Fertility` of the old state |
| Sim.World.ConceptionSystem | src/world.rs:192-204 | the fields become `Conception` of the old state under the draws, and the world stays valid |
| Sim.World.Conceive | src/world.rs:195-203 | the loop over all slots produces `Conception` of the old state |
| Sim.World.StartPregnancy | src/world.rs:199-200 | the due day is recorded and fertility cleared for one entity; nothing else changes |
| Sim.World.BirthSystem | src/world.rs:206-226 | the fields become `BirthsUpTo` of the old state over every slot, and the world stays valid |
| Sim.World.GiveBirth | src/world.rs:211-223 | clear the pregnancy, spawn at the cell decoded from the mother's id, then record the lineage |
| Sim.World.RecordBirth | src/world.rs:218-223 | the lineage maps become `RecordLineage` of the old state |
| Sim.World.DeathSystem | src/world.rs:228-244 | the fields become `DeathsUpTo` of the old state over every slot, and the world stays valid |
| Sim.World.MatchmakerSystem | src/world.rs:143-173 | the fields become `MatchAllCells` of the old state in the given visiting order, and the world stays valid |
| Sim.World.MatchCells | src/world.rs:144-172 | the loop over the listed cells produces `MatchUpTo` over all of them |
| Sim.World.MatchNextCell | src/world.rs:144-172 | one more cell extends the chain of states by the state after matching it |
| Sim.World.MatchCellOf | src/world.rs:145-171 | the fields become `MatchCell` of the old state for that cell |
| Sim.World.SortSingles | src/world.rs:145-157 | the two lists are the bachelors and the spinsters of the cell, in its order |
| Sim.World.WedPairs | src/world.rs:162-170 | only `mates` changes; it becomes the wedding of the zipped lists under the coins |
| Sim.World.PlanGroup | src/world.rs:279-298 | the returned moves are the group of the mover |
| Sim.World.PlanCell | src/world.rs:257-300 | the returned moves are those of the cell: families first, then singles |
| Sim.World.PlanFamilies | src/world.rs:277-289 | the returned moves are those of the family loop |
| Sim.World.PlanSingles | src/world.rs:291-300 | the returned moves are those of the singles loop |
| Sim.World.ApplyMoves | src/world.rs:304-306 | applying the listed moves in order produces `ApplyMoves` of the old state, and the world stays valid |
| Sim.World.MoveSystem | src/world.rs:250-307 | the fields become the old state with every planned move applied, and the world stays valid |
| Sim.World.PlanMoves | src/world.rs:252-301 | the returned list is the moves of every cell in visiting order |
| Sim.World.PlanNextCell | src/world.rs:255-301 | one more cell appends that cell's moves, and the per-cell record stays accurate |

## Left out

- Floating-point probabilities are not modelled. This covers `gen_bool(p)`
  and `calculate_death_probability` (src/world.rs:330-348), whose exp/ln
  arithmetic would need floats. Each draw is an outcome parameter instead.
- The move odds are integer hundredths compared with a percentile roll,
  rather than an `f64` passed to `gen_bool`.
- The random number generator itself is not modelled. `thread_rng`, the
  forage bounties drawn by `new`, and every `gen_bool`/`gen_range` become
  parameters.
- The iteration order of `HashMap` and `HashSet` is a parameter, constrained
  to list exactly the members.
- `src/main.rs` and `src/components.rs` are not part of this model.
- The matchmaker's coin is keyed by the bachelor of the pair, not drawn in
  sequence. Within one run an entity is offered in at most one pair, so this
  loses no outcome.
- Sim.World.MoveSystem: requires the first resident of every cell to have a
  `forages` entry. With a larger id, `self.forages[*e]` panics, and a panic
  is not modelled.
- Movement.GroupMoves: does not model the panic of `self.children[entity]`
  for an entity without a children set. Every issued id has one under the
  invariant, so it cannot occur.
- Grid.GetAge: requires the birthday not to lie after the day. A later
  birthday would make the `usize` subtraction panic or wrap. The invariant
  guarantees it for every spawned entity, and a caller passing a later date
  to `spawn_person` is excluded by `Store.SpawnPersonValid`'s requires.
- Sim.World.BirthSystem: requires the births to leave the last issued id
  inside the 65535-slot vectors, where indexing past them would panic. It
  also requires a non-zero width when some mother is due, because
  `index_to_xy` divides by it.
- `average_human_age` is modelled as `Lifecycle.AverageHumanAge` on the
  snapshot, with its bounds lemma, rather than as a loop in the class.
  Its `usize` sum cannot overflow for 65535 ages below 2^48 days, and that
  overflow is not modelled.
- Integer overflow of `day`, `entities` and the due day `day + gestation` is
  not modelled. These are unbounded naturals; the source's `usize` would need
  over 2^64 days.
