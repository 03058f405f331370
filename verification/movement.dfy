/** `move_system`: every cell decides the odds of moving from its head count
    and a forage bounty; families (a male human with a mate) and singles
    (adult humans, see `SingleMover`) draw against those odds, and a mover
    lists itself, its mate (families only) and its children with one shared
    diagonal target. Only when every cell is done are the listed moves
    applied, in order, with `move_to_position`.

    The random draws are parameters: `roll(e, family)` is a percentile in
    0..99 and the draw succeeds when it is below the cell's odds (which is
    how a `gen_bool` with that probability behaves); `coins(e, family)` are
    the coin flips of the target's `generate_random_move`. `family` tells the
    two loops apart, since a family head can be drawn in both. `kids(e)` is
    the iteration order of the children set of `e`. */
module Movement {
  import opened Grid
  import opened Store

  /** The age, in days, from which a human moves on its own. */
  const ADULT_AGE: nat := 14 * YEAR

  /** A listed move: the entity and its `i32` target coordinates. */
  datatype Move = Move(entity: nat, x: I32, y: I32)

  /** The random draws of one run. */
  datatype Draws = Draws(roll: (nat, bool) -> nat, coins: (nat, bool) -> StepCoins)

  /** `!v` on a `usize`: the bitwise complement. It is zero only for the
      largest value. */
  function NotUSize(v: USize): (r: USize)
    ensures r == 0 <==> v == USIZE - 1
  {
    USIZE - 1 - v
  }

  /** The family filter: a male human with a mate. */
  ghost predicate FamilyHead(s: Snapshot, e: nat)
    requires Shaped(s) && e < CAPACITY
  {
    s.humans[e] && s.males[e] && s.mates[e] != 0
  }

  /** The singles filter as written: a human whose complemented mate id is
      non-zero, aged fourteen years or more. */
  ghost predicate SingleMover(s: Snapshot, e: nat)
    requires Shaped(s) && AgesDefined(s) && MatesSymmetric(s) && e < CAPACITY
  {
    s.humans[e] && NotUSize(s.mates[e]) != 0 && GetAge(s.day, s.spawnDates[e]) >= ADULT_AGE
  }

  /** The forage bounty of a cell: the `forages` entry indexed by its first
      listed resident, or 1 for a cell without residents. */
  ghost function Bounty(s: Snapshot, q: seq<nat>): nat
    requires |q| > 0 ==> q[0] < |s.forages|
  {
    if |q| == 0 then 1 else s.forages[q[0]]
  }

  /** The shared target of one mover, drawn from the cell `p`. */
  ghost function TargetOf(width: USize, p: USize, step: (I32, I32)): (t: (I32, I32))
    requires width > 0
  {
    var (x, y) := IndexToXy(width, p);
    (WrapI32(AsI32(x) + step.0), WrapI32(AsI32(y) + step.1))
  }

  /** The move of every listed child, in the order listed. */
  ghost function KidMoves(cs: seq<nat>, t: (I32, I32)): (r: seq<Move>)
    ensures |r| == |cs|
    ensures forall i :: 0 <= i < |cs| ==> r[i] == Move(cs[i], t.0, t.1)
  {
    if |cs| == 0 then [] else KidMoves(cs[..|cs| - 1], t) + [Move(cs[|cs| - 1], t.0, t.1)]
  }

  /** The moves a mover lists: itself, its mate when it is a family head
      with one, and its children. */
  ghost function GroupMoves(s: Snapshot, p: USize, e: nat, family: bool, draws: Draws, kids: nat -> seq<nat>): seq<Move>
    requires Shaped(s) && s.worldWidth > 0 && e < CAPACITY
  {
    var t := TargetOf(s.worldWidth, p, GenerateRandomMove(IndexToXy(s.worldWidth, p).0, IndexToXy(s.worldWidth, p).1, draws.coins(e, family)));
    [Move(e, t.0, t.1)] +
    (if family && s.mates[e] != 0 then [Move(s.mates[e], t.0, t.1)] else []) +
    KidMoves(kids(e), t)
  }

  /** Whether `e` passes the filter of the loop `family`. */
  ghost predicate Candidate(s: Snapshot, e: nat, family: bool)
    requires Shaped(s) && AgesDefined(s) && MatesSymmetric(s) && e < CAPACITY
  {
    if family then FamilyHead(s, e) else SingleMover(s, e)
  }

  /** One of the two loops of a cell over the residents listed in `q`, with
      the cell's odds `pct` in hundredths. */
  ghost function LoopMoves(s: Snapshot, p: USize, q: seq<nat>, pct: nat, family: bool, draws: Draws, kids: nat -> seq<nat>): seq<Move>
    requires Shaped(s) && AgesDefined(s) && MatesSymmetric(s) && s.worldWidth > 0 && Below(q)
  {
    if |q| == 0 then []
    else
      var e := q[|q| - 1];
      LoopMoves(s, p, q[..|q| - 1], pct, family, draws, kids) +
      (if Candidate(s, e, family) && draws.roll(e, family) < pct then GroupMoves(s, p, e, family, draws, kids) else [])
  }

  /** The odds of moving in a cell whose residents are listed in `q`. */
  ghost function CellOdds(s: Snapshot, q: seq<nat>): (pct: nat)
    requires |q| > 0 ==> q[0] < |s.forages|
    ensures 1 <= pct <= 90
  {
    MovePercent(|q|, Bounty(s, q))
  }

  /** The moves a cell lists: the families first, then the singles. */
  ghost function CellMoves(s: Snapshot, p: USize, q: seq<nat>, draws: Draws, kids: nat -> seq<nat>): seq<Move>
    requires Shaped(s) && AgesDefined(s) && MatesSymmetric(s) && s.worldWidth > 0 && Below(q)
    requires |q| > 0 ==> q[0] < |s.forages|
  {
    var pct := CellOdds(s, q);
    LoopMoves(s, p, q, pct, true, draws, kids) + LoopMoves(s, p, q, pct, false, draws, kids)
  }

  /** The first resident listed in every cell has a `forages` entry. */
  ghost predicate Bounties(s: Snapshot, buckets: seq<seq<nat>>)
  {
    forall i :: 0 <= i < |buckets| && |buckets[i]| > 0 ==> buckets[i][0] < |s.forages|
  }

  /** What listing the moves of the cells `keys`, with residents `buckets`,
      needs: a decodable grid, valid resident indices and a bounty per cell. */
  ghost predicate Plannable(s: Snapshot, keys: seq<USize>, buckets: seq<seq<nat>>)
  {
    Shaped(s) && AgesDefined(s) && MatesSymmetric(s) && s.worldWidth > 0 &&
    |keys| == |buckets| && Bounties(s, buckets) &&
    forall i :: 0 <= i < |buckets| ==> Below(buckets[i])
  }

  /** The moves listed by the first `n` cells, in visiting order. */
  ghost function AllMoves(s: Snapshot, keys: seq<USize>, buckets: seq<seq<nat>>, draws: Draws, kids: nat -> seq<nat>, n: nat): seq<Move>
    requires Plannable(s, keys, buckets) && n <= |keys|
  {
    if n == 0 then []
    else AllMoves(s, keys, buckets, draws, kids, n - 1) + CellMoves(s, keys[n - 1], buckets[n - 1], draws, kids)
  }

  /** The lists of several cells, one after the other. */
  ghost function Flatten(cells: seq<seq<Move>>): seq<Move>
  {
    if |cells| == 0 then [] else Flatten(cells[..|cells| - 1]) + cells[|cells| - 1]
  }

  /** Flattening one more list appends it. */
  lemma FlattenStep(cells: seq<seq<Move>>, c: seq<Move>)
    ensures Flatten(cells + [c]) == Flatten(cells) + c
  {
    assert (cells + [c])[..|cells|] == cells;
  }

  /** `cells[i]` holds the moves of the cell `keys[i]`, for each cell
      planned so far. */
  ghost predicate Planned(s: Snapshot, keys: seq<USize>, buckets: seq<seq<nat>>, draws: Draws, kids: nat -> seq<nat>, cells: seq<seq<Move>>)
  {
    Plannable(s, keys, buckets) && |cells| <= |keys| &&
    forall i :: 0 <= i < |cells| ==> cells[i] == CellMoves(s, keys[i], buckets[i], draws, kids)
  }

  /** The lists of the first cells, flattened, are the moves those cells
      list. */
  lemma {:induction false} AllMovesFlatten(s: Snapshot, keys: seq<USize>, buckets: seq<seq<nat>>, draws: Draws, kids: nat -> seq<nat>, cells: seq<seq<Move>>)
    requires Planned(s, keys, buckets, draws, kids, cells)
    ensures AllMoves(s, keys, buckets, draws, kids, |cells|) == Flatten(cells)
  {
    if |cells| > 0 {
      AllMovesFlatten(s, keys, buckets, draws, kids, cells[..|cells| - 1]);
    }
  }

  /** Every listed entity is a valid index. */
  ghost predicate MovesBelow(moves: seq<Move>)
  {
    forall i :: 0 <= i < |moves| ==> moves[i].entity < CAPACITY
  }

  /** The cell a listed move leads to: its coordinates cast to `usize`, then
      encoded. */
  ghost function Target(width: USize, mv: Move): USize
  {
    XyToIndex(width, AsUSize(mv.x), AsUSize(mv.y))
  }

  /** The second loop: apply the listed moves in order. */
  ghost function ApplyMoves(s: Snapshot, moves: seq<Move>): (r: Snapshot)
    requires Shaped(s) && MovesBelow(moves)
    ensures Shaped(r) && r == s.(positions := r.positions, residents := r.residents)
  {
    if |moves| == 0 then s
    else
      var mv := moves[|moves| - 1];
      MoveTo(ApplyMoves(s, moves[..|moves| - 1]), mv.entity, Target(s.worldWidth, mv))
  }

  /** `move_system`: list the moves of every cell, then apply them. */
  ghost function MoveSystem(s: Snapshot, keys: seq<USize>, buckets: seq<seq<nat>>, draws: Draws, kids: nat -> seq<nat>): Snapshot
    requires Plannable(s, keys, buckets)
    requires MovesBelow(AllMoves(s, keys, buckets, draws, kids, |keys|))
  {
    ApplyMoves(s, AllMoves(s, keys, buckets, draws, kids, |keys|))
  }

  /** The cell where the last listed move of `e` leads, or `current` when
      `e` is not listed. */
  ghost function FinalCell(width: USize, moves: seq<Move>, e: nat, current: USize): USize
  {
    if |moves| == 0 then current
    else if moves[|moves| - 1].entity == e then Target(width, moves[|moves| - 1])
    else FinalCell(width, moves[..|moves| - 1], e, current)
  }

  // ---------------------------------------------------------------------
  // Lemmas
  // ---------------------------------------------------------------------

  /** `kids(e)` lists the children set of `e`, for every entity that has
      one. */
  ghost predicate ChildOrders(s: Snapshot, kids: nat -> seq<nat>)
  {
    forall e :: e in s.children ==> Lists(kids(e), s.children[e])
  }

  /** The singles filter as written ignores mates: under mate symmetry a
      mate id is never the largest `usize`, so married adults are drawn as
      singles as well. */
  lemma SinglesIgnoreMates(s: Snapshot, e: nat)
    requires Shaped(s) && AgesDefined(s) && MatesSymmetric(s) && e < CAPACITY
    ensures SingleMover(s, e) <==> s.humans[e] && GetAge(s.day, s.spawnDates[e]) >= ADULT_AGE
  {
  }

  /** Every listed entity is an issued id: a resident, the mate of one, or a
      child of one. */
  ghost predicate MovesIssued(s: Snapshot, moves: seq<Move>)
  {
    forall i :: 0 <= i < |moves| ==> 1 <= moves[i].entity <= s.entities && moves[i].entity < CAPACITY
  }

  /** A mover's group lists issued ids only. */
  lemma GroupIssued(s: Snapshot, p: USize, e: nat, family: bool, draws: Draws, kids: nat -> seq<nat>)
    requires Inv(s) && ChildOrders(s, kids) && s.worldWidth > 0 && 1 <= e <= s.entities
    ensures MovesIssued(s, GroupMoves(s, p, e, family, draws, kids))
  {
    var cs := kids(e);
    assert e in s.children;
    forall i | 0 <= i < |cs| ensures 1 <= cs[i] <= s.entities {
      assert cs[i] in s.children[e];
    }
  }

  /** One loop of a cell lists issued ids only. */
  lemma {:induction false} LoopIssued(s: Snapshot, p: USize, q: seq<nat>, pct: nat, family: bool, draws: Draws, kids: nat -> seq<nat>)
    requires Inv(s) && ChildOrders(s, kids) && s.worldWidth > 0 && Below(q)
    requires forall i :: 0 <= i < |q| ==> 1 <= q[i] <= s.entities
    ensures MovesIssued(s, LoopMoves(s, p, q, pct, family, draws, kids))
  {
    if |q| > 0 {
      var e := q[|q| - 1];
      LoopIssued(s, p, q[..|q| - 1], pct, family, draws, kids);
      GroupIssued(s, p, e, family, draws, kids);
    }
  }

  /** Every cell lists issued ids only, so the whole list does. */
  lemma {:induction false} AllMovesIssued(s: Snapshot, keys: seq<USize>, buckets: seq<seq<nat>>, draws: Draws, kids: nat -> seq<nat>, n: nat)
    requires Inv(s) && ChildOrders(s, kids) && s.worldWidth > 0
    requires Rosters(s, keys, buckets) && n <= |keys| && Bounties(s, buckets)
    ensures forall i :: 0 <= i < |buckets| ==> Below(buckets[i])
    ensures MovesIssued(s, AllMoves(s, keys, buckets, draws, kids, n))
  {
    BucketsIssued(s, keys, buckets);
    if n > 0 {
      var q := buckets[n - 1];
      var pct := CellOdds(s, q);
      var before := AllMoves(s, keys, buckets, draws, kids, n - 1);
      var cell := CellMoves(s, keys[n - 1], q, draws, kids);
      assert MovesIssued(s, before) by {
        AllMovesIssued(s, keys, buckets, draws, kids, n - 1);
      }
      assert MovesIssued(s, cell) by {
        LoopIssued(s, keys[n - 1], q, pct, true, draws, kids);
        LoopIssued(s, keys[n - 1], q, pct, false, draws, kids);
        MovesIssuedAppend(s, LoopMoves(s, keys[n - 1], q, pct, true, draws, kids), LoopMoves(s, keys[n - 1], q, pct, false, draws, kids));
      }
      MovesIssuedAppend(s, before, cell);
    }
  }

  /** Two lists of issued moves, one after the other, are one. */
  lemma MovesIssuedAppend(s: Snapshot, a: seq<Move>, b: seq<Move>)
    requires MovesIssued(s, a) && MovesIssued(s, b)
    ensures MovesIssued(s, a + b)
  {
    forall i | 0 <= i < |a + b| ensures 1 <= (a + b)[i].entity <= s.entities && (a + b)[i].entity < CAPACITY {
      if i >= |a| {
        assert (a + b)[i] == b[i - |a|];
      }
    }
  }

  /** The residents listed for a cell are issued ids. */
  lemma BucketsIssued(s: Snapshot, keys: seq<USize>, buckets: seq<seq<nat>>)
    requires Inv(s) && Rosters(s, keys, buckets)
    ensures forall i :: 0 <= i < |buckets| ==> Below(buckets[i])
    ensures forall i, j :: 0 <= i < |buckets| && 0 <= j < |buckets[i]| ==> 1 <= buckets[i][j] <= s.entities
  {
    forall i | 0 <= i < |buckets| ensures Below(buckets[i]) {
      RosterIssued(s, keys[i], buckets[i]);
    }
    forall i, j | 0 <= i < |buckets| && 0 <= j < |buckets[i]|
      ensures 1 <= buckets[i][j] <= s.entities
    {
      RosterIssued(s, keys[i], buckets[i]);
      assert buckets[i][j] in buckets[i];
    }
  }

  /** Applying moves of issued ids keeps every invariant and changes only
      positions and resident sets. */
  lemma {:induction false} ApplyMovesValid(s: Snapshot, moves: seq<Move>)
    requires Inv(s) && MovesIssued(s, moves)
    ensures MovesBelow(moves)
    ensures Inv(ApplyMoves(s, moves))
  {
    if |moves| > 0 {
      var mv := moves[|moves| - 1];
      var prefix := moves[..|moves| - 1];
      assert MovesIssued(s, prefix);
      ApplyMovesValid(s, prefix);
      var t := ApplyMoves(s, prefix);
      MoveToPositionValid(t, mv.entity, Target(s.worldWidth, mv));
    }
  }

  /** After the moves are applied, every entity sits in the cell of its
      last listed move, and an entity that was not listed keeps its
      position. */
  lemma {:induction false} ApplyMovesPositions(s: Snapshot, moves: seq<Move>, e: nat)
    requires Shaped(s) && MovesBelow(moves) && e < CAPACITY
    ensures ApplyMoves(s, moves).positions[e] == FinalCell(s.worldWidth, moves, e, s.positions[e])
  {
    if |moves| > 0 {
      var prefix := moves[..|moves| - 1];
      assert MovesBelow(prefix);
      ApplyMovesPositions(s, prefix, e);
    }
  }

  /** `move_system` keeps every invariant and changes only positions and
      resident sets. */
  lemma MoveSystemValid(s: Snapshot, keys: seq<USize>, buckets: seq<seq<nat>>, draws: Draws, kids: nat -> seq<nat>)
    requires Inv(s) && ChildOrders(s, kids) && s.worldWidth > 0
    requires Enumerates(s, keys, buckets) && Bounties(s, buckets)
    ensures forall i :: 0 <= i < |buckets| ==> Below(buckets[i])
    ensures MovesBelow(AllMoves(s, keys, buckets, draws, kids, |keys|))
    ensures var r := MoveSystem(s, keys, buckets, draws, kids);
      Inv(r) && r == s.(positions := r.positions, residents := r.residents)
  {
    AllMovesIssued(s, keys, buckets, draws, kids, |keys|);
    ApplyMovesValid(s, AllMoves(s, keys, buckets, draws, kids, |keys|));
  }

  /** Both target coordinates are one step from the mover's cell: the
      decoded coordinate plus or minus one, as a wrapping `i32`. */
  ghost predicate Diagonal(width: USize, p: USize, t: (I32, I32))
    requires width > 0
  {
    var (x, y) := IndexToXy(width, p);
    (t.0 == WrapI32(AsI32(x) + 1) || t.0 == WrapI32(AsI32(x) - 1)) &&
    (t.1 == WrapI32(AsI32(y) + 1) || t.1 == WrapI32(AsI32(y) - 1))
  }

  /** A family head that passes its draw lists itself, its mate and every
      child, all with the same target one diagonal step from its cell. */
  lemma FamilyMovesTogether(s: Snapshot, p: USize, q: seq<nat>, i: nat, draws: Draws, kids: nat -> seq<nat>)
    requires Shaped(s) && AgesDefined(s) && MatesSymmetric(s) && s.worldWidth > 0 && Below(q)
    requires |q| > 0 ==> q[0] < |s.forages|
    requires i < |q| && FamilyHead(s, q[i]) && draws.roll(q[i], true) < CellOdds(s, q)
    ensures var e, moves := q[i], CellMoves(s, p, q, draws, kids);
      exists t :: Diagonal(s.worldWidth, p, t) &&
        Move(e, t.0, t.1) in moves && Move(s.mates[e], t.0, t.1) in moves &&
        forall c :: c in kids(e) ==> Move(c, t.0, t.1) in moves
  {
    var e := q[i];
    var t := TargetOf(s.worldWidth, p, GenerateRandomMove(IndexToXy(s.worldWidth, p).0, IndexToXy(s.worldWidth, p).1, draws.coins(e, true)));
    var group := GroupMoves(s, p, e, true, draws, kids);
    var moves := CellMoves(s, p, q, draws, kids);
    FamilyGroup(s, p, e, draws, kids);
    HeadGroupInCell(s, p, q, i, draws, kids);
    assert Move(e, t.0, t.1) in moves && Move(s.mates[e], t.0, t.1) in moves;
  }

  /** A family head's group: itself, its mate and every child, all with one
      target a diagonal step from the cell. */
  lemma FamilyGroup(s: Snapshot, p: USize, e: nat, draws: Draws, kids: nat -> seq<nat>)
    requires Shaped(s) && s.worldWidth > 0 && e < CAPACITY && s.mates[e] != 0
    ensures var t := TargetOf(s.worldWidth, p, GenerateRandomMove(IndexToXy(s.worldWidth, p).0, IndexToXy(s.worldWidth, p).1, draws.coins(e, true)));
      var group := GroupMoves(s, p, e, true, draws, kids);
      Diagonal(s.worldWidth, p, t) && Move(e, t.0, t.1) in group && Move(s.mates[e], t.0, t.1) in group &&
      forall c :: c in kids(e) ==> Move(c, t.0, t.1) in group
  {
    var (x, y) := IndexToXy(s.worldWidth, p);
    var t := TargetOf(s.worldWidth, p, GenerateRandomMove(x, y, draws.coins(e, true)));
    var group := GroupMoves(s, p, e, true, draws, kids);
    assert group[0] == Move(e, t.0, t.1) && group[1] == Move(s.mates[e], t.0, t.1);
    forall c | c in kids(e) ensures Move(c, t.0, t.1) in group {
      var j :| 0 <= j < |kids(e)| && kids(e)[j] == c;
      assert group[2 + j] == Move(c, t.0, t.1);
    }
    assert Diagonal(s.worldWidth, p, t);
  }

  /** The group of a family head that passes its draw is part of its cell's
      moves. */
  lemma HeadGroupInCell(s: Snapshot, p: USize, q: seq<nat>, i: nat, draws: Draws, kids: nat -> seq<nat>)
    requires Shaped(s) && AgesDefined(s) && MatesSymmetric(s) && s.worldWidth > 0 && Below(q)
    requires |q| > 0 ==> q[0] < |s.forages|
    requires i < |q| && FamilyHead(s, q[i]) && draws.roll(q[i], true) < CellOdds(s, q)
    ensures forall mv :: mv in GroupMoves(s, p, q[i], true, draws, kids) ==> mv in CellMoves(s, p, q, draws, kids)
  {
    GroupInLoop(s, p, q, i, CellOdds(s, q), true, draws, kids);
  }

  /** The group of a candidate that passes its draw is part of its loop's
      moves. */
  lemma {:induction false} GroupInLoop(s: Snapshot, p: USize, q: seq<nat>, i: nat, pct: nat, family: bool, draws: Draws, kids: nat -> seq<nat>)
    requires Shaped(s) && AgesDefined(s) && MatesSymmetric(s) && s.worldWidth > 0 && Below(q)
    requires i < |q| && Candidate(s, q[i], family) && draws.roll(q[i], family) < pct
    ensures forall mv :: mv in GroupMoves(s, p, q[i], family, draws, kids) ==> mv in LoopMoves(s, p, q, pct, family, draws, kids)
  {
    if i < |q| - 1 {
      var prefix := q[..|q| - 1];
      assert prefix[i] == q[i];
      GroupInLoop(s, p, prefix, i, pct, family, draws, kids);
    }
  }

  /** Conversely, every move a loop lists belongs to the group of a
      candidate that passed its draw: nobody else is moved. */
  lemma {:induction false} LoopMovesOnlyPassing(s: Snapshot, p: USize, q: seq<nat>, pct: nat, family: bool, draws: Draws, kids: nat -> seq<nat>)
    requires Shaped(s) && AgesDefined(s) && MatesSymmetric(s) && s.worldWidth > 0 && Below(q)
    ensures forall mv :: mv in LoopMoves(s, p, q, pct, family, draws, kids) ==>
      exists i :: 0 <= i < |q| && Candidate(s, q[i], family) && draws.roll(q[i], family) < pct &&
        mv in GroupMoves(s, p, q[i], family, draws, kids)
  {
    if |q| > 0 {
      var prefix := q[..|q| - 1];
      LoopMovesOnlyPassing(s, p, prefix, pct, family, draws, kids);
      forall mv | mv in LoopMoves(s, p, q, pct, family, draws, kids)
        ensures exists i :: 0 <= i < |q| && Candidate(s, q[i], family) &&
                  draws.roll(q[i], family) < pct && mv in GroupMoves(s, p, q[i], family, draws, kids)
      {
        if mv in LoopMoves(s, p, prefix, pct, family, draws, kids) {
          var i :| 0 <= i < |prefix| && Candidate(s, prefix[i], family) && draws.roll(prefix[i], family) < pct &&
            mv in GroupMoves(s, p, prefix[i], family, draws, kids);
          assert q[i] == prefix[i];
        } else {
          assert mv in GroupMoves(s, p, q[|q| - 1], family, draws, kids);
        }
      }
    }
  }

  /** Every move a cell lists belongs to the group of a resident that passed
      the filter and the draw of one of the two loops. */
  lemma CellMovesOnlyPassing(s: Snapshot, p: USize, q: seq<nat>, draws: Draws, kids: nat -> seq<nat>)
    requires Shaped(s) && AgesDefined(s) && MatesSymmetric(s) && s.worldWidth > 0 && Below(q)
    requires |q| > 0 ==> q[0] < |s.forages|
    ensures forall mv :: mv in CellMoves(s, p, q, draws, kids) ==>
      exists family: bool, i :: 0 <= i < |q| && Candidate(s, q[i], family) && draws.roll(q[i], family) < CellOdds(s, q) &&
        mv in GroupMoves(s, p, q[i], family, draws, kids)
  {
    var pct := CellOdds(s, q);
    LoopMovesOnlyPassing(s, p, q, pct, true, draws, kids);
    LoopMovesOnlyPassing(s, p, q, pct, false, draws, kids);
  }

  /** Every move planned for the first `n` cells belongs to the group of a
      resident of one of them that passed a loop's filter and draw. */
  lemma {:induction false} AllMovesOnlyPassing(s: Snapshot, keys: seq<USize>, buckets: seq<seq<nat>>, draws: Draws, kids: nat -> seq<nat>, n: nat)
    requires Plannable(s, keys, buckets) && n <= |keys|
    ensures forall mv :: mv in AllMoves(s, keys, buckets, draws, kids, n) ==>
      exists j, family: bool, i :: 0 <= j < n && 0 <= i < |buckets[j]| &&
        Candidate(s, buckets[j][i], family) && draws.roll(buckets[j][i], family) < CellOdds(s, buckets[j]) &&
        mv in GroupMoves(s, keys[j], buckets[j][i], family, draws, kids)
  {
    if n > 0 {
      var j := n - 1;
      forall mv | mv in AllMoves(s, keys, buckets, draws, kids, n)
        ensures exists j, family: bool, i :: 0 <= j < n && 0 <= i < |buckets[j]| &&
                  Candidate(s, buckets[j][i], family) && draws.roll(buckets[j][i], family) < CellOdds(s, buckets[j]) &&
                  mv in GroupMoves(s, keys[j], buckets[j][i], family, draws, kids)
      {
        if mv in AllMoves(s, keys, buckets, draws, kids, j) {
          AllMovesOnlyPassing(s, keys, buckets, draws, kids, j);
        } else {
          assert mv in CellMoves(s, keys[j], buckets[j], draws, kids);
          CellMovesOnlyPassing(s, keys[j], buckets[j], draws, kids);
        }
      }
    }
  }

  /** Every move a cell lists leads one diagonal step from that cell. */
  lemma CellMovesDiagonal(s: Snapshot, p: USize, q: seq<nat>, draws: Draws, kids: nat -> seq<nat>)
    requires Shaped(s) && AgesDefined(s) && MatesSymmetric(s) && s.worldWidth > 0 && Below(q)
    requires |q| > 0 ==> q[0] < |s.forages|
    ensures forall mv :: mv in CellMoves(s, p, q, draws, kids) ==> Diagonal(s.worldWidth, p, (mv.x, mv.y))
  {
    var pct := CellOdds(s, q);
    LoopDiagonal(s, p, q, pct, true, draws, kids);
    LoopDiagonal(s, p, q, pct, false, draws, kids);
  }

  /** Every move one loop lists leads one diagonal step from the cell. */
  lemma {:induction false} LoopDiagonal(s: Snapshot, p: USize, q: seq<nat>, pct: nat, family: bool, draws: Draws, kids: nat -> seq<nat>)
    requires Shaped(s) && AgesDefined(s) && MatesSymmetric(s) && s.worldWidth > 0 && Below(q)
    ensures forall mv :: mv in LoopMoves(s, p, q, pct, family, draws, kids) ==> Diagonal(s.worldWidth, p, (mv.x, mv.y))
  {
    if |q| > 0 {
      var e := q[|q| - 1];
      LoopDiagonal(s, p, q[..|q| - 1], pct, family, draws, kids);
      var (x, y) := IndexToXy(s.worldWidth, p);
      var t := TargetOf(s.worldWidth, p, GenerateRandomMove(x, y, draws.coins(e, family)));
      assert Diagonal(s.worldWidth, p, t);
    }
  }

}
