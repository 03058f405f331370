/** `birth_system`: every human whose due day has come gives birth to one
    child. The child is spawned on the cell that `index_to_xy` decodes from the
    mother's entity id (not from her position), gets the mother and her mate
    as parents and joins the mother's children set. Where the mother has a
    mate, the code adds the mate's own id, not the child, to the mate's
    children set; the model keeps that.

    The one random draw per birth, the child's sex, is a parameter: `heads(e)`
    is the coin flipped when mother `e` delivers. */
module Birth {
  import opened Grid
  import opened Store

  /** The test `birth_system` makes: a human with a due day that has come. */
  ghost predicate Due(s: Snapshot, e: nat)
    requires Shaped(s) && e < CAPACITY
  {
    s.humans[e] && s.pregnant[e] != 0 && s.day >= s.pregnant[e]
  }

  /** The number of due ids below `n`. */
  ghost function DueCount(s: Snapshot, n: nat): (k: nat)
    requires Shaped(s) && n <= CAPACITY
    ensures k <= n
  {
    if n == 0 then 0 else DueCount(s, n - 1) + (if Due(s, n - 1) then 1 else 0)
  }

  /** The sex a coin gives a newborn. */
  function NewbornSex(heads: bool): string
  {
    if heads then "male" else "female"
  }

  /** The first step of a delivery: the mother is no longer pregnant. */
  ghost function ClearPregnancy(s: Snapshot, mother: nat): Snapshot
    requires Shaped(s) && mother < CAPACITY
  {
    s.(pregnant := s.pregnant[mother := 0])
  }

  /** The last step of a delivery: the child gets an empty children set and
      joins the mother's, the parents are recorded as the mother and her mate
      (0 when she has none), and a mate adds his own id to his children set. */
  ghost function RecordLineage(u: Snapshot, mother: nat, child: nat, father: nat): Snapshot
  {
    var u := u.(children := u.children[child := {}]);
    var u := u.(children := u.children[mother := SetAt(u.children, mother) + {child}]);
    var u := u.(parents := u.parents[child := [mother, father]]);
    if father != 0 then u.(children := u.children[father := SetAt(u.children, father) + {father}]) else u
  }

  /** One delivery: clear the pregnancy, spawn the child with today as its
      spawn date on the cell numbered like the mother's id (see
      `DeliverDecodesMotherId`), and record the lineage. */
  ghost function Deliver(s: Snapshot, mother: nat, heads: bool): (r: Snapshot)
    requires Shaped(s) && mother < CAPACITY && s.entities + 1 < CAPACITY
    ensures Shaped(r) && r.entities == s.entities + 1
    ensures r.day == s.day && r.worldWidth == s.worldWidth && r.mates == s.mates
  {
    var (u, child) := SpawnPersonAt(ClearPregnancy(s, mother), mother, s.day, NewbornSex(heads));
    RecordLineage(u, mother, child, s.mates[mother])
  }

  /** `Deliver` spawns the child on the cell the code computes: it decodes
      the mother's id with `index_to_xy` and passes the coordinates to
      `spawn_person`, which encodes them again, giving back the mother's id. */
  lemma DeliverDecodesMotherId(s: Snapshot, mother: nat, heads: bool)
    requires Inv(s) && mother < CAPACITY && Due(s, mother)
    requires s.entities + 1 < CAPACITY && s.worldWidth > 0
    ensures var (x, y) := IndexToXy(s.worldWidth, mother);
      var (u, child) := SpawnPerson(ClearPregnancy(s, mother), x, y, s.day, NewbornSex(heads));
      Deliver(s, mother, heads) == RecordLineage(u, mother, child, s.mates[mother])
  {
    DueIsIssued(s, mother);
    IndexRoundTrip(s.worldWidth, mother);
  }

  /** A due entity is an issued id other than 0. */
  lemma DueIsIssued(s: Snapshot, e: nat)
    requires Inv(s) && e < CAPACITY && Due(s, e)
    ensures 1 <= e <= s.entities
  {
    assert !Blank(s, e);
  }

  /** Clearing a pregnancy keeps every invariant. */
  lemma ClearPregnancyValid(s: Snapshot, mother: nat)
    requires Inv(s) && mother < CAPACITY
    ensures Inv(ClearPregnancy(s, mother))
  {
    var t := ClearPregnancy(s, mother);
    forall k: nat | k < CAPACITY && (k == 0 || k > t.entities) ensures Blank(t, k) {
      assert Blank(s, k);
    }
    assert Spatial(t) by {
      assert t.residents == s.residents && t.positions == s.positions && t.entities == s.entities;
    }
  }

  /** Recording the lineage of issued ids keeps every invariant. */
  lemma RecordLineageValid(u: Snapshot, mother: nat, child: nat, father: nat)
    requires Inv(u) && 1 <= mother <= u.entities && 1 <= child <= u.entities && father <= u.entities
    ensures Inv(RecordLineage(u, mother, child, father))
  {
    var r := RecordLineage(u, mother, child, father);
    assert r == u.(children := r.children, parents := r.parents);
    forall k: nat | k < CAPACITY && (k == 0 || k > r.entities) ensures Blank(r, k) {
      assert Blank(u, k);
    }
    assert Spatial(r) by {
      assert r.residents == u.residents && r.positions == u.positions && r.entities == u.entities;
    }
  }

  /** What one delivery does to the child and the mother: the next id is a
      live human child born today, male exactly on heads, placed on the cell
      numbered like the mother's id, a member of the mother's children set,
      with the mother and her mate as parents; the mother is no longer
      pregnant; the mate's children set gains the mate; no mate changes. */
  lemma DeliverEffects(s: Snapshot, mother: nat, heads: bool)
    requires Shaped(s) && 1 <= mother <= s.entities && mother < CAPACITY && s.mates[mother] <= s.entities
    requires s.entities + 1 < CAPACITY && Blank(s, s.entities + 1)
    ensures var r := Deliver(s, mother, heads); var child := s.entities + 1;
      Shaped(r) && r.entities == child && r.day == s.day && r.worldWidth == s.worldWidth &&
      r.mates == s.mates && r.males[child] == heads && r.humans[child] && r.lives[child] &&
      r.spawnDates[child] == s.day && r.positions[child] == mother && r.pregnant[mother] == 0 &&
      mother in r.children && child in r.children[mother] && child in r.children && r.children[child] == {} &&
      child in r.parents && r.parents[child] == [mother, s.mates[mother]] &&
      (s.mates[mother] != 0 ==> s.mates[mother] in r.children && s.mates[mother] in r.children[s.mates[mother]])
  {
  }

  /** The next id has no lineage recorded yet. */
  ghost predicate NextIdUnused(s: Snapshot)
  {
    s.entities + 1 !in s.parents && s.entities + 1 !in s.children
  }

  /** What one delivery leaves alone: every other pregnancy, and every other
      entity's human flag, sex flags, life, fertility, position and spawn
      date; every recorded parent pair and children-set member stays. */
  lemma DeliverFrame(s: Snapshot, mother: nat, heads: bool)
    requires Shaped(s) && mother < CAPACITY && s.entities + 1 < CAPACITY && NextIdUnused(s)
    ensures var r := Deliver(s, mother, heads); var child := s.entities + 1;
      Shaped(r) &&
      (forall k: nat :: k < CAPACITY && k != mother ==> r.pregnant[k] == s.pregnant[k]) &&
      (forall k: nat :: k < CAPACITY && k != child ==>
        r.humans[k] == s.humans[k] && r.males[k] == s.males[k] && r.females[k] == s.females[k] &&
        r.lives[k] == s.lives[k] && r.fertile[k] == s.fertile[k] &&
        r.positions[k] == s.positions[k] && r.spawnDates[k] == s.spawnDates[k]) &&
      (forall c :: c in s.parents ==> c in r.parents && r.parents[c] == s.parents[c]) &&
      (forall c, k :: c in s.children && k in s.children[c] ==> c in r.children && k in r.children[c])
  {
    var t := ClearPregnancy(s, mother);
    var (u, child) := SpawnPersonAt(t, mother, s.day, NewbornSex(heads));
    RecordLineageKeeps(u, mother, child, s.mates[mother]);
    var r := Deliver(s, mother, heads);
    assert r == RecordLineage(u, mother, child, s.mates[mother]);
  }

  /** Recording a new child's lineage changes only the lineage maps, and
      keeps every recorded parent pair and children-set member. */
  lemma RecordLineageKeeps(u: Snapshot, mother: nat, child: nat, father: nat)
    requires child !in u.parents && (child in u.children ==> u.children[child] == {})
    ensures var r := RecordLineage(u, mother, child, father);
      r == u.(children := r.children, parents := r.parents) &&
      (forall c :: c in u.parents ==> c in r.parents && r.parents[c] == u.parents[c]) &&
      (forall c, k :: c in u.children && k in u.children[c] ==> c in r.children && k in r.children[c])
  {
  }

  /** One delivery keeps every invariant. */
  lemma DeliverValid(s: Snapshot, mother: nat, heads: bool)
    requires Inv(s) && mother < CAPACITY && Due(s, mother)
    requires s.entities + 1 < CAPACITY
    ensures Inv(Deliver(s, mother, heads))
  {
    DueIsIssued(s, mother);
    var t := ClearPregnancy(s, mother);
    ClearPregnancyValid(s, mother);
    SpawnPersonValid(t, mother, s.day, NewbornSex(heads));
    var (u, child) := SpawnPersonAt(t, mother, s.day, NewbornSex(heads));
    RecordLineageValid(u, mother, child, s.mates[mother]);
  }

  /** `birth_system` over the ids below `n`, in increasing id order: each id
      due at the start delivers (`BirthsUpToValid` shows that an id's due
      status when the loop reaches it is the one it had at the start). The
      vectors hold CAPACITY slots, so the births must leave the last id inside
      them, and decoding a mother's id divides by the world width. */
  ghost function BirthsUpTo(s: Snapshot, heads: nat -> bool, n: nat): (r: Snapshot)
    requires Shaped(s) && n <= CAPACITY && s.entities + DueCount(s, n) < CAPACITY
    requires DueCount(s, n) > 0 ==> s.worldWidth > 0
    ensures Shaped(r) && r.entities == s.entities + DueCount(s, n)
    ensures r.day == s.day && r.worldWidth == s.worldWidth && r.mates == s.mates
    decreases n
  {
    if n == 0 then s
    else
      var t := BirthsUpTo(s, heads, n - 1);
      if Due(s, n - 1) then Deliver(t, n - 1, heads(n - 1)) else t
  }

  /** The births keep every invariant, and leave the pregnancy and the due
      status of every id from `n` on as they were at the start. */
  lemma {:induction false} BirthsUpToValid(s: Snapshot, heads: nat -> bool, n: nat)
    requires Inv(s) && n <= CAPACITY && s.entities + DueCount(s, n) < CAPACITY
    requires DueCount(s, n) > 0 ==> s.worldWidth > 0
    ensures var r := BirthsUpTo(s, heads, n);
      Inv(r) && forall e: nat :: n <= e < CAPACITY ==> r.pregnant[e] == s.pregnant[e] && (Due(r, e) <==> Due(s, e))
  {
    if n > 0 {
      var v := n - 1;
      BirthsUpToValid(s, heads, v);
      var t := BirthsUpTo(s, heads, v);
      if Due(s, v) {
        DeliverKeepsLaterDue(s, t, v, heads(v));
      }
    }
  }

  /** A delivery by `v` part way through the births keeps every invariant and
      leaves the pregnancy and due status of every later id alone. */
  lemma DeliverKeepsLaterDue(s: Snapshot, t: Snapshot, v: nat, heads: bool)
    requires Shaped(s) && Inv(t) && v < CAPACITY && Due(t, v) && t.entities + 1 < CAPACITY
    requires forall e: nat :: v <= e < CAPACITY ==> t.pregnant[e] == s.pregnant[e] && (Due(t, e) <==> Due(s, e))
    ensures var r := Deliver(t, v, heads);
      Inv(r) && forall e: nat :: v < e < CAPACITY ==> r.pregnant[e] == s.pregnant[e] && (Due(r, e) <==> Due(s, e))
  {
    var r := Deliver(t, v, heads);
    assert Inv(r) by {
      DeliverValid(t, v, heads);
    }
    assert (forall k: nat :: k < CAPACITY && k != v ==> r.pregnant[k] == t.pregnant[k]) &&
      (forall k: nat :: k < CAPACITY && k != t.entities + 1 ==> r.humans[k] == t.humans[k]) &&
      t.pregnant[t.entities + 1] == 0 by {
      NextIdIsFresh(t);
      DeliverFrame(t, v, heads);
    }
  }

  /** A due id below `b` counts towards `DueCount(s, b)` after the ids below it. */
  lemma {:induction false} DueCountCounts(s: Snapshot, e: nat, b: nat)
    requires Shaped(s) && e < b <= CAPACITY && Due(s, e)
    ensures DueCount(s, e) + 1 <= DueCount(s, b)
  {
    if b > e + 1 {
      DueCountCounts(s, e, b - 1);
    }
  }

  /** More ids never count fewer due mothers. */
  lemma {:induction false} DueCountMonotone(s: Snapshot, a: nat, b: nat)
    requires Shaped(s) && a <= b <= CAPACITY
    ensures DueCount(s, a) <= DueCount(s, b)
  {
    if a < b {
      DueCountMonotone(s, a, b - 1);
    }
  }

  /** The id the child of due mother `e` gets: the next id after those issued
      before the births and those of the children of the due mothers below
      her. */
  ghost function ChildOf(s: Snapshot, e: nat): nat
    requires Shaped(s) && e <= CAPACITY
  {
    s.entities + DueCount(s, e) + 1
  }

  /** What a delivery leaves in a later snapshot `r` for mother `mother`, whose
      child got id `child`: the child is a human of the drawn sex spawned on
      `day`, alive, placed on the cell numbered like the mother's id, in the
      mother's children set and with `[mother, father]` as parents. */
  ghost predicate Delivered(r: Snapshot, mother: nat, child: nat, father: nat, day: nat, heads: bool)
    requires Shaped(r) && mother < CAPACITY
  {
    child < CAPACITY && r.humans[child] && r.lives[child] &&
    r.males[child] == heads && r.females[child] == !heads &&
    r.spawnDates[child] == day && r.positions[child] == mother &&
    mother in r.children && child in r.children[mother] &&
    child in r.parents && r.parents[child] == [mother, father]
  }

  /** After the births below `n`: every due mother has delivered the child
      numbered after the ids issued before and the children of the due
      mothers below her, with her then mate as the other parent. */
  lemma {:induction false} BirthsUpToDelivers(s: Snapshot, heads: nat -> bool, n: nat)
    requires Inv(s) && n <= CAPACITY && s.entities + DueCount(s, n) < CAPACITY
    requires DueCount(s, n) > 0 ==> s.worldWidth > 0
    ensures var r := BirthsUpTo(s, heads, n);
      forall e: nat :: e < n && Due(s, e) ==>
        Delivered(r, e, ChildOf(s, e), s.mates[e], s.day, heads(e))
  {
    if n > 0 {
      var v := n - 1;
      BirthsUpToDelivers(s, heads, v);
      var t := BirthsUpTo(s, heads, v);
      if Due(s, v) {
        BirthsUpToValid(s, heads, v);
        DueIsIssued(t, v);
        NextIdIsFresh(t);
        DeliversStep(s, heads, v, t);
      } else {
        forall e: nat | e < n && Due(s, e)
          ensures Delivered(t, e, ChildOf(s, e), s.mates[e], s.day, heads(e))
        {
          assert e < v;
        }
      }
    }
  }

  /** The delivery by a due mother `v` extends what the births below her
      left for the mothers before her. */
  lemma DeliversStep(s: Snapshot, heads: nat -> bool, v: nat, t: Snapshot)
    requires Shaped(s) && v < CAPACITY && Due(s, v)
    requires Shaped(t) && 1 <= v <= t.entities && t.mates[v] <= t.entities && t.entities + 1 < CAPACITY
    requires Blank(t, t.entities + 1) && NextIdUnused(t)
    requires t.entities == s.entities + DueCount(s, v) && t.mates == s.mates && t.day == s.day
    requires forall e: nat :: e < v && Due(s, e) ==>
      Delivered(t, e, ChildOf(s, e), s.mates[e], s.day, heads(e))
    ensures forall e: nat :: e <= v && Due(s, e) ==>
      Delivered(Deliver(t, v, heads(v)), e, ChildOf(s, e), s.mates[e], s.day, heads(e))
  {
    var r := Deliver(t, v, heads(v));
    DeliverEffects(t, v, heads(v));
    assert Delivered(r, v, ChildOf(s, v), s.mates[v], s.day, heads(v));
    forall e: nat | e < v && Due(s, e)
      ensures Delivered(r, e, ChildOf(s, e), s.mates[e], s.day, heads(e))
    {
      DueCountCounts(s, e, v);
      DeliveredKept(t, v, heads(v), e, ChildOf(s, e), s.mates[e], s.day, heads(e));
    }
  }

  /** The births leave every id issued before them alone: its human flag,
      sex flags, life, fertility, position and spawn date are unchanged, and
      every recorded parent pair and children-set member stays. */
  lemma {:induction false} BirthsUpToFrame(s: Snapshot, heads: nat -> bool, n: nat)
    requires Inv(s) && n <= CAPACITY && s.entities + DueCount(s, n) < CAPACITY
    requires DueCount(s, n) > 0 ==> s.worldWidth > 0
    ensures var r := BirthsUpTo(s, heads, n);
      (forall k: nat :: k <= s.entities ==>
        r.humans[k] == s.humans[k] && r.males[k] == s.males[k] && r.females[k] == s.females[k] &&
        r.lives[k] == s.lives[k] && r.fertile[k] == s.fertile[k] &&
        r.positions[k] == s.positions[k] && r.spawnDates[k] == s.spawnDates[k]) &&
      (forall c :: c in s.parents ==> c in r.parents && r.parents[c] == s.parents[c]) &&
      (forall c, k :: c in s.children && k in s.children[c] ==> c in r.children && k in r.children[c])
  {
    if n > 0 {
      var v := n - 1;
      BirthsUpToFrame(s, heads, v);
      var t := BirthsUpTo(s, heads, v);
      if Due(s, v) {
        BirthsUpToValid(s, heads, v);
        NextIdIsFresh(t);
        DeliverFrame(t, v, heads(v));
      }
    }
  }

  /** After the births below `n`, the pregnancy of each id below `n` is
      cleared exactly when that id was due. */
  lemma {:induction false} BirthsUpToClearsDue(s: Snapshot, heads: nat -> bool, n: nat)
    requires Inv(s) && n <= CAPACITY && s.entities + DueCount(s, n) < CAPACITY
    requires DueCount(s, n) > 0 ==> s.worldWidth > 0
    ensures var r := BirthsUpTo(s, heads, n);
      forall e: nat :: e < n ==> r.pregnant[e] == if Due(s, e) then 0 else s.pregnant[e]
  {
    if n > 0 {
      var v := n - 1;
      BirthsUpToClearsDue(s, heads, v);
      var t := BirthsUpTo(s, heads, v);
      BirthsUpToValid(s, heads, v);
      if Due(s, v) {
        DueIsIssued(t, v);
        NextIdIsFresh(t);
        DeliverEffects(t, v, heads(v));
        DeliverFrame(t, v, heads(v));
      }
    }
  }

  /** A later delivery keeps what an earlier one left. */
  lemma DeliveredKept(t: Snapshot, mother: nat, heads: bool, e: nat, child: nat, father: nat, day: nat, h: bool)
    requires Shaped(t) && mother < CAPACITY && t.entities + 1 < CAPACITY && NextIdUnused(t)
    requires e < CAPACITY && e != mother && child <= t.entities && Delivered(t, e, child, father, day, h)
    ensures Delivered(Deliver(t, mother, heads), e, child, father, day, h)
  {
    DeliverFrame(t, mother, heads);
  }
}
