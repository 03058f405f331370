/** The per-day systems of `World` that age, pair, breed and kill the
    population: `time_system`, `fertility_system`, `conception_system`,
    `death_system` and the read-only `average_human_age`, as functions from one
    snapshot to the next.

    Every random draw is a parameter: a function from the entity id to the
    outcome of the one draw the system makes for that entity. Each system is
    then deterministic, and the lemmas hold for every outcome of the draws. */
module Lifecycle {
  import opened Grid
  import opened Store

  // ---------------------------------------------------------------------
  // time_system
  // ---------------------------------------------------------------------

  /** `time_system`: one more day. */
  ghost function AdvanceDay(s: Snapshot): Snapshot
  {
    s.(day := s.day + 1)
  }

  /** The clock keeps every invariant, and every entity is one day older. */
  lemma AdvanceDayValid(s: Snapshot)
    requires Inv(s)
    ensures Inv(AdvanceDay(s))
    ensures forall e: nat :: e < CAPACITY ==>
      GetAge(AdvanceDay(s).day, s.spawnDates[e]) == GetAge(s.day, s.spawnDates[e]) + 1
  {
    var r := AdvanceDay(s);
    forall k: nat | k < CAPACITY && (k == 0 || k > r.entities) ensures Blank(r, k) {
      assert Blank(s, k);
    }
  }

  // ---------------------------------------------------------------------
  // fertility_system
  // ---------------------------------------------------------------------

  /** The test `fertility_system` makes before its draw: a human female, neither
      fertile nor pregnant, aged 14 to 50 years, both ends included. */
  ghost predicate FertilityCandidate(s: Snapshot, e: nat)
    requires Shaped(s) && AgesDefined(s) && e < CAPACITY
  {
    s.humans[e] && s.females[e] && !s.fertile[e] && s.pregnant[e] == 0 &&
    14 * YEAR <= GetAge(s.day, s.spawnDates[e]) <= 50 * YEAR
  }

  /** `fertility_system`: every candidate whose draw came up becomes fertile. */
  ghost function Fertility(s: Snapshot, draw: nat -> bool): Snapshot
    requires Shaped(s) && AgesDefined(s)
  {
    s.(fertile := seq(CAPACITY, e requires 0 <= e < CAPACITY =>
         s.fertile[e] || (FertilityCandidate(s, e) && draw(e))))
  }

  /** Fertility keeps every invariant; it sets the flag exactly on the
      candidates whose draw came up and clears none. */
  lemma FertilityValid(s: Snapshot, draw: nat -> bool)
    requires Inv(s)
    ensures var r := Fertility(s, draw);
      Inv(r) && r == s.(fertile := r.fertile) &&
      forall e: nat :: e < CAPACITY ==>
        (r.fertile[e] != s.fertile[e] <==> FertilityCandidate(s, e) && draw(e)) &&
        (s.fertile[e] ==> r.fertile[e])
  {
    var r := Fertility(s, draw);
    forall k: nat | k < CAPACITY && (k == 0 || k > r.entities) ensures Blank(r, k) {
      assert Blank(s, k);
      assert r.fertile[k] == (s.fertile[k] || (FertilityCandidate(s, k) && draw(k)));
    }
    forall k: nat | k < CAPACITY && r.fertile[k] ensures r.pregnant[k] == 0 {
      assert r.fertile[k] == (s.fertile[k] || (FertilityCandidate(s, k) && draw(k)));
    }
    assert Spatial(r) by {
      assert r.residents == s.residents && r.positions == s.positions && r.entities == s.entities;
    }
  }

  // ---------------------------------------------------------------------
  // conception_system
  // ---------------------------------------------------------------------

  /** A draw of `gen_range(260..=300)`: a gestation length in days. */
  type Gestation = g: int | 260 <= g <= 300 witness 260

  /** The test `conception_system` makes before its draw: a fertile human
      female with a mate who is not pregnant. */
  ghost predicate ConceptionCandidate(s: Snapshot, e: nat)
    requires Shaped(s) && e < CAPACITY
  {
    s.humans[e] && s.females[e] && s.fertile[e] && s.mates[e] != 0 && s.pregnant[e] == 0
  }

  /** `conception_system`: a candidate whose draw came up is due on the current
      day plus her drawn gestation and stops being fertile. */
  ghost function Conception(s: Snapshot, draw: nat -> bool, gestation: nat -> Gestation): Snapshot
    requires Shaped(s)
  {
    s.(pregnant := seq(CAPACITY, e requires 0 <= e < CAPACITY =>
         if ConceptionCandidate(s, e) && draw(e) then s.day + gestation(e) else s.pregnant[e]),
       fertile := seq(CAPACITY, e requires 0 <= e < CAPACITY =>
         if ConceptionCandidate(s, e) && draw(e) then false else s.fertile[e]))
  }

  /** Conception keeps every invariant, so fertile and pregnant never meet; a
      pregnancy starts exactly for the candidates whose draw came up, with a
      due day 260 to 300 days ahead, and no other entry changes. */
  lemma ConceptionValid(s: Snapshot, draw: nat -> bool, gestation: nat -> Gestation)
    requires Inv(s)
    ensures var r := Conception(s, draw, gestation);
      Inv(r) && r == s.(pregnant := r.pregnant, fertile := r.fertile) &&
      forall e: nat :: e < CAPACITY ==>
        (r.pregnant[e] != s.pregnant[e] <==> ConceptionCandidate(s, e) && draw(e)) &&
        (r.pregnant[e] != s.pregnant[e] ==>
           s.day + 260 <= r.pregnant[e] <= s.day + 300 && !r.fertile[e]) &&
        (r.fertile[e] != s.fertile[e] ==> r.pregnant[e] != s.pregnant[e])
  {
    var r := Conception(s, draw, gestation);
    forall k: nat | k < CAPACITY && (k == 0 || k > r.entities) ensures Blank(r, k) {
      assert Blank(s, k);
      assert !ConceptionCandidate(s, k);
      assert r.fertile[k] == s.fertile[k] && r.pregnant[k] == s.pregnant[k];
    }
    assert Spatial(r) by {
      assert r.residents == s.residents && r.positions == s.positions && r.entities == s.entities;
    }
  }

  // ---------------------------------------------------------------------
  // death_system
  // ---------------------------------------------------------------------

  /** `death_system` over the ids below `n`: every human whose draw came up
      dies, in increasing id order. Dead humans are still humans, so they are
      drawn for again. */
  ghost function DeathsUpTo(s: Snapshot, draw: nat -> bool, n: nat): (r: Snapshot)
    requires Inv(s) && n <= CAPACITY
    ensures Inv(r)
    ensures r == s.(residents := r.residents, positions := r.positions, lives := r.lives,
                    fertile := r.fertile, pregnant := r.pregnant, mates := r.mates)
    decreases n
  {
    if n == 0 then s
    else
      var t := DeathsUpTo(s, draw, n - 1);
      if t.humans[n - 1] && draw(n - 1) then DieValid(t, n - 1); Die(t, n - 1) else t
  }

  /** The humans below `n` whose draw came up. */
  ghost predicate Killed(s: Snapshot, draw: nat -> bool, n: nat, e: nat)
    requires Shaped(s) && e < CAPACITY
  {
    e < n && s.humans[e] && draw(e)
  }

  /** What `die` leaves behind for entity `e`, whose mate was `m`: it is in no
      resident set and has no position, life, fertility, pregnancy or mate,
      and `m` has no mate either. */
  ghost predicate TornDown(r: Snapshot, e: nat, m: nat)
    requires Shaped(r) && e < CAPACITY && m < CAPACITY
  {
    Unplaced(r, e) && r.positions[e] == 0 && !r.lives[e] && !r.fertile[e] &&
    r.pregnant[e] == 0 && r.mates[e] == 0 && r.mates[m] == 0
  }

  /** A later `die` of anyone does not undo an earlier one. */
  lemma DieKeepsTornDown(t: Snapshot, v: nat, e: nat, m: nat)
    requires Inv(t) && v < CAPACITY && e < CAPACITY && m < CAPACITY && TornDown(t, e, m)
    ensures TornDown(Die(t, v), e, m)
  {
    DieFrame(t, v);
    DieTearsDown(t, v);
  }

  /** After the deaths below `n`, every entity that was not killed keeps its
      position, life, fertility and pregnancy; every mate link is either cut
      or the one that existed before, and a link between two entities that
      were both spared is kept. */
  lemma {:induction false} DeathsUpToSpare(s: Snapshot, draw: nat -> bool, n: nat)
    requires Inv(s) && n <= CAPACITY
    ensures var r := DeathsUpTo(s, draw, n);
      (forall e: nat :: e < CAPACITY && !Killed(s, draw, n, e) ==>
        r.positions[e] == s.positions[e] && r.lives[e] == s.lives[e] &&
        r.fertile[e] == s.fertile[e] && r.pregnant[e] == s.pregnant[e]) &&
      (forall e: nat :: e < CAPACITY ==> r.mates[e] == 0 || r.mates[e] == s.mates[e]) &&
      (forall e: nat :: e < CAPACITY && !Killed(s, draw, n, e) && !Killed(s, draw, n, s.mates[e]) ==>
        r.mates[e] == s.mates[e])
  {
    if n > 0 {
      DeathsUpToSpare(s, draw, n - 1);
      var t := DeathsUpTo(s, draw, n - 1);
      var v := n - 1;
      forall e: nat | e < CAPACITY && !Killed(s, draw, n, e) ensures !Killed(s, draw, n - 1, e) {
      }
      if t.humans[v] && draw(v) {
        DieFrame(t, v);
        SparedCoupleKept(s, t, v);
      }
    }
  }

  /** The death of `v`, after the deaths below it, keeps the link of every
      entity that is spared together with its original mate. */
  lemma SparedCoupleKept(s: Snapshot, t: Snapshot, v: nat)
    requires Inv(s) && Inv(t) && v < CAPACITY && t.humans == s.humans
    requires forall e: nat :: e < CAPACITY ==> t.mates[e] == 0 || t.mates[e] == s.mates[e]
    ensures var r := Die(t, v);
      forall e: nat :: e < CAPACITY && e != v && s.mates[e] != v && t.mates[e] == s.mates[e] ==>
        r.mates[e] == s.mates[e]
  {
    DieFrame(t, v);
    var r := Die(t, v);
    forall e: nat | e < CAPACITY && e != v && s.mates[e] != v && t.mates[e] == s.mates[e]
      ensures r.mates[e] == s.mates[e]
    {
      if t.mates[v] != 0 && e == t.mates[v] {
        assert s.mates[v] == e;
      }
    }
  }

  /** After the deaths below `n`, every killed entity is torn down. */
  lemma {:induction false} DeathsUpToTearDown(s: Snapshot, draw: nat -> bool, n: nat)
    requires Inv(s) && n <= CAPACITY
    ensures var r := DeathsUpTo(s, draw, n);
      forall e: nat :: e < CAPACITY && Killed(s, draw, n, e) ==> TornDown(r, e, s.mates[e])
  {
    if n > 0 {
      DeathsUpToTearDown(s, draw, n - 1);
      var t := DeathsUpTo(s, draw, n - 1);
      var v := n - 1;
      if t.humans[v] && draw(v) {
        var r := Die(t, v);
        forall e: nat | e < CAPACITY && Killed(s, draw, n, e) ensures TornDown(r, e, s.mates[e]) {
          if e == v {
            KilledNowTornDown(s, draw, v);
          } else {
            assert Killed(s, draw, n - 1, e);
            DieKeepsTornDown(t, v, e, s.mates[e]);
          }
        }
      } else {
        forall e: nat | e < CAPACITY && Killed(s, draw, n, e) ensures Killed(s, draw, n - 1, e) {
        }
      }
    }
  }

  /** The death of entity `v`, after the deaths below it, tears `v` down and
      cuts the link of the mate it had at the start. */
  lemma KilledNowTornDown(s: Snapshot, draw: nat -> bool, v: nat)
    requires Inv(s) && v < CAPACITY
    ensures var t := DeathsUpTo(s, draw, v);
      TornDown(Die(t, v), v, s.mates[v])
  {
    var t := DeathsUpTo(s, draw, v);
    var r := Die(t, v);
    var m := s.mates[v];
    DeathsUpToSpare(s, draw, v);
    DieTearsDown(t, v);
    DieFrame(t, v);
    DieValid(t, v);
    assert Blank(r, 0);
  }

  // ---------------------------------------------------------------------
  // average_human_age
  // ---------------------------------------------------------------------

  /** The number of ids below `n` flagged human. */
  ghost function HumanCount(s: Snapshot, n: nat): nat
    requires Shaped(s) && n <= CAPACITY
  {
    if n == 0 then 0 else HumanCount(s, n - 1) + (if s.humans[n - 1] then 1 else 0)
  }

  /** The sum of the ages of the ids below `n` flagged human. */
  ghost function TotalAge(s: Snapshot, n: nat): nat
    requires Shaped(s) && AgesDefined(s) && n <= CAPACITY
  {
    if n == 0 then 0
    else TotalAge(s, n - 1) + (if s.humans[n - 1] then GetAge(s.day, s.spawnDates[n - 1]) else 0)
  }

  /** `average_human_age`: the truncated mean age of everything flagged human,
      or 0 when nothing is. */
  ghost function AverageHumanAge(s: Snapshot): nat
    requires Shaped(s) && AgesDefined(s)
  {
    var count := HumanCount(s, CAPACITY);
    if count > 0 then TotalAge(s, CAPACITY) / count else 0
  }

  /** Ages bounded above by `oldest` sum to at most `oldest` per human. */
  lemma {:induction false} TotalAgeAtMost(s: Snapshot, n: nat, oldest: nat)
    requires Shaped(s) && AgesDefined(s) && n <= CAPACITY
    requires forall e: nat :: e < CAPACITY && s.humans[e] ==> GetAge(s.day, s.spawnDates[e]) <= oldest
    ensures TotalAge(s, n) <= oldest * HumanCount(s, n)
  {
    if n > 0 {
      TotalAgeAtMost(s, n - 1, oldest);
      assert oldest * HumanCount(s, n) == oldest * HumanCount(s, n - 1) + (if s.humans[n - 1] then oldest else 0);
    }
  }

  /** Ages bounded below by `youngest` sum to at least `youngest` per human. */
  lemma {:induction false} TotalAgeAtLeast(s: Snapshot, n: nat, youngest: nat)
    requires Shaped(s) && AgesDefined(s) && n <= CAPACITY
    requires forall e: nat :: e < CAPACITY && s.humans[e] ==> GetAge(s.day, s.spawnDates[e]) >= youngest
    ensures TotalAge(s, n) >= youngest * HumanCount(s, n)
  {
    if n > 0 {
      TotalAgeAtLeast(s, n - 1, youngest);
      assert youngest * HumanCount(s, n) == youngest * HumanCount(s, n - 1) + (if s.humans[n - 1] then youngest else 0);
    }
  }

  /** The mean lies between the youngest and the oldest human age. */
  lemma AverageHumanAgeBetween(s: Snapshot, youngest: nat, oldest: nat)
    requires Shaped(s) && AgesDefined(s) && HumanCount(s, CAPACITY) > 0
    requires forall e: nat :: e < CAPACITY && s.humans[e] ==> youngest <= GetAge(s.day, s.spawnDates[e]) <= oldest
    ensures youngest <= AverageHumanAge(s) <= oldest
  {
    var count, total := HumanCount(s, CAPACITY), TotalAge(s, CAPACITY);
    TotalAgeAtMost(s, CAPACITY, oldest);
    TotalAgeAtLeast(s, CAPACITY, youngest);
    DivBetween(total, count, youngest, oldest);
  }

  /** `lo * d <= n <= hi * d` bounds the quotient `n / d` by `lo` and `hi`. */
  lemma DivBetween(n: nat, d: nat, lo: nat, hi: nat)
    requires d > 0 && lo * d <= n <= hi * d
    ensures lo <= n / d <= hi
  {
    var q := n / d;
    assert n == q * d + n % d;
    if q > hi {
      assert q * d >= (hi + 1) * d by {
        MultiplyMonotone(hi + 1, q, d);
      }
    }
    if q < lo {
      assert (q + 1) * d <= lo * d by {
        MultiplyMonotone(q + 1, lo, d);
      }
    }
  }

  lemma MultiplyMonotone(a: nat, b: nat, d: nat)
    requires a <= b
    ensures a * d <= b * d
  {
    assert b * d == a * d + (b - a) * d;
  }

  /** Death leaves the human flags alone, so the dead keep counting towards
      the mean age. */
  lemma DeathKeepsHumanCount(s: Snapshot, draw: nat -> bool)
    requires Inv(s)
    ensures HumanCount(DeathsUpTo(s, draw, CAPACITY), CAPACITY) == HumanCount(s, CAPACITY)
    ensures AverageHumanAge(DeathsUpTo(s, draw, CAPACITY)) == AverageHumanAge(s)
  {
    var r := DeathsUpTo(s, draw, CAPACITY);
    assert r.humans == s.humans && r.spawnDates == s.spawnDates && r.day == s.day;
    SameAges(s, r, CAPACITY);
  }

  /** Two snapshots with the same clock, human flags and spawn dates have the
      same human count and age total. */
  lemma {:induction false} SameAges(s: Snapshot, r: Snapshot, n: nat)
    requires Shaped(s) && AgesDefined(s) && Shaped(r) && AgesDefined(r) && n <= CAPACITY
    requires r.humans == s.humans && r.spawnDates == s.spawnDates && r.day == s.day
    ensures HumanCount(r, n) == HumanCount(s, n) && TotalAge(r, n) == TotalAge(s, n)
  {
    if n > 0 {
      SameAges(s, r, n - 1);
    }
  }
}
