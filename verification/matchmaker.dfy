/** `matchmaker_system`: in every cell, the unmated adult humans are split
    into bachelors (males) and spinsters (everyone else), the two lists are
    zipped, a coin decides each zipped pair, and every accepted pair is
    linked in `mates` in both directions.

    The coin of a pair is `accept(b)` for its bachelor `b`: an entity lives
    in one cell, so it is offered in at most one pair per run. */
module Matchmaker {
  import opened Grid
  import opened Store

  /** The age, in days, from which the matchmaker considers a human. */
  const MARRIAGE_AGE: nat := 16 * YEAR

  /** A human without a mate, aged sixteen years or more. */
  ghost predicate Marriageable(s: Snapshot, e: nat)
    requires Shaped(s) && AgesDefined(s) && e < CAPACITY
  {
    s.humans[e] && s.mates[e] == 0 && GetAge(s.day, s.spawnDates[e]) >= MARRIAGE_AGE
  }

  /** The marriageable residents of `q` whose `males` flag is `male`, in the
      order of `q`: the bachelors when `male` holds, the spinsters otherwise. */
  ghost function Singles(s: Snapshot, q: seq<nat>, male: bool): (r: seq<nat>)
    requires Shaped(s) && AgesDefined(s) && Below(q)
    ensures Below(r) && |r| <= |q|
  {
    if |q| == 0 then []
    else
      var e := q[|q| - 1];
      Singles(s, q[..|q| - 1], male) + (if Marriageable(s, e) && s.males[e] == male then [e] else [])
  }

  /** `bachelors.into_iter().zip(spinsters.into_iter())`. */
  ghost function Zip(bs: seq<nat>, ss: seq<nat>): seq<(nat, nat)>
  {
    seq(Min(|bs|, |ss|), i requires 0 <= i < Min(|bs|, |ss|) => (bs[i], ss[i]))
  }

  /** Every id in the pairs is a valid index. */
  ghost predicate PairsBelow(pairs: seq<(nat, nat)>)
  {
    forall i :: 0 <= i < |pairs| ==> pairs[i].0 < CAPACITY && pairs[i].1 < CAPACITY
  }

  /** One directed pair `(a, b)` of the flat-mapped list: `mates[a] = b;
      mates[b] = a`. */
  ghost function Link(m: seq<nat>, a: nat, b: nat): (r: seq<nat>)
    requires a < |m| && b < |m|
    ensures |r| == |m| && r[a] == (if a == b then a else b) && r[b] == a
    ensures forall e :: 0 <= e < |m| && e != a && e != b ==> r[e] == m[e]
  {
    m[a := b][b := a]
  }

  /** The zipped pairs in order: an accepted pair `(b, s)` yields the directed
      pairs `(b, s)` and `(s, b)`, each linked in turn. */
  ghost function Wed(m: seq<nat>, pairs: seq<(nat, nat)>, accept: nat -> bool): (r: seq<nat>)
    requires |m| == CAPACITY && PairsBelow(pairs)
    ensures |r| == CAPACITY
  {
    if |pairs| == 0 then m
    else
      var t := Wed(m, pairs[..|pairs| - 1], accept);
      var (b, s) := pairs[|pairs| - 1];
      if accept(b) then Link(Link(t, b, s), s, b) else t
  }

  /** The ids the pairs mention. */
  ghost function Partners(pairs: seq<(nat, nat)>): set<nat>
  {
    if |pairs| == 0 then {} else Partners(pairs[..|pairs| - 1]) + {pairs[|pairs| - 1].0, pairs[|pairs| - 1].1}
  }

  /** No id occurs in two places of the pairs, nor twice in one pair. */
  ghost predicate Matching(pairs: seq<(nat, nat)>)
  {
    forall i, j :: 0 <= i < |pairs| && 0 <= j < |pairs| ==>
      (i != j ==> pairs[i].0 != pairs[j].0 && pairs[i].1 != pairs[j].1) && pairs[i].0 != pairs[j].1
  }

  /** One cell: zip its bachelors with its spinsters and wed the accepted
      pairs. Only `mates` changes. */
  ghost function MatchCell(s: Snapshot, q: seq<nat>, accept: nat -> bool): (r: Snapshot)
    requires Shaped(s) && AgesDefined(s) && Below(q)
    ensures r == s.(mates := r.mates) && |r.mates| == CAPACITY
  {
    var pairs := Zip(Singles(s, q, true), Singles(s, q, false));
    s.(mates := Wed(s.mates, pairs, accept))
  }

  /** What the matchmaker needs of a state and of the listed cells. */
  ghost predicate Matchable(s: Snapshot, buckets: seq<seq<nat>>)
  {
    Shaped(s) && AgesDefined(s) && forall i :: 0 <= i < |buckets| ==> Below(buckets[i])
  }

  /** The resident sets visited so far, one cell after the other; later
      cells see the mates written for earlier ones. */
  ghost function MatchUpTo(s: Snapshot, buckets: seq<seq<nat>>, accept: nat -> bool, n: nat): (r: Snapshot)
    requires Matchable(s, buckets) && n <= |buckets|
    ensures r == s.(mates := r.mates) && |r.mates| == CAPACITY
  {
    if n == 0 then s else MatchCell(MatchUpTo(s, buckets, accept, n - 1), buckets[n - 1], accept)
  }

  /** `states` records the state after each listed cell in turn. */
  ghost predicate Chained(states: seq<Snapshot>, buckets: seq<seq<nat>>, accept: nat -> bool)
  {
    0 < |states| <= |buckets| + 1 && Matchable(states[|states| - 1], buckets) &&
    (|states| > 1 ==>
      var n := |states| - 1;
      Chained(states[..n], buckets, accept) && states[n] == MatchCell(states[n - 1], buckets[n - 1], accept))
  }

  /** Chained states end where the matchmaker does after those cells. */
  lemma {:induction false} ChainedMatches(states: seq<Snapshot>, buckets: seq<seq<nat>>, accept: nat -> bool)
    requires Chained(states, buckets, accept)
    ensures Matchable(states[0], buckets)
    ensures MatchUpTo(states[0], buckets, accept, |states| - 1) == states[|states| - 1]
  {
    var n := |states| - 1;
    if n > 0 {
      ChainedMatches(states[..n], buckets, accept);
      MatchUpToNext(states[0], buckets, accept, n, states[n - 1], states[n]);
    }
  }

  /** Matching cell `n - 1` after the cells before it gives the state after
      the first `n` cells. */
  lemma MatchUpToNext(s: Snapshot, buckets: seq<seq<nat>>, accept: nat -> bool, n: nat, t: Snapshot, u: Snapshot)
    requires Matchable(s, buckets) && 0 < n <= |buckets| && Matchable(t, buckets)
    requires MatchUpTo(s, buckets, accept, n - 1) == t && u == MatchCell(t, buckets[n - 1], accept)
    ensures MatchUpTo(s, buckets, accept, n) == u
  {
  }

  /** `matchmaker_system` over the whole resident map. */
  ghost function MatchAllCells(s: Snapshot, buckets: seq<seq<nat>>, accept: nat -> bool): (r: Snapshot)
    requires Matchable(s, buckets)
    ensures r == s.(mates := r.mates) && |r.mates| == CAPACITY
  {
    MatchUpTo(s, buckets, accept, |buckets|)
  }

  // ---------------------------------------------------------------------
  // Lemmas
  // ---------------------------------------------------------------------

  /** The filter keeps exactly the marriageable residents of the asked sex
      flag. */
  lemma {:induction false} SinglesMembers(s: Snapshot, q: seq<nat>, male: bool)
    requires Shaped(s) && AgesDefined(s) && Below(q)
    ensures forall e :: e in Singles(s, q, male) <==> e in q && e < CAPACITY && Marriageable(s, e) && s.males[e] == male
  {
    if |q| > 0 {
      var p := q[..|q| - 1];
      assert Below(p);
      SinglesMembers(s, p, male);
      assert forall e :: e in q <==> e in p || e == q[|q| - 1];
    }
  }

  /** Filtering keeps the list free of repetitions. */
  lemma {:induction false} SinglesDistinct(s: Snapshot, q: seq<nat>, male: bool)
    requires Shaped(s) && AgesDefined(s) && Below(q) && Distinct(q)
    ensures Distinct(Singles(s, q, male))
  {
    if |q| > 0 {
      var p := q[..|q| - 1];
      assert Below(p) && Distinct(p);
      SinglesDistinct(s, p, male);
      SinglesMembers(s, p, male);
      assert q[|q| - 1] !in p;
    }
  }

  /** The pairs of a cell form a matching: bachelors and spinsters are
      distinct lists with no id in common. */
  lemma ZipMatching(s: Snapshot, q: seq<nat>)
    requires Shaped(s) && AgesDefined(s) && Below(q) && Distinct(q)
    ensures Matching(Zip(Singles(s, q, true), Singles(s, q, false)))
    ensures PairsBelow(Zip(Singles(s, q, true), Singles(s, q, false)))
  {
    var bs, ss := Singles(s, q, true), Singles(s, q, false);
    SinglesDistinct(s, q, true);
    SinglesDistinct(s, q, false);
    SinglesMembers(s, q, true);
    SinglesMembers(s, q, false);
    var pairs := Zip(bs, ss);
    forall i, j | 0 <= i < |pairs| && 0 <= j < |pairs|
      ensures pairs[i].0 != pairs[j].1
    {
      assert bs[i] in bs && ss[j] in ss;
    }
  }

  /** A pair's ids lie in the partners of every list holding the pair. */
  lemma {:induction false} PartnersHold(pairs: seq<(nat, nat)>, i: nat)
    requires i < |pairs|
    ensures pairs[i].0 in Partners(pairs) && pairs[i].1 in Partners(pairs)
  {
    if i < |pairs| - 1 {
      PartnersHold(pairs[..|pairs| - 1], i);
    }
  }

  /** The partners of a prefix are ids of the pairs before the last. */
  lemma {:induction false} PartnersOf(pairs: seq<(nat, nat)>, e: nat)
    requires e in Partners(pairs)
    ensures exists i :: 0 <= i < |pairs| && (pairs[i].0 == e || pairs[i].1 == e)
  {
    var p := pairs[..|pairs| - 1];
    if e in Partners(p) {
      PartnersOf(p, e);
      var i :| 0 <= i < |p| && (p[i].0 == e || p[i].1 == e);
      assert pairs[i] == p[i];
    }
  }

  /** Wedding a matching of unmated issued ids keeps mate symmetry; each
      pair ends up linked both ways when its coin is accepted and unlinked
      otherwise, and every id outside the pairs keeps its mate. */
  lemma {:induction false} WedLinks(m: seq<nat>, entities: nat, pairs: seq<(nat, nat)>, accept: nat -> bool)
    requires Symmetric(m, entities) && PairsBelow(pairs) && Matching(pairs)
    requires forall i :: 0 <= i < |pairs| ==>
      1 <= pairs[i].0 <= entities && 1 <= pairs[i].1 <= entities && m[pairs[i].0] == 0 && m[pairs[i].1] == 0
    ensures var r := Wed(m, pairs, accept);
      Symmetric(r, entities) &&
      (forall i :: 0 <= i < |pairs| ==>
        r[pairs[i].0] == (if accept(pairs[i].0) then pairs[i].1 else 0) &&
        r[pairs[i].1] == (if accept(pairs[i].0) then pairs[i].0 else 0)) &&
      (forall e: nat :: e < CAPACITY && e !in Partners(pairs) ==> r[e] == m[e])
  {
    if |pairs| > 0 {
      var p := pairs[..|pairs| - 1];
      assert Matching(p) && PairsBelow(p);
      WedLinks(m, entities, p, accept);
      var t := Wed(m, p, accept);
      var (b, s) := pairs[|pairs| - 1];
      assert b !in Partners(p) && s !in Partners(p) by {
        if b in Partners(p) { PartnersOf(p, b); }
        if s in Partners(p) { PartnersOf(p, s); }
      }
      assert t[b] == 0 && t[s] == 0;
      var r := Wed(m, pairs, accept);
      forall i | 0 <= i < |p|
        ensures r[pairs[i].0] == t[p[i].0] && r[pairs[i].1] == t[p[i].1]
      {
        assert pairs[i] == p[i];
        PartnersHold(p, i);
      }
      if accept(b) {
        LinkSymmetric(t, entities, b, s);
      }
    }
  }

  /** Linking two unmated issued ids both ways keeps mate symmetry. */
  lemma LinkSymmetric(m: seq<nat>, entities: nat, b: nat, s: nat)
    requires Symmetric(m, entities) && b != s
    requires 1 <= b <= entities && 1 <= s <= entities && b < CAPACITY && s < CAPACITY
    requires m[b] == 0 && m[s] == 0
    ensures Symmetric(Link(Link(m, b, s), s, b), entities)
  {
    var r := Link(Link(m, b, s), s, b);
    forall e: nat | e < CAPACITY && r[e] != 0
      ensures e != 0 && 1 <= r[e] <= entities && r[e] < CAPACITY && r[r[e]] == e
    {
      if e != b && e != s {
        assert m[e] == r[e];
        assert m[e] != b && m[e] != s;
      }
    }
  }

  /** The zipped pairs of a cell join a marriageable male resident to a
      marriageable non-male resident, both issued; together they form a
      matching. */
  lemma CellPairsEligible(s: Snapshot, p: USize, q: seq<nat>)
    requires Inv(s) && Roster(s, p, q)
    ensures Below(q)
    ensures var bs, ss := Singles(s, q, true), Singles(s, q, false);
      Distinct(bs) && Distinct(ss) && (forall e :: e in bs ==> e !in ss)
    ensures var pairs := Zip(Singles(s, q, true), Singles(s, q, false));
      PairsBelow(pairs) && Matching(pairs) &&
      forall i :: 0 <= i < |pairs| ==>
        1 <= pairs[i].0 <= s.entities && 1 <= pairs[i].1 <= s.entities &&
        s.positions[pairs[i].0] == p && s.positions[pairs[i].1] == p &&
        Marriageable(s, pairs[i].0) && Marriageable(s, pairs[i].1) &&
        s.males[pairs[i].0] && !s.males[pairs[i].1]
  {
    RosterIssued(s, p, q);
    var bs, ss := Singles(s, q, true), Singles(s, q, false);
    SinglesDistinct(s, q, true);
    SinglesDistinct(s, q, false);
    SinglesMembers(s, q, true);
    SinglesMembers(s, q, false);
    ZipMatching(s, q);
    var pairs := Zip(bs, ss);
    forall i | 0 <= i < |pairs|
      ensures 1 <= pairs[i].0 <= s.entities && 1 <= pairs[i].1 <= s.entities &&
        s.positions[pairs[i].0] == p && s.positions[pairs[i].1] == p &&
        Marriageable(s, pairs[i].0) && Marriageable(s, pairs[i].1) &&
        s.males[pairs[i].0] && !s.males[pairs[i].1]
    {
      assert bs[i] in bs && ss[i] in ss;
    }
  }

  /** Every bachelor of a cell is wed to the spinster at the same place in
      the other list when its coin is accepted, and stays single otherwise
      (in particular when there is no spinster at its place), and the same
      holds for every spinster; at most min(#bachelors, #spinsters) pairs
      are formed. */
  lemma MatchCellPairs(s: Snapshot, p: USize, q: seq<nat>, accept: nat -> bool)
    requires Inv(s) && Roster(s, p, q)
    ensures Below(q)
    ensures var bs, ss, r := Singles(s, q, true), Singles(s, q, false), MatchCell(s, q, accept);
      (forall i :: 0 <= i < |bs| ==> r.mates[bs[i]] == (if i < |ss| && accept(bs[i]) then ss[i] else 0)) &&
      (forall j :: 0 <= j < |ss| ==> r.mates[ss[j]] == (if j < |bs| && accept(bs[j]) then bs[j] else 0))
  {
    CellPairsEligible(s, p, q);
    var bs, ss := Singles(s, q, true), Singles(s, q, false);
    SinglesMembers(s, q, true);
    SinglesMembers(s, q, false);
    var pairs := Zip(bs, ss);
    WedLinks(s.mates, s.entities, pairs, accept);
    var r := MatchCell(s, q, accept);
    forall i | 0 <= i < |bs|
      ensures r.mates[bs[i]] == (if i < |ss| && accept(bs[i]) then ss[i] else 0)
    {
      if i < |ss| {
        assert pairs[i] == (bs[i], ss[i]);
      } else {
        NotPaired(bs, ss, i, true);
        assert s.mates[bs[i]] == 0 by { assert bs[i] in bs; }
      }
    }
    forall j | 0 <= j < |ss|
      ensures r.mates[ss[j]] == (if j < |bs| && accept(bs[j]) then bs[j] else 0)
    {
      if j < |bs| {
        assert pairs[j] == (bs[j], ss[j]);
      } else {
        NotPaired(bs, ss, j, false);
        assert s.mates[ss[j]] == 0 by { assert ss[j] in ss; }
      }
    }
  }

  /** A bachelor or spinster beyond the length of the other list is in no
      pair. */
  lemma NotPaired(bs: seq<nat>, ss: seq<nat>, i: nat, bachelor: bool)
    requires Distinct(bs) && Distinct(ss) && forall e :: e in bs ==> e !in ss
    requires bachelor ==> |ss| <= i < |bs|
    requires !bachelor ==> |bs| <= i < |ss|
    ensures (if bachelor then bs[i] else ss[i]) !in Partners(Zip(bs, ss))
  {
    var e := if bachelor then bs[i] else ss[i];
    var pairs := Zip(bs, ss);
    assert e in (if bachelor then bs else ss);
    forall k | 0 <= k < |pairs| ensures pairs[k].0 != e && pairs[k].1 != e {
      assert pairs[k] == (bs[k], ss[k]);
      assert bs[k] in bs && ss[k] in ss;
    }
    if e in Partners(pairs) {
      PartnersOf(pairs, e);
    }
  }

  /** Wed records a match between `e` and its new mate: both were
      marriageable and in the same cell, and exactly one is male. */
  ghost predicate Wedded(s: Snapshot, r: Snapshot, e: nat)
    requires Shaped(s) && AgesDefined(s) && |r.mates| == CAPACITY && e < CAPACITY
  {
    var m := r.mates[e];
    Marriageable(s, e) && m != 0 && m < CAPACITY && Marriageable(s, m) &&
    s.males[m] != s.males[e] && s.positions[m] == s.positions[e]
  }

  /** One cell keeps every invariant, and every mate it changes was
      marriageable and is now wed to a marriageable partner of the other sex
      in the same cell. */
  lemma MatchCellValid(s: Snapshot, p: USize, q: seq<nat>, accept: nat -> bool)
    requires Inv(s) && Roster(s, p, q)
    ensures Below(q)
    ensures var r := MatchCell(s, q, accept);
      Inv(r) && forall e: nat :: e < CAPACITY && r.mates[e] != s.mates[e] ==> Wedded(s, r, e)
  {
    CellPairsEligible(s, p, q);
    var bs, ss := Singles(s, q, true), Singles(s, q, false);
    var pairs := Zip(bs, ss);
    WedLinks(s.mates, s.entities, pairs, accept);
    var r := MatchCell(s, q, accept);
    forall e: nat | e < CAPACITY && r.mates[e] != s.mates[e]
      ensures Wedded(s, r, e)
    {
      PartnersOf(pairs, e);
      var k :| 0 <= k < |pairs| && (pairs[k].0 == e || pairs[k].1 == e);
      PairWedded(s, r, pairs[k].0, pairs[k].1);
    }
    assert r == s.(mates := r.mates);
    forall k: nat | k < CAPACITY && (k == 0 || k > r.entities) ensures Blank(r, k) {
      assert Blank(s, k);
      MatedIsIssued(r.mates, r.entities, k);
    }
  }

  /** A linked pair of marriageable residents of one cell, one of each sex,
      is a match for both of its members. */
  lemma PairWedded(s: Snapshot, r: Snapshot, b: nat, w: nat)
    requires Shaped(s) && AgesDefined(s) && |r.mates| == CAPACITY && b < CAPACITY && w < CAPACITY
    requires Marriageable(s, b) && Marriageable(s, w) && s.males[b] && !s.males[w]
    requires s.positions[b] == s.positions[w] && b != 0 && w != 0
    requires r.mates[b] == w || r.mates[b] == 0
    requires r.mates[w] == b || r.mates[w] == 0
    ensures r.mates[b] != 0 ==> Wedded(s, r, b)
    ensures r.mates[w] != 0 ==> Wedded(s, r, w)
  {
  }

  /** The whole matchmaker keeps every invariant and changes only `mates`;
      a changed mate always records a match made on this day between two
      marriageable humans of opposite sex sharing a cell, so existing
      couples are never split or rearranged. */
  lemma {:induction false} MatchUpToValid(s: Snapshot, keys: seq<USize>, buckets: seq<seq<nat>>, accept: nat -> bool, n: nat)
    requires Inv(s) && Rosters(s, keys, buckets) && n <= |buckets|
    ensures Matchable(s, buckets)
    ensures var r := MatchUpTo(s, buckets, accept, n);
      Inv(r) && r == s.(mates := r.mates) &&
      forall e: nat :: e < CAPACITY && r.mates[e] != s.mates[e] ==> Wedded(s, r, e)
  {
    EnumeratedBelow(s, keys, buckets);
    if n > 0 {
      MatchUpToValid(s, keys, buckets, accept, n - 1);
      var t := MatchUpTo(s, buckets, accept, n - 1);
      assert Roster(t, keys[n - 1], buckets[n - 1]) by {
        assert Roster(s, keys[n - 1], buckets[n - 1]);
        assert t.residents == s.residents;
      }
      MatchCellValid(t, keys[n - 1], buckets[n - 1], accept);
      var r := MatchUpTo(s, buckets, accept, n);
      assert r == MatchCell(t, buckets[n - 1], accept);
      MatchesCompose(s, t, r);
    }
  }


  /** The resident lists of an enumeration hold valid indices only. */
  lemma EnumeratedBelow(s: Snapshot, keys: seq<USize>, buckets: seq<seq<nat>>)
    requires Inv(s) && Rosters(s, keys, buckets)
    ensures forall i :: 0 <= i < |buckets| ==> Below(buckets[i])
  {
    forall i | 0 <= i < |buckets| ensures Below(buckets[i]) {
      RosterIssued(s, keys[i], buckets[i]);
    }
  }

  /** Matches made in two rounds are matches against the state before both:
      the second round only weds ids the first left unmated. */
  lemma MatchesCompose(s: Snapshot, t: Snapshot, r: Snapshot)
    requires Shaped(s) && AgesDefined(s)
    requires t == s.(mates := t.mates) && r == t.(mates := r.mates) && |t.mates| == |r.mates| == CAPACITY
    requires forall e: nat :: e < CAPACITY && t.mates[e] != s.mates[e] ==> Wedded(s, t, e)
    requires forall e: nat :: e < CAPACITY && r.mates[e] != t.mates[e] ==> Wedded(t, r, e)
    ensures forall e: nat :: e < CAPACITY && r.mates[e] != s.mates[e] ==> Wedded(s, r, e)
  {
    forall e: nat | e < CAPACITY && r.mates[e] != s.mates[e]
      ensures Wedded(s, r, e)
    {
      if t.mates[e] == s.mates[e] {
        var m := r.mates[e];
        assert Wedded(t, r, e);
        assert t.mates[m] == 0;
        assert t.mates[m] == s.mates[m];
      } else {
        assert Wedded(s, t, e);
      }
    }
  }
}
