/**
  The greedy one-to-one assignment of hypothesis speakers to reference speakers.
  Overlaps are collected in a hash table, so the pairs reach the sort in any
  order; everything below holds for every order that is descending in overlap.
 */
module SpeakerMapping {
  import opened FrameCount

  type Label = string

  const SILENCE: Label := ""

  datatype Pair = Pair(hyp: Label, ref: Label)

  /** Which speaker is active on each frame, on both sides. */
  datatype Frames = Frames(ref: seq<Label>, hyp: seq<Label>) {
    function Length(): nat {
      if |ref| < |hyp| then |ref| else |hyp|
    }
  }

  // ----- Overlap ------------------------------------------------------------------

  ghost predicate BothSpeakAt(f: Frames, i: nat) {
    i < f.Length() && f.ref[i] != SILENCE && f.hyp[i] != SILENCE
  }

  ghost function OnPair(f: Frames, h: Label, r: Label): nat -> bool {
    (i: nat) => BothSpeakAt(f, i) && f.hyp[i] == h && f.ref[i] == r
  }

  /** Frames on which `m` sends the hypothesis speaker to the reference speaker. */
  ghost function Hit(f: Frames, m: map<Label, Label>): nat -> bool {
    (i: nat) => BothSpeakAt(f, i) && f.hyp[i] in m && m[f.hyp[i]] == f.ref[i]
  }

  ghost function Overlap(f: Frames, h: Label, r: Label): nat {
    Count(OnPair(f, h, r), f.Length())
  }

  /** Total overlap of the pairs of `m`. */
  ghost function Matched(f: Frames, m: map<Label, Label>): nat {
    Count(Hit(f, m), f.Length())
  }

  ghost predicate OneToOne(m: map<Label, Label>) {
    forall x, y :: x in m && y in m && m[x] == m[y] ==> x == y
  }

  lemma OverlapPositive(f: Frames, h: Label, r: Label)
    ensures Overlap(f, h, r) > 0 <==> exists i: nat :: OnPair(f, h, r)(i)
  {
    CountZero(OnPair(f, h, r), f.Length());
  }

  /** The total is the sum of the overlaps of the pairs. */
  lemma MatchedRemove(f: Frames, m: map<Label, Label>, h: Label)
    requires h in m
    ensures Matched(f, m) == Matched(f, m - {h}) + Overlap(f, h, m[h])
  {
    CountSplit(Hit(f, m), Hit(f, m - {h}), OnPair(f, h, m[h]), f.Length());
  }

  lemma MatchedMono(f: Frames, m: map<Label, Label>, m': map<Label, Label>)
    requires forall h :: h in m ==> h in m' && m'[h] == m[h]
    ensures Matched(f, m) <= Matched(f, m')
  {
    CountMono(Hit(f, m), Hit(f, m'), f.Length());
  }

  // ----- The greedy pass ------------------------------------------------------------

  /** `pairs` lists every overlapping pair once, in descending order of overlap. */
  ghost predicate IsListing(f: Frames, pairs: seq<Pair>) {
    && (forall i, j :: 0 <= i < j < |pairs| ==> pairs[i] != pairs[j])
    && (forall h, r :: Pair(h, r) in pairs <==> Overlap(f, h, r) > 0)
    && (forall i, j :: 0 <= i < j < |pairs| ==> Weight(f, pairs[i]) >= Weight(f, pairs[j]))
  }

  ghost function Weight(f: Frames, p: Pair): nat {
    Overlap(f, p.hyp, p.ref)
  }

  /** Walk the pairs; take each one whose two sides are both still free. */
  function GreedyMap(pairs: seq<Pair>): map<Label, Label> {
    if |pairs| == 0 then map[]
    else
      Claim(GreedyMap(pairs[..|pairs| - 1]), pairs[|pairs| - 1])
  }

  function Claim(m: map<Label, Label>, p: Pair): map<Label, Label> {
    if p.hyp in m || p.ref in m.Values then m else m[p.hyp := p.ref]
  }

  ghost predicate IsGreedy(f: Frames, m: map<Label, Label>) {
    exists pairs :: IsListing(f, pairs) && m == GreedyMap(pairs)
  }

  lemma {:induction false} GreedyOneToOne(pairs: seq<Pair>)
    ensures OneToOne(GreedyMap(pairs))
    ensures forall h :: h in GreedyMap(pairs) ==> Pair(h, GreedyMap(pairs)[h]) in pairs
  {
    if |pairs| > 0 {
      var before, last := pairs[..|pairs| - 1], pairs[|pairs| - 1];
      GreedyOneToOne(before);
      assert pairs == before + [last];
      assert last == Pair(last.hyp, last.ref);
    }
  }

  /** A pair of `m` shares a side with `p` and weighs no less. */
  ghost predicate Dominated(f: Frames, m: map<Label, Label>, p: Pair) {
    || (p.hyp in m && Overlap(f, p.hyp, m[p.hyp]) >= Weight(f, p))
    || exists h :: h in m && m[h] == p.ref && Overlap(f, h, p.ref) >= Weight(f, p)
  }

  /** A pair that comes after everything in `m` is claimed or already dominated. */
  lemma ClaimDominates(f: Frames, m: map<Label, Label>, p: Pair)
    requires forall h :: h in m ==> Overlap(f, h, m[h]) >= Weight(f, p)
    ensures Dominated(f, Claim(m, p), p)
  {
    if p.hyp !in m && p.ref in m.Values {
      var h :| h in m && m[h] == p.ref;
    }
  }

  /** Everything claimed from the pairs before the last one weighs no less than it. */
  lemma ClaimedAreHeavier(f: Frames, pairs: seq<Pair>, h: Label)
    requires |pairs| > 0 && h in GreedyMap(pairs[..|pairs| - 1])
    requires forall i, j :: 0 <= i < j < |pairs| ==> Weight(f, pairs[i]) >= Weight(f, pairs[j])
    ensures Overlap(f, h, GreedyMap(pairs[..|pairs| - 1])[h]) >= Weight(f, pairs[|pairs| - 1])
  {
    var before := pairs[..|pairs| - 1];
    GreedyOneToOne(before);
    var k :| 0 <= k < |before| && before[k] == Pair(h, GreedyMap(before)[h]);
    assert Weight(f, pairs[k]) >= Weight(f, pairs[|pairs| - 1]);
  }

  lemma {:induction false} GreedyDominates(f: Frames, pairs: seq<Pair>, k: nat)
    requires k < |pairs| && forall i, j :: 0 <= i < j < |pairs| ==> Weight(f, pairs[i]) >= Weight(f, pairs[j])
    ensures Dominated(f, GreedyMap(pairs), pairs[k])
    decreases |pairs|
  {
    var before, p := pairs[..|pairs| - 1], pairs[|pairs| - 1];
    var m := GreedyMap(before);
    if k < |before| {
      GreedyDominates(f, before, k);
      GrowthDominates(f, m, Claim(m, p), pairs[k]);
    } else {
      forall h | h in m ensures Overlap(f, h, m[h]) >= Weight(f, p) {
        ClaimedAreHeavier(f, pairs, h);
      }
      ClaimDominates(f, m, p);
    }
  }

  lemma GrowthDominates(f: Frames, m: map<Label, Label>, m': map<Label, Label>, p: Pair)
    requires Dominated(f, m, p)
    requires forall h :: h in m ==> h in m' && m'[h] == m[h]
    ensures Dominated(f, m', p)
  {
  }

  /** The map is one-to-one, uses only overlapping pairs, and no overlapping pair can be added to it. */
  lemma GreedyIsMaximal(f: Frames, m: map<Label, Label>)
    requires IsGreedy(f, m)
    ensures OneToOne(m)
    ensures forall h :: h in m ==> Overlap(f, h, m[h]) > 0 && h != SILENCE && m[h] != SILENCE
    ensures forall h, r :: Overlap(f, h, r) > 0 ==> h in m || r in m.Values
    ensures forall h, r :: Dominated(f, m, Pair(h, r)) || Overlap(f, h, r) == 0
  {
    var pairs :| IsListing(f, pairs) && m == GreedyMap(pairs);
    GreedyOneToOne(pairs);
    forall h, r | Overlap(f, h, r) > 0 ensures Dominated(f, m, Pair(h, r)) {
      assert Pair(h, r) in pairs;
      var k :| 0 <= k < |pairs| && pairs[k] == Pair(h, r);
      GreedyDominates(f, pairs, k);
    }
    forall h | h in m ensures Overlap(f, h, m[h]) > 0 && h != SILENCE && m[h] != SILENCE {
      assert Pair(h, m[h]) in pairs;
      OverlapPositive(f, h, m[h]);
    }
  }

  // ----- At least half of any one-to-one map ----------------------------------------

  /** The part of `g` whose hypothesis labels are in `hs`. */
  ghost function FromHyp(g: map<Label, Label>, hs: set<Label>): map<Label, Label> {
    map h | h in g && h in hs :: g[h]
  }

  /** The part of `g` whose reference labels are in `rs`. */
  ghost function ToRef(g: map<Label, Label>, rs: set<Label>): map<Label, Label> {
    map h | h in g && g[h] in rs :: g[h]
  }

  lemma FromHypAdd(f: Frames, g: map<Label, Label>, hs: set<Label>, h: Label)
    requires h !in hs
    ensures Matched(f, FromHyp(g, hs + {h})) == Matched(f, FromHyp(g, hs)) + if h in g then Overlap(f, h, g[h]) else 0
  {
    if h in g {
      MatchedRemove(f, FromHyp(g, hs + {h}), h);
      assert FromHyp(g, hs + {h}) - {h} == FromHyp(g, hs);
    } else {
      assert FromHyp(g, hs + {h}) == FromHyp(g, hs);
    }
  }

  lemma ToRefAdd(f: Frames, g: map<Label, Label>, rs: set<Label>, r: Label, h: Label)
    requires OneToOne(g) && r !in rs && h in g && g[h] == r
    ensures Matched(f, ToRef(g, rs + {r})) == Matched(f, ToRef(g, rs)) + Overlap(f, h, r)
  {
    MatchedRemove(f, ToRef(g, rs + {r}), h);
    assert ToRef(g, rs + {r}) - {h} == ToRef(g, rs);
  }

  /** Charge every pair of `m` to a pair of `g` that shares a side with it. */
  lemma {:induction false} Charging(f: Frames, g: map<Label, Label>, m: map<Label, Label>)
    requires OneToOne(g) && OneToOne(m)
    requires forall h, r :: Dominated(f, g, Pair(h, r)) || Overlap(f, h, r) == 0
    ensures Matched(f, m) <= Matched(f, FromHyp(g, m.Keys)) + Matched(f, ToRef(g, m.Values))
    decreases |m|
  {
    if |m| == 0 {
      assert m == map[];
      CountZero(Hit(f, m), f.Length());
    } else {
      var h :| h in m;
      var r, rest := m[h], m - {h};
      Charging(f, g, rest);
      MatchedRemove(f, m, h);
      assert m.Keys == rest.Keys + {h};
      RemoveValue(m, h);
      FromHypAdd(f, g, rest.Keys, h);
      MatchedMono(f, ToRef(g, rest.Values), ToRef(g, m.Values));
      if h' :| h' in g && g[h'] == r && Overlap(f, h', r) >= Overlap(f, h, r) {
        ToRefAdd(f, g, rest.Values, r, h');
      } else if Overlap(f, h, r) > 0 {
        assert Dominated(f, g, Pair(h, r));
      }
    }
  }

  lemma RemoveValue(m: map<Label, Label>, h: Label)
    requires OneToOne(m) && h in m
    ensures m[h] !in (m - {h}).Values
    ensures m.Values == (m - {h}).Values + {m[h]}
  {
    forall v | v in m.Values ensures v in (m - {h}).Values + {m[h]} {
      var x :| x in m && m[x] == v;
      if x != h {
        assert (m - {h})[x] == v;
      }
    }
  }

  /** The greedy total is at least half of the total of any one-to-one map. */
  lemma GreedyIsHalfOptimal(f: Frames, g: map<Label, Label>, m: map<Label, Label>)
    requires IsGreedy(f, g) && OneToOne(m)
    ensures Matched(f, m) <= 2 * Matched(f, g)
  {
    GreedyIsMaximal(f, g);
    Charging(f, g, m);
    MatchedMono(f, FromHyp(g, m.Keys), g);
    MatchedMono(f, ToRef(g, m.Values), g);
  }

  // ----- When greedy is exact ---------------------------------------------------------

  /** `best` gives every overlapping hypothesis label its strictly best reference. */
  ghost predicate IsStrictBest(f: Frames, best: map<Label, Label>) {
    && (forall h, r :: Overlap(f, h, r) > 0 ==> h in best)
    && (forall h :: h in best ==> Overlap(f, h, best[h]) > 0)
    && (forall h, r {:trigger Overlap(f, h, r)} :: h in best && r != best[h] ==> Overlap(f, h, r) < Overlap(f, h, best[h]))
  }

  /** The pairs of `best` that occur in `pairs`. */
  ghost function Listed(best: map<Label, Label>, pairs: seq<Pair>): map<Label, Label> {
    map h | h in best && Pair(h, best[h]) in pairs :: best[h]
  }

  /** A best pair is taken, and any other pair skipped because its label has its best reference already. */
  lemma ClaimFollows(best: map<Label, Label>, before: seq<Pair>, p: Pair)
    requires OneToOne(best) && p.hyp in best
    requires if best[p.hyp] == p.ref then p !in before else Pair(p.hyp, best[p.hyp]) in before
    ensures Claim(Listed(best, before), p) == Listed(best, before + [p])
  {
    assert p == Pair(p.hyp, p.ref);
    var m := Listed(best, before);
    if best[p.hyp] == p.ref {
      assert p.hyp !in m && p.ref !in m.Values;
    } else {
      assert p.hyp in m;
    }
  }

  /** A label's best pair is listed before its other pairs. */
  lemma BestComesFirst(f: Frames, best: map<Label, Label>, all: seq<Pair>, n: nat)
    requires IsListing(f, all) && IsStrictBest(f, best) && n < |all|
    ensures var Pair(h, r) := all[n]; h in best && (if best[h] == r then Pair(h, r) !in all[..n] else Pair(h, best[h]) in all[..n])
  {
    var Pair(h, r) := all[n];
    assert Pair(h, r) in all;
    assert Overlap(f, h, r) > 0;
    if best[h] != r {
      assert Pair(h, best[h]) in all;
      var k :| 0 <= k < |all| && all[k] == Pair(h, best[h]);
      assert Weight(f, all[k]) > Weight(f, all[n]);
      assert all[..n][k] == Pair(h, best[h]);
    }
  }

  lemma {:induction false} GreedyFollowsBest(f: Frames, best: map<Label, Label>, all: seq<Pair>, n: nat)
    requires IsListing(f, all) && IsStrictBest(f, best) && OneToOne(best) && n <= |all|
    ensures GreedyMap(all[..n]) == Listed(best, all[..n])
  {
    if n > 0 {
      var before, p := all[..n - 1], all[n - 1];
      GreedyFollowsBest(f, best, all, n - 1);
      BestComesFirst(f, best, all, n - 1);
      ClaimFollows(best, before, p);
      assert all[..n] == before + [p];
      assert all[..n][..n - 1] == before;
    }
  }

  /** No map whatsoever matches more frames than `best`. */
  lemma {:induction false} BestIsOptimal(f: Frames, best: map<Label, Label>, m: map<Label, Label>)
    requires forall h :: h in m ==> Overlap(f, h, m[h]) == 0 || (h in best && Overlap(f, h, m[h]) <= Overlap(f, h, best[h]))
    ensures Matched(f, m) <= Matched(f, best)
    decreases |m|
  {
    if |m| == 0 {
      assert m == map[];
      CountZero(Hit(f, m), f.Length());
    } else {
      var h :| h in m;
      MatchedRemove(f, m, h);
      if h in best {
        BestIsOptimal(f, best - {h}, m - {h});
        MatchedRemove(f, best, h);
      } else {
        BestIsOptimal(f, best, m - {h});
      }
    }
  }

  lemma StrictBestIsOptimal(f: Frames, best: map<Label, Label>, m: map<Label, Label>)
    requires IsStrictBest(f, best)
    ensures Matched(f, m) <= Matched(f, best)
  {
    BestIsOptimal(f, best, m);
  }

  lemma GreedyIsBest(f: Frames, pairs: seq<Pair>, best: map<Label, Label>)
    requires IsListing(f, pairs) && IsStrictBest(f, best) && OneToOne(best)
    ensures GreedyMap(pairs) == best
  {
    GreedyFollowsBest(f, best, pairs, |pairs|);
    assert pairs[..|pairs|] == pairs;
    forall h | h in best ensures Pair(h, best[h]) in pairs {
      assert Overlap(f, h, best[h]) > 0;
    }
  }

  /**
    When every hypothesis label has a strictly best reference, greedy gives each
    label that reference exactly when those references are pairwise different,
    and then no map has a larger total.
   */
  lemma GreedyIsExact(f: Frames, g: map<Label, Label>, best: map<Label, Label>)
    requires IsGreedy(f, g) && IsStrictBest(f, best)
    ensures g == best <==> OneToOne(best)
    ensures OneToOne(best) ==> forall m :: Matched(f, m) <= Matched(f, g)
  {
    GreedyIsMaximal(f, g);
    if OneToOne(best) {
      var pairs :| IsListing(f, pairs) && g == GreedyMap(pairs);
      GreedyIsBest(f, pairs, best);
      forall m ensures Matched(f, m) <= Matched(f, g) {
        StrictBestIsOptimal(f, best, m);
      }
    }
  }

  // ----- The table, the sort and the pass, as the program runs them ---------------------

  /** Overlaps of the first `n` frames. */
  ghost predicate IsTable(f: Frames, n: nat, table: map<Pair, nat>) {
    && (forall p :: p in table <==> Count(OnPair(f, p.hyp, p.ref), n) > 0)
    && (forall p :: p in table ==> table[p] == Count(OnPair(f, p.hyp, p.ref), n))
  }

  method OverlapTable(f: Frames) returns (table: map<Pair, nat>)
    ensures IsTable(f, f.Length(), table)
  {
    table := map[];
    for i := 0 to f.Length()
      invariant IsTable(f, i, table)
    {
      var r, h := f.ref[i], f.hyp[i];
      if r == SILENCE || h == SILENCE {
        continue;
      }
      var p := Pair(h, r);
      table := table[p := (if p in table then table[p] else 0) + 1];
    }
  }

  lemma {:induction false} HeaviestExists(table: map<Pair, nat>, rest: set<Pair>)
    requires rest != {} && rest <= table.Keys
    ensures exists p :: p in rest && forall q :: q in rest ==> table[q] <= table[p]
    decreases |rest|
  {
    var x :| x in rest;
    if rest != {x} {
      assert rest - {x} != {};
      HeaviestExists(table, rest - {x});
      var p :| p in rest - {x} && forall q :: q in rest - {x} ==> table[q] <= table[p];
      var top := if table[x] <= table[p] then p else x;
      assert top in rest && forall q :: q in rest ==> table[q] <= table[top];
    }
  }

  /** Any descending order may come out: ties keep the arbitrary order of the hash table. */
  method SortedPairs(table: map<Pair, nat>) returns (pairs: seq<Pair>)
    ensures forall p :: p in pairs <==> p in table
    ensures forall i, j :: 0 <= i < j < |pairs| ==> pairs[i] != pairs[j]
    ensures forall i, j :: 0 <= i < j < |pairs| ==> table[pairs[i]] >= table[pairs[j]]
  {
    pairs := [];
    var rest := table.Keys;
    while rest != {}
      invariant rest <= table.Keys
      invariant forall p :: p in pairs <==> p in table.Keys - rest
      invariant forall i :: 0 <= i < |pairs| ==> pairs[i] in table
      invariant forall i, j :: 0 <= i < j < |pairs| ==> pairs[i] != pairs[j]
      invariant forall i, j :: 0 <= i < j < |pairs| ==> table[pairs[i]] >= table[pairs[j]]
      invariant forall i, q :: 0 <= i < |pairs| && q in rest ==> table[pairs[i]] >= table[q]
    {
      HeaviestExists(table, rest);
      var p :| p in rest && forall q :: q in rest ==> table[q] <= table[p];
      assert p !in pairs;
      assert forall i :: 0 <= i < |pairs| ==> pairs[i] in pairs;
      pairs, rest := pairs + [p], rest - {p};
    }
  }

  method ClaimAll(pairs: seq<Pair>) returns (hypToRef: map<Label, Label>)
    ensures hypToRef == GreedyMap(pairs)
  {
    hypToRef := map[];
    var claimed: set<Label> := {};
    for i := 0 to |pairs|
      invariant hypToRef == GreedyMap(pairs[..i])
      invariant claimed == hypToRef.Values
    {
      var p := pairs[i];
      assert pairs[..i + 1][..i] == pairs[..i];
      if p.hyp in hypToRef || p.ref in claimed {
        continue;
      }
      ValuesAfterInsert(hypToRef, p.hyp, p.ref);
      hypToRef := hypToRef[p.hyp := p.ref];
      claimed := claimed + {p.ref};
    }
    assert pairs[..|pairs|] == pairs;
  }

  lemma ValuesAfterInsert(m: map<Label, Label>, h: Label, r: Label)
    requires h !in m
    ensures m[h := r].Values == m.Values + {r}
  {
    var m' := m[h := r];
    forall v | v in m.Values + {r} ensures v in m'.Values {
      if v != r {
        var x :| x in m && m[x] == v;
        assert m'[x] == v;
      } else {
        assert m'[h] == r;
      }
    }
  }

  method GreedySpeakerMapping(f: Frames) returns (mapping: map<Label, Label>)
    ensures IsGreedy(f, mapping)
  {
    var table := OverlapTable(f);
    var pairs := SortedPairs(table);
    forall h, r ensures Pair(h, r) in pairs <==> Overlap(f, h, r) > 0 {
      assert Pair(h, r) in table <==> Overlap(f, h, r) > 0;
    }
    assert IsListing(f, pairs);
    mapping := ClaimAll(pairs);
  }

  // ----- Why the bounds are what they are ------------------------------------------------

  /** Two labels, `x` and `y`, that both prefer the reference `r`; `x` could also take `s`. */
  ghost predicate Clash(f: Frames, pairs: seq<Pair>, w0: nat, w1: nat, w2: nat) {
    && |pairs| == 3 && w0 >= w1 >= w2 > 0
    && pairs[0].hyp == pairs[1].hyp != pairs[2].hyp && pairs[0].ref == pairs[2].ref != pairs[1].ref
    && forall h, r :: Overlap(f, h, r) ==
        if Pair(h, r) == pairs[0] then w0 else if Pair(h, r) == pairs[1] then w1 else if Pair(h, r) == pairs[2] then w2 else 0
  }

  /** Greedy takes the first pair, which rules out both others. */
  lemma GreedyOnClash(f: Frames, pairs: seq<Pair>, w0: nat, w1: nat, w2: nat)
    requires Clash(f, pairs, w0, w1, w2)
    ensures IsGreedy(f, map[pairs[0].hyp := pairs[0].ref])
  {
    var g := map[pairs[0].hyp := pairs[0].ref];
    assert GreedyMap(pairs[..1]) == g by {
      assert pairs[..1][..0] == [];
    }
    assert pairs[0].ref in g.Values by {
      assert g[pairs[0].hyp] == pairs[0].ref;
    }
    assert GreedyMap(pairs[..2]) == g by {
      assert pairs[..2][..1] == pairs[..1];
    }
    assert GreedyMap(pairs) == g by {
      assert pairs[..3][..2] == pairs[..2] && pairs[..3] == pairs;
    }
    assert pairs == [pairs[0], pairs[1], pairs[2]];
    assert forall k :: 0 <= k < 3 ==> Weight(f, pairs[k]) == if k == 0 then w0 else if k == 1 then w1 else w2;
    assert IsListing(f, pairs);
  }

  lemma ClashTotals(f: Frames, pairs: seq<Pair>, w0: nat, w1: nat, w2: nat)
    requires Clash(f, pairs, w0, w1, w2)
    ensures Matched(f, map[pairs[0].hyp := pairs[0].ref]) == w0
    ensures OneToOne(map[pairs[1].hyp := pairs[1].ref, pairs[2].hyp := pairs[2].ref])
    ensures Matched(f, map[pairs[1].hyp := pairs[1].ref, pairs[2].hyp := pairs[2].ref]) == w1 + w2
  {
    var x, y := pairs[1].hyp, pairs[2].hyp;
    var g := map[x := pairs[0].ref];
    var m := map[x := pairs[1].ref, y := pairs[2].ref];
    CountZero(Hit(f, map[]), f.Length());
    MatchedRemove(f, g, x);
    assert g - {x} == map[];
    MatchedRemove(f, m, x);
    MatchedRemove(f, m - {x}, y);
    assert m - {x} - {y} == map[];
    assert pairs[1] == Pair(x, m[x]) && pairs[2] == Pair(y, m[y]) && pairs[0] == Pair(x, g[x]);
  }

  lemma ClashBest(f: Frames, pairs: seq<Pair>, w0: nat, w1: nat, w2: nat)
    requires Clash(f, pairs, w0, w1, w2) && w0 > w1
    ensures IsStrictBest(f, map[pairs[0].hyp := pairs[0].ref, pairs[2].hyp := pairs[2].ref])
  {
    assert pairs[0] == Pair(pairs[0].hyp, pairs[0].ref) && pairs[2] == Pair(pairs[2].hyp, pairs[2].ref);
  }

  /** Two labels, two references, nobody silent. */
  ghost predicate FourLabels(x: Label, y: Label, r: Label, s: Label) {
    x != y && r != s && SILENCE !in {x, y, r, s}
  }

  lemma ThreeFrames(x: Label, y: Label, r: Label, s: Label)
    requires FourLabels(x, y, r, s)
    ensures Clash(Frames([r, s, r], [x, x, y]), [Pair(x, r), Pair(x, s), Pair(y, r)], 1, 1, 1)
  {
    var f, pairs := Frames([r, s, r], [x, x, y]), [Pair(x, r), Pair(x, s), Pair(y, r)];
    forall h, t ensures Overlap(f, h, t) == if Pair(h, t) in pairs then 1 else 0 {
      var p := OnPair(f, h, t);
      assert Count(p, 3) == Count(p, 2) + if p(2) then 1 else 0;
    }
  }

  lemma SevenFrames(x: Label, y: Label, r: Label, s: Label)
    requires FourLabels(x, y, r, s)
    ensures Clash(Frames([r, r, r, s, s, r, r], [x, x, x, x, x, y, y]), [Pair(x, r), Pair(x, s), Pair(y, r)], 3, 2, 2)
  {
    var f, pairs := Frames([r, r, r, s, s, r, r], [x, x, x, x, x, y, y]), [Pair(x, r), Pair(x, s), Pair(y, r)];
    forall h, t ensures Overlap(f, h, t) == if Pair(h, t) == pairs[0] then 3 else if Pair(h, t) in pairs then 2 else 0 {
      var p := OnPair(f, h, t);
      assert Count(p, 3) == Count(p, 2) + if p(2) then 1 else 0;
      assert Count(p, 5) == Count(p, 4) + if p(4) then 1 else 0;
      assert Count(p, 7) == Count(p, 6) + if p(6) then 1 else 0;
    }
  }

  /** Three frames on which the greedy total is exactly half of the optimum. */
  lemma HalfIsTight(x: Label, y: Label, r: Label, s: Label)
    requires FourLabels(x, y, r, s)
    ensures var f := Frames([r, s, r], [x, x, y]);
            IsGreedy(f, map[x := r]) && OneToOne(map[x := s, y := r])
            && Matched(f, map[x := s, y := r]) == 2 * Matched(f, map[x := r]) == 2
  {
    var f, pairs := Frames([r, s, r], [x, x, y]), [Pair(x, r), Pair(x, s), Pair(y, r)];
    ThreeFrames(x, y, r, s);
    GreedyOnClash(f, pairs, 1, 1, 1);
    ClashTotals(f, pairs, 1, 1, 1);
  }

  /**
    Each label may have a strictly best reference and greedy still miss the
    optimum, when two labels have the same one.
   */
  lemma SharedBestIsNotExact(x: Label, y: Label, r: Label, s: Label)
    requires FourLabels(x, y, r, s)
    ensures var f := Frames([r, r, r, s, s, r, r], [x, x, x, x, x, y, y]);
            IsGreedy(f, map[x := r]) && IsStrictBest(f, map[x := r, y := r])
            && OneToOne(map[x := s, y := r]) && Matched(f, map[x := s, y := r]) > Matched(f, map[x := r])
  {
    var f, pairs := Frames([r, r, r, s, s, r, r], [x, x, x, x, x, y, y]), [Pair(x, r), Pair(x, s), Pair(y, r)];
    SevenFrames(x, y, r, s);
    GreedyOnClash(f, pairs, 3, 2, 2);
    ClashTotals(f, pairs, 3, 2, 2);
    ClashBest(f, pairs, 3, 2, 2);
  }
}
