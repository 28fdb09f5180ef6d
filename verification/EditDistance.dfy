/**
  Levenshtein distance between token sequences: what it means (the length of a
  shortest chain of single edits), that it is a metric, and that both of the
  repository's dynamic programs compute it.
 */
module EditDistance {

  // ----- The recurrence -------------------------------------------------------

  function Min3(x: nat, y: nat, z: nat): nat {
    var m := if y < x then y else x;
    if z < m then z else m
  }

  ghost function Cost<T>(x: T, y: T): nat {
    if x == y then 0 else 1
  }

  /** Distance between the prefixes `a[..i]` and `b[..j]`. */
  ghost function D<T>(a: seq<T>, b: seq<T>, i: nat, j: nat): nat
    requires i <= |a| && j <= |b|
    decreases i, j, 1
  {
    if i == 0 then j
    else if j == 0 then i
    else Cheapest(a, b, i, j)
  }

  /** The cheapest way to finish: delete `a[i - 1]`, insert `b[j - 1]`, or line the two up. */
  ghost function Cheapest<T>(a: seq<T>, b: seq<T>, i: nat, j: nat): nat
    requires 0 < i <= |a| && 0 < j <= |b|
    decreases i, j, 0
  {
    Min3(D(a, b, i - 1, j) + 1, D(a, b, i, j - 1) + 1, D(a, b, i - 1, j - 1) + Cost(a[i - 1], b[j - 1]))
  }

  ghost function Dist<T>(a: seq<T>, b: seq<T>): nat {
    D(a, b, |a|, |b|)
  }

  // ----- The meaning: chains of single edits ------------------------------------

  /** `t` is `s` with one token inserted, deleted or replaced. */
  ghost predicate OneEdit<T(!new)>(s: seq<T>, t: seq<T>) {
    || (exists i, x :: Inserted(s, t, i, x))
    || (exists i, x :: Inserted(t, s, i, x))
    || (exists i, x :: Replaced(s, t, i, x))
  }

  ghost predicate Inserted<T>(s: seq<T>, t: seq<T>, i: nat, x: T) {
    i <= |s| && t == s[..i] + [x] + s[i..]
  }

  ghost predicate Replaced<T>(s: seq<T>, t: seq<T>, i: nat, x: T) {
    i < |s| && t == s[i := x]
  }

  /** `path` leads from `s` to `t`, one edit at a time. */
  ghost predicate EditChain<T(!new)>(path: seq<seq<T>>, s: seq<T>, t: seq<T>) {
    && |path| >= 1 && path[0] == s && path[|path| - 1] == t
    && forall k :: 0 <= k < |path| - 1 ==> OneEdit(path[k], path[k + 1])
  }

  // ----- Metric laws on prefixes --------------------------------------------------

  lemma {:induction false} SymmetricAt<T>(a: seq<T>, b: seq<T>, i: nat, j: nat)
    requires i <= |a| && j <= |b|
    ensures D(a, b, i, j) == D(b, a, j, i)
  {
    if i > 0 && j > 0 {
      SymmetricAt(a, b, i - 1, j);
      SymmetricAt(a, b, i, j - 1);
      SymmetricAt(a, b, i - 1, j - 1);
    }
  }

  lemma {:induction false} BoundsAt<T>(a: seq<T>, b: seq<T>, i: nat, j: nat)
    requires i <= |a| && j <= |b|
    ensures i - j <= D(a, b, i, j) && j - i <= D(a, b, i, j)
    ensures D(a, b, i, j) <= i || D(a, b, i, j) <= j
  {
    if i > 0 && j > 0 {
      BoundsAt(a, b, i - 1, j);
      BoundsAt(a, b, i, j - 1);
      BoundsAt(a, b, i - 1, j - 1);
    }
  }

  lemma {:induction false} ZeroAt<T>(a: seq<T>, b: seq<T>, i: nat, j: nat)
    requires i <= |a| && j <= |b|
    ensures D(a, b, i, j) == 0 <==> a[..i] == b[..j]
  {
    BoundsAt(a, b, i, j);
    if i > 0 && j > 0 {
      ZeroAt(a, b, i - 1, j - 1);
      assert a[..i] == a[..i - 1] + [a[i - 1]];
      assert b[..j] == b[..j - 1] + [b[j - 1]];
    }
  }

  lemma {:induction false} TriangleAt<T>(a: seq<T>, b: seq<T>, c: seq<T>, i: nat, j: nat, k: nat)
    requires i <= |a| && j <= |b| && k <= |c|
    ensures D(a, c, i, k) <= D(a, b, i, j) + D(b, c, j, k)
    decreases i + j + k
  {
    if i == 0 {
      BoundsAt(b, c, j, k);
    } else if k == 0 {
      BoundsAt(a, b, i, j);
    } else if j == 0 {
      BoundsAt(a, c, i, k);
    } else if D(a, b, i, j) == D(a, b, i - 1, j) + 1 {
      TriangleAt(a, b, c, i - 1, j, k);
    } else if D(b, c, j, k) == D(b, c, j, k - 1) + 1 {
      TriangleAt(a, b, c, i, j, k - 1);
    } else if D(b, c, j, k) == D(b, c, j - 1, k) + 1 {
      if D(a, b, i, j) == D(a, b, i, j - 1) + 1 {
        TriangleAt(a, b, c, i, j - 1, k);
      } else {
        TriangleAt(a, b, c, i - 1, j - 1, k);
      }
    } else if D(a, b, i, j) == D(a, b, i, j - 1) + 1 {
      TriangleAt(a, b, c, i, j - 1, k - 1);
    } else {
      TriangleAt(a, b, c, i - 1, j - 1, k - 1);
    }
  }

  /** The distance is a metric, and lies between the length difference and the longer length. */
  lemma Metric<T>(a: seq<T>, b: seq<T>, c: seq<T>)
    ensures Dist(a, b) == Dist(b, a)
    ensures Dist(a, b) == 0 <==> a == b
    ensures Dist(a, c) <= Dist(a, b) + Dist(b, c)
    ensures |a| - |b| <= Dist(a, b) && |b| - |a| <= Dist(a, b)
    ensures Dist(a, b) <= if |a| < |b| then |b| else |a|
  {
    SymmetricAt(a, b, |a|, |b|);
    ZeroAt(a, b, |a|, |b|);
    assert a[..|a|] == a && b[..|b|] == b;
    TriangleAt(a, b, c, |a|, |b|, |c|);
    BoundsAt(a, b, |a|, |b|);
  }

  // ----- Every chain is at least as long as the distance ----------------------------

  /** Common tokens after a pair of prefixes never raise the distance. */
  lemma {:induction false} SharedTail<T>(a: seq<T>, b: seq<T>, i: nat, j: nat, n: nat)
    requires i + n <= |a| && j + n <= |b|
    requires a[i..i + n] == b[j..j + n]
    ensures D(a, b, i + n, j + n) <= D(a, b, i, j)
  {
    if n > 0 {
      assert a[i..i + n - 1] == a[i..i + n][..n - 1] && b[j..j + n - 1] == b[j..j + n][..n - 1];
      SharedTail(a, b, i, j, n - 1);
      assert a[i + n - 1] == a[i..i + n][n - 1] && b[j + n - 1] == b[j..j + n][n - 1];
    }
  }

  lemma InsertionCostsOne<T>(s: seq<T>, t: seq<T>, i: nat, x: T)
    requires Inserted(s, t, i, x)
    ensures Dist(s, t) <= 1
  {
    ZeroAt(s, t, i, i);
    assert s[..i] == t[..i];
    SharedTail(s, t, i, i + 1, |s| - i);
  }

  lemma ReplacementCostsOne<T>(s: seq<T>, t: seq<T>, i: nat, x: T)
    requires Replaced(s, t, i, x)
    ensures Dist(s, t) <= 1
  {
    ZeroAt(s, t, i, i);
    assert s[..i] == t[..i];
    SharedTail(s, t, i + 1, i + 1, |s| - i - 1);
  }

  lemma OneEditCostsOne<T(!new)>(s: seq<T>, t: seq<T>)
    requires OneEdit(s, t)
    ensures Dist(s, t) <= 1
  {
    if i: nat, x :| Inserted(s, t, i, x) {
      InsertionCostsOne(s, t, i, x);
    } else if i: nat, x :| Inserted(t, s, i, x) {
      InsertionCostsOne(t, s, i, x);
      Metric(t, s, s);
    } else {
      var i: nat, x :| Replaced(s, t, i, x);
      ReplacementCostsOne(s, t, i, x);
    }
  }

  lemma {:induction false} ChainsAreLong<T(!new)>(path: seq<seq<T>>, s: seq<T>, t: seq<T>)
    requires EditChain(path, s, t)
    ensures Dist(s, t) <= |path| - 1
    decreases |path|
  {
    if |path| == 1 {
      Metric(s, t, t);
    } else {
      var u := path[|path| - 2];
      ChainsAreLong(path[..|path| - 1], s, u);
      OneEditCostsOne(u, t);
      Metric(s, u, t);
    }
  }

  // ----- Some chain is exactly as long as the distance -------------------------------

  /** `path` with the token `x` appended to every sequence on it. */
  ghost function Extended<T>(path: seq<seq<T>>, x: T): (r: seq<seq<T>>) {
    seq(|path|, k requires 0 <= k < |path| => path[k] + [x])
  }

  lemma OneEditExtended<T(!new)>(s: seq<T>, t: seq<T>, x: T)
    requires OneEdit(s, t)
    ensures OneEdit(s + [x], t + [x])
  {
    if i: nat, y :| Inserted(s, t, i, y) {
      assert t + [x] == (s + [x])[..i] + [y] + (s + [x])[i..];
      assert Inserted(s + [x], t + [x], i, y);
    } else if i: nat, y :| Inserted(t, s, i, y) {
      assert s + [x] == (t + [x])[..i] + [y] + (t + [x])[i..];
      assert Inserted(t + [x], s + [x], i, y);
    } else {
      var i: nat, y :| Replaced(s, t, i, y);
      assert t + [x] == (s + [x])[i := y];
      assert Replaced(s + [x], t + [x], i, y);
    }
  }

  lemma ChainExtended<T(!new)>(path: seq<seq<T>>, s: seq<T>, t: seq<T>, x: T)
    requires EditChain(path, s, t)
    ensures EditChain(Extended(path, x), s + [x], t + [x])
  {
    var r := Extended(path, x);
    forall k | 0 <= k < |r| - 1 ensures OneEdit(r[k], r[k + 1]) {
      OneEditExtended(path[k], path[k + 1], x);
    }
  }

  lemma ChainAppended<T(!new)>(path: seq<seq<T>>, s: seq<T>, t: seq<T>, u: seq<T>)
    requires EditChain(path, s, t) && OneEdit(t, u)
    ensures EditChain(path + [u], s, u)
  {
    var r := path + [u];
    forall k | 0 <= k < |r| - 1 ensures OneEdit(r[k], r[k + 1]) {
      if k < |path| - 1 {
        assert r[k] == path[k] && r[k + 1] == path[k + 1];
      }
    }
  }

  lemma ChainPrepended<T(!new)>(path: seq<seq<T>>, s: seq<T>, t: seq<T>, u: seq<T>)
    requires EditChain(path, s, t) && OneEdit(u, s)
    ensures EditChain([u] + path, u, t)
  {
    var r := [u] + path;
    forall k | 0 <= k < |r| - 1 ensures OneEdit(r[k], r[k + 1]) {
      if k > 0 {
        assert r[k] == path[k - 1] && r[k + 1] == path[k];
      }
    }
  }

  /** Follow the recurrence backwards to build a chain of exactly `D(a, b, i, j)` edits. */
  lemma {:induction false} ShortestChain<T(!new)>(a: seq<T>, b: seq<T>, i: nat, j: nat) returns (path: seq<seq<T>>)
    requires i <= |a| && j <= |b|
    ensures EditChain(path, a[..i], b[..j]) && |path| - 1 == D(a, b, i, j)
    decreases i + j
  {
    if i == 0 && j == 0 {
      path := [[]];
    } else if j > 0 && D(a, b, i, j) == D(a, b, i, j - 1) + 1 {
      path := ShortestChain(a, b, i, j - 1);
      assert Inserted(b[..j - 1], b[..j], j - 1, b[j - 1]);
      ChainAppended(path, a[..i], b[..j - 1], b[..j]);
      path := path + [b[..j]];
    } else if i > 0 && D(a, b, i, j) == D(a, b, i - 1, j) + 1 {
      path := ShortestChain(a, b, i - 1, j);
      assert Inserted(a[..i - 1], a[..i], i - 1, a[i - 1]);
      ChainPrepended(path, a[..i - 1], b[..j], a[..i]);
      path := [a[..i]] + path;
    } else {
      path := ShortestChainDiagonal(a, b, i, j);
    }
  }

  lemma {:induction false} ShortestChainDiagonal<T(!new)>(a: seq<T>, b: seq<T>, i: nat, j: nat)
    returns (path: seq<seq<T>>)
    requires 0 < i <= |a| && 0 < j <= |b|
    requires D(a, b, i, j) == D(a, b, i - 1, j - 1) + Cost(a[i - 1], b[j - 1])
    ensures EditChain(path, a[..i], b[..j]) && |path| - 1 == D(a, b, i, j)
    decreases i + j, 0
  {
    var y := b[j - 1];
    var p := ShortestChain(a, b, i - 1, j - 1);
    ChainExtended(p, a[..i - 1], b[..j - 1], y);
    path := Extended(p, y);
    assert b[..j - 1] + [y] == b[..j];
    if a[i - 1] == y {
      assert a[..i - 1] + [y] == a[..i];
    } else {
      assert Replaced(a[..i], a[..i - 1] + [y], i - 1, y);
      ChainPrepended(path, a[..i - 1] + [y], b[..j], a[..i]);
      path := [a[..i]] + path;
    }
  }

  /** `Dist` is the least number of insertions, deletions and substitutions from `a` to `b`. */
  lemma LeastEdits<T(!new)>(a: seq<T>, b: seq<T>)
    ensures exists path :: EditChain(path, a, b) && |path| - 1 == Dist(a, b)
    ensures forall path :: EditChain(path, a, b) ==> Dist(a, b) <= |path| - 1
  {
    var path := ShortestChain(a, b, |a|, |b|);
    assert a[..|a|] == a && b[..|b|] == b;
    assert EditChain(path, a, b);
    forall p | EditChain(p, a, b) ensures Dist(a, b) <= |p| - 1 {
      ChainsAreLong(p, a, b);
    }
  }

  // ----- The two dynamic programs ------------------------------------------------------

  /** `row` is row `i` of the table for `a` and `b`. */
  ghost predicate IsRow<T>(row: seq<nat>, a: seq<T>, b: seq<T>, i: nat) {
    i <= |a| && |row| == |b| + 1 && forall j :: 0 <= j <= |b| ==> row[j] == D(a, b, i, j)
  }

  /** The inner loop: row `i` into `curr`, from row `i - 1` in `prev`. */
  method FillRow<T(==)>(a: seq<T>, b: seq<T>, i: nat, prev: array<nat>, curr: array<nat>)
    requires prev != curr && curr.Length == |b| + 1
    requires 0 < i <= |a| && IsRow(prev[..], a, b, i - 1)
    modifies curr
    ensures IsRow(curr[..], a, b, i)
  {
    curr[0] := i;
    for j := 1 to |b| + 1
      invariant prev[..] == old(prev[..])
      invariant forall k :: 0 <= k < j ==> curr[k] == D(a, b, i, k)
    {
      assert prev[j] == prev[..][j] && prev[j - 1] == prev[..][j - 1];
      var cost := if a[i - 1] == b[j - 1] then 0 else 1;
      curr[j] := Min3(prev[j] + 1, curr[j - 1] + 1, prev[j - 1] + cost);
      assert curr[j] == D(a, b, i, j);
    }
  }

  /** Two rows, exchanged after every token of the longer argument. */
  method TwoRowLevenshtein<T(==)>(left: seq<T>, right: seq<T>) returns (d: nat)
    ensures d == Dist(left, right)
  {
    if |left| == 0 {
      return |right|;
    }
    if |right| == 0 {
      return |left|;
    }
    var a, b := left, right;
    if |a| < |b| {
      a, b := b, a;
    }
    var prev := new nat[|b| + 1](j => j);
    var curr := new nat[|b| + 1](_ => 0);
    for i := 1 to |a| + 1
      invariant prev != curr && prev.Length == curr.Length == |b| + 1
      invariant fresh(prev) && fresh(curr)
      invariant IsRow(prev[..], a, b, i - 1)
    {
      FillRow(a, b, i, prev, curr);
      prev, curr := curr, prev;
    }
    d := prev[|b|];
    Metric(a, b, b);
  }

  /** The whole table, one cell per pair of prefixes. */
  method FullMatrixLevenshtein<T(==)>(a: seq<T>, b: seq<T>) returns (d: nat)
    ensures d == Dist(a, b)
  {
    var m, n := |a|, |b|;
    var dp := new nat[m + 1, n + 1]((_, _) => 0);
    for i := 0 to m + 1
      invariant forall k :: 0 <= k < i ==> dp[k, 0] == k
    {
      dp[i, 0] := i;
    }
    for j := 0 to n + 1
      invariant forall k :: 0 <= k <= m ==> dp[k, 0] == k
      invariant forall k :: 0 <= k < j ==> dp[0, k] == k
    {
      dp[0, j] := j;
    }
    for i := 1 to m + 1
      invariant forall k :: 0 <= k <= m ==> dp[k, 0] == k
      invariant forall p, q :: 0 <= p < i && 0 <= q <= n ==> dp[p, q] == D(a, b, p, q)
    {
      for j := 1 to n + 1
        invariant forall k :: 0 <= k <= m ==> dp[k, 0] == k
        invariant forall p, q :: 0 <= p < i && 0 <= q <= n ==> dp[p, q] == D(a, b, p, q)
        invariant forall q :: 0 <= q < j ==> dp[i, q] == D(a, b, i, q)
      {
        var cost := if a[i - 1] == b[j - 1] then 0 else 1;
        dp[i, j] := Min3(dp[i - 1, j] + 1, dp[i, j - 1] + 1, dp[i - 1, j - 1] + cost);
      }
    }
    d := dp[m, n];
  }
}
