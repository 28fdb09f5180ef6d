/**
  Longest common run of words, used to merge the transcripts of overlapping
  audio chunks: a table of common-suffix lengths with a running best position.
 */
module CommonRun {
  import opened Options

  /** Where the run starts on each side, and its length. */
  datatype Run = Run(i: nat, j: nat, len: nat)

  ghost predicate IsCommon<T>(a: seq<T>, b: seq<T>, i: nat, j: nat, n: nat) {
    i + n <= |a| && j + n <= |b| && a[i..i + n] == b[j..j + n]
  }

  /** Length of the longest common run that ends just before `i` and `j`. */
  ghost function Suffix<T>(a: seq<T>, b: seq<T>, i: nat, j: nat): (n: nat)
    requires i <= |a| && j <= |b|
    ensures n <= i && n <= j
  {
    if i == 0 || j == 0 || a[i - 1] != b[j - 1] then 0 else Suffix(a, b, i - 1, j - 1) + 1
  }

  lemma {:induction false} SuffixIsCommon<T>(a: seq<T>, b: seq<T>, i: nat, j: nat)
    requires i <= |a| && j <= |b|
    ensures var n := Suffix(a, b, i, j); IsCommon(a, b, i - n, j - n, n)
  {
    var n := Suffix(a, b, i, j);
    if n > 0 {
      SuffixIsCommon(a, b, i - 1, j - 1);
      assert a[i - n..i] == a[i - n..i - 1] + [a[i - 1]];
      assert b[j - n..j] == b[j - n..j - 1] + [b[j - 1]];
    }
  }

  lemma {:induction false} SuffixIsLongest<T>(a: seq<T>, b: seq<T>, i: nat, j: nat, n: nat)
    requires IsCommon(a, b, i, j, n)
    ensures n <= Suffix(a, b, i + n, j + n)
  {
    if n > 0 {
      assert a[i..i + n - 1] == a[i..i + n][..n - 1] && b[j..j + n - 1] == b[j..j + n][..n - 1];
      SuffixIsLongest(a, b, i, j, n - 1);
      assert a[i + n - 1] == a[i..i + n][n - 1] && b[j + n - 1] == b[j..j + n][n - 1];
    }
  }

  /** Cell `(p, q)` is filled before cell `(i, j)`. */
  predicate Before(p: int, q: int, i: int, j: int) {
    p < i || (p == i && q < j)
  }

  /** The largest length so far and where that run starts, both absent until a word is shared. */
  datatype Peak = Peak(len: nat, i: Option<nat>, j: Option<nat>)

  ghost predicate Bounded<T>(a: seq<T>, b: seq<T>, i: nat, j: nat, len: nat) {
    forall p, q {:trigger Before(p, q, i, j)} ::
      0 <= p <= |a| && 0 <= q <= |b| && Before(p, q, i, j) ==> Suffix(a, b, p, q) <= len
  }

  ghost predicate FirstOfLength<T>(a: seq<T>, b: seq<T>, i: nat, j: nat, len: nat) {
    && i <= |a| && j <= |b| && Suffix(a, b, i, j) == len
    && forall p, q {:trigger Before(p, q, i, j)} ::
      0 <= p <= |a| && 0 <= q <= |b| && Before(p, q, i, j) ==> Suffix(a, b, p, q) < len
  }

  /** `best` records the first cell holding the largest length among those filled before `(i, j)`. */
  ghost predicate IsPeak<T>(a: seq<T>, b: seq<T>, i: nat, j: nat, best: Peak) {
    && Bounded(a, b, i, j, best.len)
    && (best.len == 0 ==> best.i.None? && best.j.None?)
    && (best.len > 0 ==> best.i.Some? && best.j.Some?)
    && (best.len > 0 ==> FirstOfLength(a, b, best.i.value + best.len, best.j.value + best.len, best.len))
  }

  /** What filling cell `(i, j)` does to the record. */
  function Raise(best: Peak, i: nat, j: nat, n: nat): Peak
    requires n <= i && n <= j
  {
    if n > best.len then Peak(n, Some(i - n), Some(j - n)) else best
  }

  lemma BoundedNext<T>(a: seq<T>, b: seq<T>, i: nat, j: nat, len: nat)
    requires i <= |a| && j <= |b| && Bounded(a, b, i, j, len) && Suffix(a, b, i, j) <= len
    ensures Bounded(a, b, i, j + 1, len)
  {
    forall p, q | 0 <= p <= |a| && 0 <= q <= |b| && Before(p, q, i, j + 1) ensures Suffix(a, b, p, q) <= len {
      assert Before(p, q, i, j) || (p == i && q == j);
    }
  }

  lemma RaiseIsPeak<T>(a: seq<T>, b: seq<T>, i: nat, j: nat, best: Peak)
    requires i <= |a| && j <= |b| && IsPeak(a, b, i, j, best)
    ensures IsPeak(a, b, i, j + 1, Raise(best, i, j, Suffix(a, b, i, j)))
  {
    var n := Suffix(a, b, i, j);
    if n > best.len {
      assert FirstOfLength(a, b, i, j, n);
      assert Bounded(a, b, i, j, n);
      BoundedNext(a, b, i, j, n);
    } else {
      BoundedNext(a, b, i, j, best.len);
    }
  }

  lemma PeakOfRow<T>(a: seq<T>, b: seq<T>, i: nat, best: Peak)
    requires IsPeak(a, b, i, |b| + 1, best)
    ensures IsPeak(a, b, i + 1, 0, best)
  {
    forall p, q | 0 <= p <= |a| && 0 <= q <= |b| && Before(p, q, i + 1, 0) ensures Suffix(a, b, p, q) <= best.len {
      assert Before(p, q, i, |b| + 1);
    }
  }

  /** Row `i` of the table is complete. */
  ghost predicate RowDone<T>(dp: array2<nat>, a: seq<T>, b: seq<T>, i: nat)
    requires i <= |a| && dp.Length0 == |a| + 1 && dp.Length1 == |b| + 1
    reads dp
  {
    forall q :: 0 <= q <= |b| ==> dp[i, q] == Suffix(a, b, i, q)
  }

  /** Rows from `i` on are still zero. */
  ghost predicate Untouched(dp: array2<nat>, i: nat)
    reads dp
  {
    forall p, q :: i <= p < dp.Length0 && 0 <= q < dp.Length1 ==> dp[p, q] == 0
  }

  /** The inner loop. A cell whose words differ keeps its initial zero. */
  method FillRow<T(==)>(a: seq<T>, b: seq<T>, i: nat, dp: array2<nat>, best: Peak) returns (best': Peak)
    requires dp.Length0 == |a| + 1 && dp.Length1 == |b| + 1
    requires 0 < i <= |a| && RowDone(dp, a, b, i - 1) && Untouched(dp, i)
    requires IsPeak(a, b, i, 0, best)
    modifies dp
    ensures RowDone(dp, a, b, i) && Untouched(dp, i + 1)
    ensures IsPeak(a, b, i + 1, 0, best')
  {
    best' := best;
    RaiseIsPeak(a, b, i, 0, best);
    for j := 1 to |b| + 1
      invariant RowDone(dp, a, b, i - 1) && Untouched(dp, i + 1)
      invariant forall q :: 0 <= q <= |b| ==> dp[i, q] == if q < j then Suffix(a, b, i, q) else 0
      invariant IsPeak(a, b, i, j, best')
    {
      RaiseIsPeak(a, b, i, j, best');
      if a[i - 1] == b[j - 1] {
        dp[i, j] := dp[i - 1, j - 1] + 1;
        if dp[i, j] > best'.len {
          best' := Peak(dp[i, j], Some(i - dp[i, j]), Some(j - dp[i, j]));
        }
      }
    }
    PeakOfRow(a, b, i, best');
  }

  method LongestCommonRun<T(==)>(a: seq<T>, b: seq<T>) returns (r: Option<Run>)
    ensures r.None? <==> forall i, j :: 0 <= i < |a| && 0 <= j < |b| ==> a[i] != b[j]
    ensures r.Some? ==> r.value.len > 0 && IsCommon(a, b, r.value.i, r.value.j, r.value.len)
    ensures r.Some? ==> forall i: nat, j: nat, n: nat :: IsCommon(a, b, i, j, n) ==> n <= r.value.len
    ensures r.Some? ==>
      forall i: nat, j: nat :: IsCommon(a, b, i, j, r.value.len) ==> !Before(i, j, r.value.i, r.value.j)
  {
    var dp := new nat[|a| + 1, |b| + 1]((_, _) => 0);
    var best := Peak(0, None, None);
    for i := 1 to |a| + 1
      invariant RowDone(dp, a, b, i - 1) && Untouched(dp, i)
      invariant IsPeak(a, b, i, 0, best)
    {
      best := FillRow(a, b, i, dp, best);
    }
    PeakIsLongest(a, b, best);
    r := match (best.i, best.j)
      case (Some(i), Some(j)) => if best.len > 0 then Some(Run(i, j, best.len)) else None
      case _ => None;
  }

  lemma PeakIsLongest<T>(a: seq<T>, b: seq<T>, best: Peak)
    requires IsPeak(a, b, |a| + 1, 0, best)
    ensures best.len == 0 <==> forall i, j :: 0 <= i < |a| && 0 <= j < |b| ==> a[i] != b[j]
    ensures best.len > 0 ==> IsCommon(a, b, best.i.value, best.j.value, best.len)
    ensures best.len > 0 ==> forall i: nat, j: nat, n: nat :: IsCommon(a, b, i, j, n) ==> n <= best.len
    ensures best.len > 0 ==>
      forall i: nat, j: nat :: IsCommon(a, b, i, j, best.len) ==> !Before(i, j, best.i.value, best.j.value)
  {
    var len := best.len;
    if len == 0 {
      forall i, j | 0 <= i < |a| && 0 <= j < |b| ensures a[i] != b[j] {
        assert Before(i + 1, j + 1, |a| + 1, 0);
        assert Suffix(a, b, i + 1, j + 1) == 0;
      }
    } else {
      var bi, bj := best.i.value + len, best.j.value + len;
      SuffixIsCommon(a, b, bi, bj);
      assert a[bi - 1] == b[bj - 1];
      forall i: nat, j: nat, n: nat | IsCommon(a, b, i, j, n)
        ensures n <= len && (n == len ==> !Before(i, j, best.i.value, best.j.value))
      {
        SuffixIsLongest(a, b, i, j, n);
        assert Before(i + n, j + n, |a| + 1, 0);
        assert n == len && Before(i, j, best.i.value, best.j.value) ==> Before(i + n, j + n, bi, bj);
      }
    }
  }
}
