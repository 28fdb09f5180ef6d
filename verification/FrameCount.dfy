/** Counting the frames that satisfy a property. */
module FrameCount {

  ghost function Count(p: nat -> bool, n: nat): nat {
    if n == 0 then 0 else Count(p, n - 1) + if p(n - 1) then 1 else 0
  }

  /** It is the size of the set of frames. */
  lemma {:induction false} CountIsCardinality(p: nat -> bool, n: nat)
    ensures Count(p, n) == |set i: nat | i < n && p(i)|
  {
    if n > 0 {
      CountIsCardinality(p, n - 1);
      var before, now := set i: nat | i < n - 1 && p(i), set i: nat | i < n && p(i);
      assert now == before + if p(n - 1) then {n - 1} else {};
    }
  }

  /** `p` holds on the frames of `q` and on those of `r`, which are disjoint. */
  lemma {:induction false} CountSplit(p: nat -> bool, q: nat -> bool, r: nat -> bool, n: nat)
    requires forall i: nat :: i < n ==> (p(i) <==> q(i) || r(i)) && !(q(i) && r(i))
    ensures Count(p, n) == Count(q, n) + Count(r, n)
  {
    if n > 0 {
      CountSplit(p, q, r, n - 1);
    }
  }

  lemma {:induction false} CountMono(p: nat -> bool, q: nat -> bool, n: nat)
    requires forall i: nat :: i < n && p(i) ==> q(i)
    ensures Count(p, n) <= Count(q, n)
  {
    if n > 0 {
      CountMono(p, q, n - 1);
    }
  }

  lemma CountSame(p: nat -> bool, q: nat -> bool, n: nat)
    requires forall i: nat :: i < n ==> (p(i) <==> q(i))
    ensures Count(p, n) == Count(q, n)
  {
    CountMono(p, q, n);
    CountMono(q, p, n);
  }

  lemma {:induction false} CountZero(p: nat -> bool, n: nat)
    ensures Count(p, n) == 0 <==> forall i: nat :: i < n ==> !p(i)
  {
    if n > 0 {
      CountZero(p, n - 1);
    }
  }
}
