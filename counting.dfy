/** Two facts about the sizes of finite sets of naturals, used to count lanes
    against overlapping events. */
module Counting {

  /** The naturals below `n`, all `n` of them. */
  function Below(n: nat): (b: set<nat>)
    ensures forall k: int :: k in b <==> 0 <= k < n
    ensures |b| == n
  {
    if n == 0 then {} else Below(n - 1) + {n - 1}
  }

  /** A map that sends `A` into `B` without merging two elements shows that
      `A` is no larger than `B`. */
  lemma {:induction false} InjectionBound(A: set<nat>, B: set<nat>, f: nat -> nat)
    requires forall a :: a in A ==> f(a) in B
    requires forall a, a' :: a in A && a' in A && f(a) == f(a') ==> a == a'
    ensures |A| <= |B|
    decreases |A|
  {
    if A != {} {
      var x :| x in A;
      InjectionBound(A - {x}, B - {f(x)}, f);
    }
  }
}
