/** How often a mapping occurs in a list: the ownership statements count places. */
module Counting {

  function Count(xs: seq<nat>, a: nat): nat {
    multiset(xs)[a]
  }

  lemma CountAppend(xs: seq<nat>, ys: seq<nat>, a: nat)
    ensures Count(xs + ys, a) == Count(xs, a) + Count(ys, a)
  {
    assert multiset(xs + ys) == multiset(xs) + multiset(ys);
  }
}
