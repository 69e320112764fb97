/** Small facts about sequences that the solver finds more easily one at a time. */
module Sequences {

  lemma Associative<X>(x: seq<X>, y: seq<X>, z: seq<X>)
    ensures (x + y) + z == x + (y + z)
  {
  }

  lemma HeadTail<X>(a: seq<X>, b: seq<X>)
    requires a != []
    ensures a + b == [a[0]] + (a[1..] + b) && (a + b)[0] == a[0] && (a + b)[1..] == a[1..] + b
  {
  }

  lemma SplitLast<X>(a: seq<X>, b: seq<X>)
    requires b != []
    ensures b == b[..|b| - 1] + [b[|b| - 1]]
    ensures a + b == (a + b[..|b| - 1]) + [b[|b| - 1]]
  {
  }
}
