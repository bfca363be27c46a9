/** Counting facts about finite sets used to state row and link counts. */
module Cardinality {

  /** The half-open range [a, b) of naturals, with its size. */
  function Range(a: nat, b: nat): (r: set<nat>)
    ensures forall i :: i in r <==> a <= i < b
    ensures a <= b ==> |r| == b - a
    decreases b
  {
    if b <= a then {} else Range(a, b - 1) + {b - 1}
  }

  /** The image of `s` under `f`. */
  function Image<A, B>(s: set<A>, f: A -> B): (r: set<B>)
    ensures forall x :: x in s ==> f(x) in r
    ensures forall y :: y in r ==> exists x :: x in s && f(x) == y
  {
    set x | x in s :: f(x)
  }

  /** A function that is injective on `s` maps it onto a set of the same size. */
  lemma {:induction false} InjectiveImageCard<A, B>(s: set<A>, f: A -> B)
    requires forall x, y :: x in s && y in s && f(x) == f(y) ==> x == y
    ensures |Image(s, f)| == |s|
    decreases |s|
  {
    if s == {} {
      assert Image(s, f) == {};
    } else {
      var x :| x in s;
      var s' := s - {x};
      InjectiveImageCard(s', f);
      assert Image(s, f) == Image(s', f) + {f(x)};
      assert f(x) !in Image(s', f);
    }
  }
}
