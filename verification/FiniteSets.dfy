/**
  Sizes of finite sets.
*/
module FiniteSets {

  lemma {:induction false} SubsetSize<T>(a: set<T>, b: set<T>)
    requires a <= b
    ensures |a| <= |b|
  {
    if a != {} {
      var x :| x in a;
      SubsetSize(a - {x}, b - {x});
    }
  }

  lemma Another<T>(a: set<T>, x: T) returns (y: T)
    requires |a| >= 2
    ensures y in a && y != x
  {
    if a <= {x} { SubsetSize(a, {x}); }
    y :| y in a && y != x;
  }
}
