/** Counting the elements of a sequence that satisfy a predicate. */
module Counting {

  ghost function Members<T>(xs: seq<T>, f: T -> bool): set<nat> {
    set i: nat | i < |xs| && f(xs[i])
  }

  ghost function Count<T>(xs: seq<T>, f: T -> bool): nat {
    |Members(xs, f)|
  }

  lemma Update<T>(xs: seq<T>, i: nat, x: T, f: T -> bool)
    requires i < |xs|
    ensures Count(xs[i := x], f) == Count(xs, f) - (if f(xs[i]) then 1 else 0) + (if f(x) then 1 else 0)
  {
    var others := Members(xs, f) - {i};
    assert Members(xs, f) == others + if f(xs[i]) then {i} else {};
    assert Members(xs[i := x], f) == others + if f(x) then {i} else {};
  }

  lemma {:induction false} SubsetIsSmaller(a: set<nat>, b: set<nat>)
    requires a <= b
    ensures |a| <= |b|
  {
    if a == {} {
    } else {
      var x :| x in a;
      SubsetIsSmaller(a - {x}, b - {x});
    }
  }

  lemma AtLeastOne<T>(xs: seq<T>, i: nat, f: T -> bool)
    requires i < |xs| && f(xs[i])
    ensures Count(xs, f) >= 1
  {
    assert i in Members(xs, f);
  }

  lemma AtLeastTwo<T>(xs: seq<T>, i: nat, j: nat, f: T -> bool)
    requires i < j < |xs| && f(xs[i]) && f(xs[j])
    ensures Count(xs, f) >= 2
  {
    SubsetIsSmaller({i, j}, Members(xs, f));
  }

  lemma Nobody<T>(xs: seq<T>, f: T -> bool)
    requires forall i :: 0 <= i < |xs| ==> !f(xs[i])
    ensures Count(xs, f) == 0
  {
    assert Members(xs, f) == {};
  }

  lemma Somebody<T>(xs: seq<T>, f: T -> bool) returns (i: nat)
    requires Count(xs, f) > 0
    ensures i < |xs| && f(xs[i])
  {
    i :| i in Members(xs, f);
  }

  lemma Weaker<T>(xs: seq<T>, f: T -> bool, g: T -> bool)
    requires forall i :: 0 <= i < |xs| && f(xs[i]) ==> g(xs[i])
    ensures Count(xs, f) <= Count(xs, g)
    ensures forall i :: 0 <= i < |xs| && !f(xs[i]) && g(xs[i]) ==> Count(xs, f) < Count(xs, g)
  {
    SubsetIsSmaller(Members(xs, f), Members(xs, g));
    forall i | 0 <= i < |xs| && !f(xs[i]) && g(xs[i])
      ensures Count(xs, f) < Count(xs, g)
    {
      SubsetIsSmaller(Members(xs, f), Members(xs, g) - {i});
    }
  }
}
