/** How many elements of a list have a property, by the positions at which they stand. */
module Counting {

  ghost function Where<T(!new)>(xs: seq<T>, p: T -> bool): set<int> {
    set i | 0 <= i < |xs| && p(xs[i])
  }

  ghost function HowMany<T(!new)>(xs: seq<T>, p: T -> bool): nat { |Where(xs, p)| }

  lemma HowManyOfNone<T(!new)>(p: T -> bool)
    ensures HowMany([], p) == 0
  {
  }

  lemma HowManyAppend<T(!new)>(xs: seq<T>, x: T, p: T -> bool)
    ensures HowMany(xs + [x], p) == HowMany(xs, p) + if p(x) then 1 else 0
  {
    var more := if p(x) then {|xs|} else {};
    assert Where(xs + [x], p) == Where(xs, p) + more;
  }

  // One step of a count that goes through a list from its front to its end.
  lemma HowManyLast<T(!new)>(xs: seq<T>, p: T -> bool)
    requires xs != []
    ensures HowMany(xs, p) == HowMany(xs[..|xs| - 1], p) + if p(xs[|xs| - 1]) then 1 else 0
  {
    assert xs == xs[..|xs| - 1] + [xs[|xs| - 1]];
    HowManyAppend(xs[..|xs| - 1], xs[|xs| - 1], p);
  }
}
