/**
 Finite sums and inner products of reals: what the statistics need of `sum` and `zip`.
 Products are written Mul and quotients Quot, so that facts about them carry over between equal factors.
 */
module Vectors {
  import opened Rounding

  function Mul(x: real, y: real): real { x * y }

  function Quot(x: real, d: real): real
    requires d != 0.0
  {
    x / d
  }

  function Sq(x: real): real { Mul(x, x) }

  function Sum(a: seq<real>): real {
    if a == [] then 0.0 else Sum(a[..|a| - 1]) + a[|a| - 1]
  }

  // The sum of the products of corresponding terms.
  function Dot(a: seq<real>, b: seq<real>): real
    requires |a| == |b|
  {
    if a == [] then 0.0 else Dot(a[..|a| - 1], b[..|b| - 1]) + Mul(a[|a| - 1], b[|b| - 1])
  }

  function Mean(a: seq<real>): real
    requires a != []
  {
    Quot(Sum(a), |a| as real)
  }

  // Every term reduced by c.
  function Less(a: seq<real>, c: real): (r: seq<real>)
    ensures |r| == |a| && forall i :: 0 <= i < |a| ==> r[i] == a[i] - c
  {
    seq(|a|, i requires 0 <= i < |a| => a[i] - c)
  }

  // Every term multiplied by k.
  function Scaled(k: real, a: seq<real>): (r: seq<real>)
    ensures |r| == |a| && forall i :: 0 <= i < |a| ==> r[i] == Mul(k, a[i])
  {
    seq(|a|, i requires 0 <= i < |a| => Mul(k, a[i]))
  }

  // The first n natural numbers, from zero.
  function Range(n: nat): (r: seq<real>)
    ensures |r| == n && forall i :: 0 <= i < n ==> r[i] == i as real
  {
    seq(n, i => i as real)
  }

  /******* Products *******/

  lemma Distribute(x: real, y: real, z: real)
    ensures Mul(x, y + z) == Mul(x, y) + Mul(x, z)
  {
  }

  lemma DistributeLess(x: real, y: real, z: real)
    ensures Mul(x, y - z) == Mul(x, y) - Mul(x, z)
  {
  }

  lemma Commute(x: real, y: real)
    ensures Mul(x, y) == Mul(y, x)
  {
  }

  lemma Associate(x: real, y: real, z: real)
    ensures Mul(Mul(x, y), z) == Mul(x, Mul(y, z))
  {
    assert x * y * z == x * (y * z);
  }

  lemma Unit(x: real)
    ensures Mul(1.0, x) == x && Mul(x, 1.0) == x && Mul(0.0, x) == 0.0 && Mul(x, 0.0) == 0.0
  {
  }

  lemma Regroup(k: real, x: real, y: real)
    ensures Mul(x, Mul(k, y)) == Mul(k, Mul(x, y))
  {
    Associate(x, k, y);
    Associate(k, x, y);
    Commute(x, k);
  }

  lemma ProductSign(x: real, y: real)
    ensures (x >= 0.0 && y >= 0.0) || (x <= 0.0 && y <= 0.0) ==> Mul(x, y) >= 0.0
    ensures (x >= 0.0 && y <= 0.0) || (x <= 0.0 && y >= 0.0) ==> Mul(x, y) <= 0.0
    ensures (x > 0.0 && y > 0.0) || (x < 0.0 && y < 0.0) ==> Mul(x, y) > 0.0
    ensures (x > 0.0 && y < 0.0) || (x < 0.0 && y > 0.0) ==> Mul(x, y) < 0.0
  {
  }

  lemma SquareSign(x: real)
    ensures Sq(x) >= 0.0 && (Sq(x) == 0.0 <==> x == 0.0)
  {
    ProductSign(x, x);
  }

  // Scaling by a positive factor keeps the order.
  lemma ScaleOrder(x: real, y: real, q: real)
    requires q > 0.0
    ensures x > y <==> Mul(x, q) > Mul(y, q)
  {
    ProductSign(x - y, q);
    Commute(x - y, q);
    DistributeLess(q, x, y);
    Commute(q, x);
    Commute(q, y);
  }

  lemma QuotTimes(x: real, d: real)
    requires d != 0.0
    ensures Mul(Quot(x, d), d) == x
  {
  }

  // Rounding an exact quotient gives the whole number nearest to it.
  lemma RoundedQuotient(x: real, num: int, den: int)
    requires den > 0 && Mul(x, den as real) == num as real
    ensures NearestWhole(RoundHalfEven(x), num, den)
  {
    RoundIsNearest(x);
    var k, w := RoundHalfEven(x), den as real;
    var off := k as real - x;
    assert Mul(k as real, w) == (k * den) as real;
    Commute(k as real, w);
    Commute(x, w);
    Commute(off, w);
    DistributeLess(w, k as real, x);
    Commute(0.5 - off, w);
    DistributeLess(w, 0.5, off);
    Commute(off + 0.5, w);
    Distribute(w, off, 0.5);
    ProductSign(0.5 - off, w);
    ProductSign(off + 0.5, w);
  }

  /******* Sums *******/

  lemma {:induction false} SumLess(a: seq<real>, c: real)
    ensures Sum(Less(a, c)) == Sum(a) - Mul(|a| as real, c)
  {
    if a != [] {
      var front := a[..|a| - 1];
      SumLess(front, c);
      assert Less(a, c)[..|a| - 1] == Less(front, c);
      OneMore(|front|, c);
    } else {
      Unit(c);
    }
  }

  lemma OneMore(n: nat, c: real)
    ensures Mul((n + 1) as real, c) == Mul(n as real, c) + c
  {
    Commute(n as real, c);
    Distribute(c, n as real, 1.0);
    Commute(c, (n + 1) as real);
    Unit(c);
  }

  lemma MeanTimesSize(a: seq<real>)
    requires a != []
    ensures Mul(|a| as real, Mean(a)) == Sum(a)
  {
    QuotTimes(Sum(a), |a| as real);
    Commute(|a| as real, Mean(a));
  }

  // Deviations from the mean cancel.
  lemma DeviationsCancel(a: seq<real>)
    requires a != []
    ensures Sum(Less(a, Mean(a))) == 0.0
  {
    MeanTimesSize(a);
    SumLess(a, Mean(a));
  }

  lemma {:induction false} SumSign(a: seq<real>)
    ensures (forall i :: 0 <= i < |a| ==> a[i] >= 0.0) ==> Sum(a) >= 0.0
    ensures (forall i :: 0 <= i < |a| ==> a[i] <= 0.0) ==> Sum(a) <= 0.0
  {
    if a != [] {
      SumSign(a[..|a| - 1]);
    }
  }

  // A mean lies between bounds of its terms: the deviations from a bound have one sign but sum to 0.
  lemma MeanBounds(a: seq<real>, lo: real, hi: real)
    requires a != [] && forall i :: 0 <= i < |a| ==> lo <= a[i] <= hi
    ensures lo <= Mean(a) <= hi
  {
    var n, m := |a| as real, Mean(a);
    MeanTimesSize(a);
    SumLess(a, lo);
    SumLess(a, hi);
    SumSign(Less(a, lo));
    SumSign(Less(a, hi));
    Commute(n, m);
    Commute(n, lo);
    Commute(n, hi);
    ScaleOrder(lo, m, n);
    ScaleOrder(m, hi, n);
  }

  lemma {:induction false} SumAdd(b: seq<real>, c: seq<real>, w: seq<real>)
    requires |b| == |c| == |w|
    requires forall i :: 0 <= i < |b| ==> w[i] == b[i] + c[i]
    ensures Sum(w) == Sum(b) + Sum(c)
  {
    if b != [] {
      var n := |b| - 1;
      SumAdd(b[..n], c[..n], w[..n]);
    }
  }

  lemma {:induction false} SumScale(k: real, c: seq<real>)
    ensures Sum(Scaled(k, c)) == Mul(k, Sum(c))
  {
    if c != [] {
      var n := |c| - 1;
      SumScale(k, c[..n]);
      assert Scaled(k, c)[..n] == Scaled(k, c[..n]);
      Distribute(k, Sum(c[..n]), c[n]);
    }
  }

  /******* Inner products *******/

  lemma {:induction false} DotCommutes(a: seq<real>, b: seq<real>)
    requires |a| == |b|
    ensures Dot(a, b) == Dot(b, a)
  {
    if a != [] {
      var n := |a| - 1;
      DotCommutes(a[..n], b[..n]);
      Commute(a[n], b[n]);
    }
  }

  lemma {:induction false} DotAdd(a: seq<real>, b: seq<real>, c: seq<real>, w: seq<real>)
    requires |a| == |b| == |c| == |w|
    requires forall i :: 0 <= i < |a| ==> w[i] == b[i] + c[i]
    ensures Dot(a, w) == Dot(a, b) + Dot(a, c)
  {
    if a != [] {
      var n := |a| - 1;
      DotAdd(a[..n], b[..n], c[..n], w[..n]);
      Distribute(a[n], b[n], c[n]);
    }
  }

  lemma {:induction false} DotScale(a: seq<real>, k: real, c: seq<real>)
    requires |a| == |c|
    ensures Dot(a, Scaled(k, c)) == Mul(k, Dot(a, c))
  {
    if a != [] {
      var n := |a| - 1;
      DotScale(a[..n], k, c[..n]);
      assert Scaled(k, c)[..n] == Scaled(k, c[..n]);
      Regroup(k, a[n], c[n]);
      Distribute(k, Dot(a[..n], c[..n]), Mul(a[n], c[n]));
    }
  }

  // A constant vector takes the sum.
  lemma {:induction false} DotConstant(a: seq<real>, c: real, w: seq<real>)
    requires |a| == |w| && forall i :: 0 <= i < |a| ==> w[i] == c
    ensures Dot(a, w) == Mul(c, Sum(a))
  {
    if a != [] {
      var n := |a| - 1;
      DotConstant(a[..n], c, w[..n]);
      Distribute(c, Sum(a[..n]), a[n]);
      Commute(c, a[n]);
    }
  }

  lemma {:induction false} DotOfProducts(a: seq<real>, b: seq<real>, products: seq<real>)
    requires |a| == |b| == |products|
    requires forall i :: 0 <= i < |a| ==> products[i] == Mul(a[i], b[i])
    ensures Dot(a, b) == Sum(products)
  {
    if a != [] {
      var n := |a| - 1;
      DotOfProducts(a[..n], b[..n], products[..n]);
    }
  }

  lemma {:induction false} DotSelf(a: seq<real>)
    ensures Dot(a, a) >= 0.0
    ensures Dot(a, a) == 0.0 <==> forall i :: 0 <= i < |a| ==> a[i] == 0.0
  {
    if a != [] {
      var n := |a| - 1;
      DotSelf(a[..n]);
      SquareSign(a[n]);
      assert forall i :: 0 <= i < |a| ==> a[i] == if i < n then a[..n][i] else a[n];
    }
  }

  // Pythagoras for w = r + gap with orthogonal r and gap.
  lemma Pythagoras(r: seq<real>, gap: seq<real>, w: seq<real>)
    requires |r| == |gap| == |w| && Dot(r, gap) == 0.0
    requires forall i :: 0 <= i < |r| ==> w[i] == r[i] + gap[i]
    ensures Dot(w, w) == Dot(r, r) + Dot(gap, gap)
  {
    DotAdd(w, r, gap, w);
    assert Dot(w, r) == Dot(r, r) by {
      DotCommutes(w, r);
      DotAdd(r, r, gap, w);
    }
    assert Dot(w, gap) == Dot(gap, gap) by {
      DotCommutes(w, gap);
      DotAdd(gap, r, gap, w);
      DotCommutes(gap, r);
    }
  }

  // r is orthogonal to every e + d * u when it is to u and sums to zero.
  lemma OrthogonalToLines(r: seq<real>, u: seq<real>, d: real, e: real, gap: seq<real>)
    requires |r| == |u| == |gap| && Sum(r) == 0.0 && Dot(u, r) == 0.0
    requires forall i :: 0 <= i < |r| ==> gap[i] == e + Mul(d, u[i])
    ensures Dot(r, gap) == 0.0
  {
    var level := seq(|r|, _ => e);
    DotAdd(r, level, Scaled(d, u), gap);
    assert Dot(r, level) == 0.0 by {
      DotConstant(r, e, level);
      Unit(e);
    }
    assert Dot(r, Scaled(d, u)) == 0.0 by {
      DotCommutes(r, u);
      DotScale(r, d, u);
      Unit(d);
    }
  }

  /******* Counting large terms *******/

  // The positions below n whose value exceeds c.
  ghost function Above(a: seq<real>, c: real, n: nat): seq<nat>
    requires n <= |a|
  {
    if n == 0 then [] else Above(a, c, n - 1) + if a[n - 1] > c then [n - 1] else []
  }

  // k non-negative terms above c sum to more than k * c.
  lemma {:induction false} AboveTakeTheirShare(a: seq<real>, c: real, n: nat)
    requires n <= |a| && forall i :: 0 <= i < |a| ==> a[i] >= 0.0
    ensures Sum(a[..n]) >= Mul(|Above(a, c, n)| as real, c)
    ensures Above(a, c, n) != [] ==> Sum(a[..n]) > Mul(|Above(a, c, n)| as real, c)
  {
    if n > 0 {
      AboveTakeTheirShare(a, c, n - 1);
      assert a[..n][..n - 1] == a[..n - 1];
      OneMore(|Above(a, c, n - 1)|, c);
    } else {
      Unit(c);
    }
  }

  // When exactly the first k terms exceed c, k of them are counted.
  lemma {:induction false} AbovePrefix(a: seq<real>, c: real, k: nat, n: nat)
    requires k <= |a| && n <= |a|
    requires forall i :: 0 <= i < |a| ==> (a[i] > c <==> i < k)
    ensures |Above(a, c, n)| == if n < k then n else k
  {
    if n > 0 {
      AbovePrefix(a, c, k, n - 1);
    }
  }
}
