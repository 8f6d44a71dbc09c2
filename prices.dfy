/** Fixed-point prices used as the keys of an order book, their order, and
    the best-first listings of a set of prices that matching walks through. */
module Prices {

  /** The fixed scale of the fractional part: five decimal digits. */
  const Scalar: nat := 100000

  /** A fractional part, already scaled by Scalar and truncated. */
  type Fraction = n: nat | n < Scalar

  /** A price `integral + fractional / Scalar`. Equality is structural, so a
      price is an exact map key. */
  datatype Price = Price(integral: nat, fractional: Fraction) {

    /** The numeric value the price stands for. */
    function ToReal(): real {
      integral as real + fractional as real / Scalar as real
    }
  }

  /** The derived order of the price triple: lexicographic on
      (integral, fractional); the scalar is the same in every price. */
  predicate Less(a: Price, b: Price) {
    a.integral < b.integral || (a.integral == b.integral && a.fractional < b.fractional)
  }

  /** Less is a strict total order. */
  lemma LessIsStrictTotalOrder(a: Price, b: Price, c: Price)
    ensures !Less(a, a)
    ensures Less(a, b) && Less(b, c) ==> Less(a, c)
    ensures a == b || Less(a, b) || Less(b, a)
  {
  }

  /** The structural order agrees with the numeric value of the prices.
      This holds because a fractional part never reaches a whole unit. */
  lemma LessIsNumericOrder(a: Price, b: Price)
    ensures Less(a, b) <==> a.ToReal() < b.ToReal()
  {
    var s := Scalar as real;
    var fa := a.fractional as real / s;
    var fb := b.fractional as real / s;
    assert 0.0 <= fa < 1.0 && 0.0 <= fb < 1.0;
    if a.integral < b.integral {
      assert a.integral as real + 1.0 <= b.integral as real;
    } else if a.integral > b.integral {
      assert b.integral as real + 1.0 <= a.integral as real;
    } else if a.fractional < b.fractional {
      assert fa < fb;
    } else {
      assert fb <= fa;
    }
  }

  /** Distinct prices have distinct values. */
  lemma ToRealInjective(a: Price, b: Price)
    requires a.ToReal() == b.ToReal()
    ensures a == b
  {
    LessIsNumericOrder(a, b);
    LessIsNumericOrder(b, a);
  }

  /** Cheapest first, each price once: the order of ask levels. */
  ghost predicate StrictlyAscending(ps: seq<Price>) {
    forall i, j :: 0 <= i < j < |ps| ==> Less(ps[i], ps[j])
  }

  /** Highest first, each price once: the order of bid levels. */
  ghost predicate StrictlyDescending(ps: seq<Price>) {
    forall i, j :: 0 <= i < j < |ps| ==> Less(ps[j], ps[i])
  }

  function Elems(ps: seq<Price>): set<Price> {
    set p | p in ps
  }

  /** Inserts a new price into a cheapest-first listing, keeping it so. */
  function Insert(ps: seq<Price>, x: Price): (r: seq<Price>)
    requires StrictlyAscending(ps) && x !in ps
    ensures StrictlyAscending(r)
    ensures Elems(r) == Elems(ps) + {x}
    ensures |r| == |ps| + 1
  {
    if ps == [] then [x]
    else if Less(x, ps[0]) then
      assert forall j :: 0 < j < |ps| ==> Less(x, ps[j]) by {
        forall j | 0 < j < |ps| ensures Less(x, ps[j]) {
          LessIsStrictTotalOrder(x, ps[0], ps[j]);
        }
      }
      [x] + ps
    else
      LessIsStrictTotalOrder(x, ps[0], x);
      var rest := Insert(ps[1..], x);
      assert Elems(ps) == {ps[0]} + Elems(ps[1..]);
      assert forall q :: q in Elems(rest) ==> Less(ps[0], q) by {
        forall q | q in Elems(rest) ensures Less(ps[0], q) {
          if q != x {
            var j :| 0 < j < |ps| && ps[j] == q;
          }
        }
      }
      [ps[0]] + rest
  }

  /** Elements of a listing without duplicates are as many as its length. */
  lemma {:induction false} ElemsCount(ps: seq<Price>)
    requires StrictlyAscending(ps)
    ensures |Elems(ps)| == |ps|
  {
    if ps != [] {
      ElemsCount(ps[1..]);
      assert Elems(ps) == {ps[0]} + Elems(ps[1..]);
      assert ps[0] !in Elems(ps[1..]);
    }
  }

  /** The cheapest-first listing of a finite set of prices. */
  ghost function AscendingOf(s: set<Price>): (r: seq<Price>)
    ensures StrictlyAscending(r)
    ensures Elems(r) == s
    decreases s
  {
    if s == {} then []
    else
      var x :| x in s;
      Insert(AscendingOf(s - {x}), x)
  }

  /** The first price of a cheapest-first listing is below every other. */
  lemma HeadIsLeast(ps: seq<Price>, p: Price)
    requires StrictlyAscending(ps) && p in Elems(ps)
    ensures p == ps[0] || Less(ps[0], p)
  {
    var i :| 0 <= i < |ps| && ps[i] == p;
  }

  /** Two cheapest-first listings of the same set of prices are equal, so
      "sorted by price" determines the order of the levels completely. */
  lemma {:induction false} AscendingUnique(a: seq<Price>, b: seq<Price>)
    requires StrictlyAscending(a) && StrictlyAscending(b)
    requires Elems(a) == Elems(b)
    ensures a == b
  {
    ElemsCount(a);
    ElemsCount(b);
    if |a| > 0 {
      assert a[0] == b[0] by {
        assert a[0] in Elems(a) && b[0] in Elems(b);
        HeadIsLeast(a, b[0]);
        HeadIsLeast(b, a[0]);
        LessIsStrictTotalOrder(a[0], b[0], a[0]);
      }
      assert Elems(a) == {a[0]} + Elems(a[1..]);
      assert Elems(b) == {b[0]} + Elems(b[1..]);
      assert a[0] !in Elems(a[1..]);
      assert b[0] !in Elems(b[1..]);
      AscendingUnique(a[1..], b[1..]);
    }
  }

  function Reverse(ps: seq<Price>): (r: seq<Price>)
    ensures |r| == |ps|
    ensures forall i :: 0 <= i < |ps| ==> r[i] == ps[|ps| - 1 - i]
  {
    if ps == [] then [] else Reverse(ps[1..]) + [ps[0]]
  }

  /** Reversing keeps the prices listed. */
  lemma ReverseElems(ps: seq<Price>)
    ensures Elems(Reverse(ps)) == Elems(ps)
  {
    var r := Reverse(ps);
    forall p | p in Elems(ps) ensures p in Elems(r) {
      var i :| 0 <= i < |ps| && ps[i] == p;
      assert r[|ps| - 1 - i] == p;
    }
  }

  /** Reversing a cheapest-first listing gives the highest-first listing of
      the same prices. */
  lemma ReverseOfAscending(ps: seq<Price>)
    requires StrictlyAscending(ps)
    ensures StrictlyDescending(Reverse(ps))
    ensures Elems(Reverse(ps)) == Elems(ps)
  {
    ReverseElems(ps);
  }

  /** In a cheapest-first listing, a cheaper price comes earlier. */
  lemma AscendingIndexOrder(ps: seq<Price>, i: nat, j: nat)
    requires StrictlyAscending(ps) && i < |ps| && j < |ps|
    requires Less(ps[i], ps[j])
    ensures i < j
  {
  }

  /** In a highest-first listing, a higher price comes earlier. */
  lemma DescendingIndexOrder(ps: seq<Price>, i: nat, j: nat)
    requires StrictlyDescending(ps) && i < |ps| && j < |ps|
    requires Less(ps[j], ps[i])
    ensures i < j
  {
  }
}
