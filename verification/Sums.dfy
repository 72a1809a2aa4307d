/** Sums over the members of a sequence, and C strings: what several modules count with. */
module Sums {

  function Bit(b: bool): int { if b then 1 else 0 }

  function Sum<T>(xs: seq<T>, weight: T -> int): int {
    if xs == [] then 0 else weight(xs[0]) + Sum(xs[1..], weight)
  }

  lemma SumUpdate<T>(xs: seq<T>, t: nat, x: T, weight: T -> int)
    requires t < |xs|
    ensures Sum(xs[t := x], weight) == Sum(xs, weight) - weight(xs[t]) + weight(x)
  {
    if t > 0 {
      assert xs[t := x][1..] == xs[1..][t - 1 := x];
      SumUpdate(xs[1..], t - 1, x, weight);
    } else {
      assert xs[t := x][1..] == xs[1..];
    }
  }

  lemma SumAppend<T>(xs: seq<T>, x: T, weight: T -> int)
    ensures Sum(xs + [x], weight) == Sum(xs, weight) + weight(x)
  {
    if xs != [] {
      assert (xs + [x])[1..] == xs[1..] + [x];
      SumAppend(xs[1..], x, weight);
    } else {
      assert xs + [x] == [x];
    }
  }

  lemma SumMonotone<T>(xs: seq<T>, small: T -> int, large: T -> int)
    requires forall x :: small(x) <= large(x)
    ensures Sum(xs, small) <= Sum(xs, large)
  {
    if xs != [] { SumMonotone(xs[1..], small, large); }
  }

  /** Leaving one member out of both sums keeps their order. */
  lemma RestMonotone<T>(xs: seq<T>, t: nat, small: T -> int, large: T -> int)
    requires t < |xs|
    requires forall x :: small(x) <= large(x)
    ensures Sum(xs, small) - small(xs[t]) <= Sum(xs, large) - large(xs[t])
  {
    if t > 0 { RestMonotone(xs[1..], t - 1, small, large); } else { SumMonotone(xs[1..], small, large); }
  }

  lemma SumZero<T>(xs: seq<T>, weight: T -> int)
    requires forall i :: 0 <= i < |xs| ==> weight(xs[i]) == 0
    ensures Sum(xs, weight) == 0
  {
    if xs != [] {
      assert weight(xs[0]) == 0;
      forall i | 0 <= i < |xs[1..]| ensures weight(xs[1..][i]) == 0 { assert xs[1..][i] == xs[i + 1]; }
      SumZero(xs[1..], weight);
    }
  }

  lemma SumPointwise<T>(xs: seq<T>, ys: seq<T>, weight: T -> int)
    requires |xs| == |ys| && forall i :: 0 <= i < |xs| ==> weight(xs[i]) == weight(ys[i])
    ensures Sum(xs, weight) == Sum(ys, weight)
  {
    if xs != [] {
      assert weight(xs[0]) == weight(ys[0]);
      forall i | 0 <= i < |xs[1..]| ensures weight(xs[1..][i]) == weight(ys[1..][i]) {
        assert xs[1..][i] == xs[i + 1] && ys[1..][i] == ys[i + 1];
      }
      SumPointwise(xs[1..], ys[1..], weight);
    }
  }

  lemma SumHead<T>(x: T, xs: seq<T>, weight: T -> int)
    ensures Sum([x] + xs, weight) == weight(x) + Sum(xs, weight)
  {
    assert ([x] + xs)[1..] == xs;
  }

  lemma SumConcat<T>(xs: seq<T>, ys: seq<T>, weight: T -> int)
    ensures Sum(xs + ys, weight) == Sum(xs, weight) + Sum(ys, weight)
  {
    if xs == [] {
      assert xs + ys == ys;
    } else {
      assert (xs + ys)[1..] == xs[1..] + ys;
      SumConcat(xs[1..], ys, weight);
    }
  }

  /** Leaving out member `i`. */
  lemma SumWithout<T>(xs: seq<T>, i: nat, weight: T -> int)
    requires i < |xs|
    ensures Sum(xs[..i] + xs[i + 1..], weight) == Sum(xs, weight) - weight(xs[i])
  {
    if i == 0 {
      assert xs[..0] + xs[1..] == xs[1..];
    } else {
      var tail := xs[1..];
      SumWithout(tail, i - 1, weight);
      SumHead(xs[0], tail[..i - 1] + tail[i..], weight);
      assert xs[..i] + xs[i + 1..] == [xs[0]] + (tail[..i - 1] + tail[i..]);
    }
  }

  /** One member weighs no more than all. */
  lemma OneWeight<T>(xs: seq<T>, t: nat, weight: T -> int)
    requires t < |xs| && forall x :: weight(x) >= 0
    ensures Sum(xs, weight) >= weight(xs[t]) >= 0
  {
    if t > 0 {
      OneWeight(xs[1..], t - 1, weight);
    } else {
      NoNegative(xs[1..], weight);
    }
  }

  lemma NoNegative<T>(xs: seq<T>, weight: T -> int)
    requires forall x :: weight(x) >= 0
    ensures Sum(xs, weight) >= 0
  {
    if xs != [] { NoNegative(xs[1..], weight); }
  }

  lemma TwoWeights<T>(xs: seq<T>, t: nat, u: nat, weight: T -> int)
    requires t < u < |xs| && forall x :: weight(x) >= 0
    ensures Sum(xs, weight) >= weight(xs[t]) + weight(xs[u])
  {
    if t > 0 {
      TwoWeights(xs[1..], t - 1, u - 1, weight);
    } else {
      OneWeight(xs[1..], u - 1, weight);
    }
  }

  /** A positive sum has a positive member. */
  lemma SomeWeight<T>(xs: seq<T>, weight: T -> int) returns (t: nat)
    requires Sum(xs, weight) > 0
    ensures t < |xs| && weight(xs[t]) > 0
  {
    if weight(xs[0]) > 0 {
      t := 0;
    } else {
      var rest := SomeWeight(xs[1..], weight);
      t := rest + 1;
    }
  }

  // ---------------------------------------------------------------- C strings

  type Byte = b: int | 0 <= b < 256

  /** What a C reader of a character pointer sees: the bytes before the terminator. */
  function CString(bs: seq<Byte>): (s: seq<Byte>)
    ensures 0 !in s && s <= bs && (0 !in bs ==> s == bs) && (|s| < |bs| ==> bs[|s|] == 0)
  {
    if bs == [] || bs[0] == 0 then [] else [bs[0]] + CString(bs[1..])
  }
}
