/** Bit strings: the common ground between 6-bit and 8-bit groupings of the same data. */
module Bits {
  import opened Sequences

  function Pow2(w: nat): (p: nat)
    ensures p >= 1
  {
    if w == 0 then 1 else 2 * Pow2(w - 1)
  }

  /** The w low bits of n, most significant first. */
  function ToBits(n: nat, w: nat): (b: seq<bool>)
    ensures |b| == w
  {
    if w == 0 then [] else ToBits(n / 2, w - 1) + [n % 2 == 1]
  }

  function FromBits(b: seq<bool>): (n: nat)
    ensures n < Pow2(|b|)
  {
    if b == [] then 0
    else 2 * FromBits(b[..|b| - 1]) + (if b[|b| - 1] then 1 else 0)
  }

  lemma {:induction false} FromToBits(n: nat, w: nat)
    requires n < Pow2(w)
    ensures FromBits(ToBits(n, w)) == n
  {
    if w == 0 {
    } else {
      FromToBits(n / 2, w - 1);
      Back(ToBits(n / 2, w - 1), [n % 2 == 1]);
    }
  }

  lemma {:induction false} ToFromBits(b: seq<bool>)
    ensures ToBits(FromBits(b), |b|) == b
  {
    if b == [] {
    } else {
      ToFromBits(b[..|b| - 1]);
      assert b == b[..|b| - 1] + [b[|b| - 1]];
    }
  }

  lemma LastBit(n: nat, w: nat)
    requires w > 0
    ensures ToBits(n, w) == ToBits(n / 2, w - 1) + [n % 2 == 1]
  {
  }

  /** A number of a high and a low part has the bits of the one, then the bits of the other. */
  lemma {:induction false} ToBitsJoin(q: nat, r: nat, hi: nat, lo: nat)
    requires r < Pow2(lo)
    ensures ToBits(q * Pow2(lo) + r, hi + lo) == ToBits(q, hi) + ToBits(r, lo)
    decreases lo
  {
    hide ToBits;
    if lo == 0 {
      AppendNothing(ToBits(q, hi));
    } else {
      var n, z := q * Pow2(lo) + r, q * Pow2(lo - 1);
      assert n == 2 * z + r by { Double(q, Pow2(lo - 1)); }
      ToBitsJoin(q, r / 2, hi, lo - 1);
      LastBit(n, hi + lo);
      LastBit(r, lo);
      Associate(ToBits(q, hi), ToBits(r / 2, lo - 1), [r % 2 == 1]);
    }
  }

  lemma Double(q: nat, p: nat)
    ensures q * (2 * p) == 2 * (q * p)
  {
  }

  /** The bits of a sequence of w-bit groups, one group after another. */
  function Spread(xs: seq<nat>, w: nat): (b: seq<bool>)
    ensures |b| == w * |xs|
  {
    if xs == [] then []
    else
      assert w * |xs| == w * (|xs| - 1) + w;
      Spread(xs[..|xs| - 1], w) + ToBits(xs[|xs| - 1], w)
  }

  /** The complete w-bit groups of a bit string; an incomplete last group is dropped. */
  function Group(b: seq<bool>, w: nat): (xs: seq<nat>)
    requires w > 0
    ensures forall i :: 0 <= i < |xs| ==> xs[i] < Pow2(w)
  {
    if |b| < w then [] else [FromBits(b[..w])] + Group(b[w..], w)
  }

  ghost predicate Fits(xs: seq<nat>, w: nat) {
    forall i :: 0 <= i < |xs| ==> xs[i] < Pow2(w)
  }

  lemma {:induction false} SpreadAppend(xs: seq<nat>, ys: seq<nat>, w: nat)
    ensures Spread(xs + ys, w) == Spread(xs, w) + Spread(ys, w)
    decreases |ys|
  {
    hide ToBits;
    if ys == [] {
      AppendNothing(xs);
      AppendNothing(Spread(xs, w));
    } else {
      SpreadAppend(xs, ys[..|ys| - 1], w);
      Front(xs, ys);
      Associate(Spread(xs, w), Spread(ys[..|ys| - 1], w), ToBits(ys[|ys| - 1], w));
    }
  }

  lemma SpreadSnoc(xs: seq<nat>, x: nat, w: nat)
    ensures Spread(xs + [x], w) == Spread(xs, w) + ToBits(x, w)
  {
    assert (xs + [x])[..|xs + [x]| - 1] == xs;
  }

  lemma {:induction false} GroupSpread(xs: seq<nat>, tail: seq<bool>, w: nat)
    requires w > 0 && Fits(xs, w) && |tail| < w
    ensures Group(Spread(xs, w) + tail, w) == xs
    decreases |xs|
  {
    hide ToBits, FromBits;
    var b := Spread(xs, w) + tail;
    if xs == [] {
      assert b == tail;
    } else {
      assert xs == [xs[0]] + xs[1..];
      SpreadAppend([xs[0]], xs[1..], w);
      assert Spread([xs[0]], w) == ToBits(xs[0], w);
      assert b[..w] == ToBits(xs[0], w);
      assert b[w..] == Spread(xs[1..], w) + tail;
      FromToBits(xs[0], w);
      GroupSpread(xs[1..], tail, w);
    }
  }

  /** Grouping loses only an incomplete last group; k counts the complete ones. */
  lemma {:induction false} SpreadGroup(b: seq<bool>, w: nat, k: nat)
    requires w > 0 && w * k <= |b| < w * k + w
    ensures |Group(b, w)| == k && Spread(Group(b, w), w) == b[..w * k]
    decreases k
  {
    hide ToBits, FromBits;
    if k == 0 {
    } else {
      var m := w * (k - 1);
      assert w * k == w + m;
      var rest := Group(b[w..], w);
      SpreadGroup(b[w..], w, k - 1);
      SpreadAppend([FromBits(b[..w])], rest, w);
      ToFromBits(b[..w]);
      PrefixSplit(b, w, m);
    }
  }

  lemma PrefixSplit<T>(b: seq<T>, w: nat, m: nat)
    requires w + m <= |b|
    ensures b[..w] + b[w..][..m] == b[..w + m]
  {
  }

  lemma {:induction false} SpreadInjective(xs: seq<nat>, ys: seq<nat>, w: nat)
    requires w > 0 && Fits(xs, w) && Fits(ys, w)
    requires Spread(xs, w) == Spread(ys, w)
    ensures xs == ys
  {
    GroupSpread(xs, [], w);
    GroupSpread(ys, [], w);
    assert Spread(xs, w) + [] == Spread(ys, w) + [];
  }
}
