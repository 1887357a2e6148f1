/** Numbers as fixed-width rows of bits, most significant first, and rows of such numbers. */
module Bits {
  import opened Bytes

  function ToBits(v: nat, w: nat): (bits: seq<bool>)
    ensures |bits| == w
  {
    if w == 0 then [] else ToBits(v / 2, w - 1) + [v % 2 == 1]
  }

  function Num(bits: seq<bool>): nat {
    if bits == [] then 0 else 2 * Num(bits[..|bits| - 1]) + if bits[|bits| - 1] then 1 else 0
  }

  lemma {:induction false} NumBound(bits: seq<bool>)
    ensures Num(bits) < Pow(2, |bits|)
  {
    if bits != [] {
      NumBound(bits[..|bits| - 1]);
    }
  }

  lemma {:induction false} NumOfBits(v: nat, w: nat)
    requires v < Pow(2, w)
    ensures Num(ToBits(v, w)) == v
  {
    if w > 0 {
      NumOfBits(v / 2, w - 1);
      assert ToBits(v, w)[..w - 1] == ToBits(v / 2, w - 1);
    }
  }

  lemma {:induction false} BitsOfNum(bits: seq<bool>)
    ensures ToBits(Num(bits), |bits|) == bits
  {
    if bits != [] {
      BitsOfNum(bits[..|bits| - 1]);
    }
  }

  function Shl(v: nat, n: nat): nat {
    v * Pow(2, n)
  }

  function Shr(v: nat, n: nat): nat {
    PowPositive(2, n);
    v / Pow(2, n)
  }

  /** The n lowest bits. */
  function Low(v: nat, n: nat): nat {
    PowPositive(2, n);
    v % Pow(2, n)
  }

  lemma ShiftsSplit(v: nat, n: nat)
    ensures v == Shl(Shr(v, n), n) + Low(v, n) && Low(v, n) < Pow(2, n)
  {
    PowPositive(2, n);
  }

  /** Appending low bits to a row is a shift and an or of disjoint numbers. */
  lemma {:induction false} BitsAppend(hi: nat, m: nat, lo: nat, n: nat)
    requires lo < Pow(2, n)
    ensures ToBits(Shl(hi, n) + lo, m + n) == ToBits(hi, m) + ToBits(lo, n)
    decreases n
  {
    if n == 0 {
      assert hi * 1 + lo == hi;
    } else {
      var p := Pow(2, n - 1);
      var v := hi * Pow(2, n) + lo;
      assert hi * Pow(2, n) == 2 * (hi * p) by {
        assert hi * (2 * p) == 2 * (hi * p);
      }
      assert v / 2 == hi * p + lo / 2 && v % 2 == lo % 2;
      BitsAppend(hi, m, lo / 2, n - 1);
      assert ToBits(v, m + n) == ToBits(v / 2, m + n - 1) + [v % 2 == 1];
    }
  }

  /** The leading bits are a right shift, the trailing ones a mask. */
  lemma BitsSplit(v: nat, m: nat, n: nat)
    ensures ToBits(v, m + n)[..m] == ToBits(Shr(v, n), m)
    ensures ToBits(v, m + n)[m..] == ToBits(Low(v, n), n)
  {
    hide Pow, Shl, Shr, Low;
    ShiftsSplit(v, n);
    BitsAppend(Shr(v, n), m, Low(v, n), n);
  }

  lemma AppendFits(hi: nat, m: nat, lo: nat, n: nat)
    requires hi < Pow(2, m) && lo < Pow(2, n)
    ensures Shl(hi, n) + lo < Pow(2, m + n)
  {
    PowAdd(2, m, n);
    BelowProduct(hi, lo, Pow(2, n), Pow(2, m));
  }

  lemma ShrFits(v: nat, m: nat, n: nat)
    requires v < Pow(2, m + n)
    ensures Shr(v, n) < Pow(2, m)
  {
    PowAdd(2, m, n);
    PowPositive(2, n);
    QuotientBelow(v, Pow(2, n), Pow(2, m));
  }

  lemma QuotientBelow(v: nat, p: nat, q: nat)
    requires p > 0 && v < q * p
    ensures v / p < q
  {
    if q <= v / p {
      MulMonotone(q, v / p, p);
    }
  }

  lemma MulMonotone(a: nat, b: nat, p: nat)
    requires a <= b
    ensures a * p <= b * p
  {
  }

  lemma BelowProduct(k: nat, at: nat, w: nat, n: nat)
    requires k < n && at < w
    ensures k * w + at < n * w
  {
    assert (k + 1) * w <= n * w;
  }

  // ---------- rows of numbers ----------

  function Concat(vs: seq<nat>, w: nat): seq<bool> {
    if vs == [] then [] else Concat(vs[..|vs| - 1], w) + ToBits(vs[|vs| - 1], w)
  }

  function Chunks(bits: seq<bool>, w: nat): seq<nat>
    requires w > 0
  {
    if |bits| < w then [] else Chunks(bits[..|bits| - w], w) + [Num(bits[|bits| - w..])]
  }

  ghost predicate Fit(vs: seq<nat>, w: nat) {
    forall i :: 0 <= i < |vs| ==> vs[i] < Pow(2, w)
  }

  lemma ConcatStep(vs: seq<nat>, v: nat, w: nat)
    ensures Concat(vs + [v], w) == Concat(vs, w) + ToBits(v, w)
  {
    assert (vs + [v])[..|vs|] == vs;
  }

  lemma ChunksStep(bits: seq<bool>, row: seq<bool>, w: nat)
    requires w > 0 && |row| == w
    ensures Chunks(bits + row, w) == Chunks(bits, w) + [Num(row)]
  {
    assert (bits + row)[..|bits|] == bits && (bits + row)[|bits|..] == row;
  }

  lemma {:induction false} ConcatLength(vs: seq<nat>, w: nat)
    ensures |Concat(vs, w)| == |vs| * w
  {
    if vs != [] {
      ConcatLength(vs[..|vs| - 1], w);
      assert (|vs| - 1) * w + w == |vs| * w;
    }
  }

  lemma Empty(w: nat)
    requires w > 0
    ensures Concat([], w) == [] && Chunks([], w) == []
  {
  }

  lemma {:induction false} ChunksOfConcat(vs: seq<nat>, w: nat)
    requires w > 0 && Fit(vs, w)
    ensures Chunks(Concat(vs, w), w) == vs
  {
    hide Concat, Chunks, ToBits, Num, Pow;
    if vs == [] {
      Empty(w);
    } else {
      var init, last := vs[..|vs| - 1], vs[|vs| - 1];
      ChunksOfConcat(init, w);
      assert vs == init + [last];
      ConcatStep(init, last, w);
      ChunksStep(Concat(init, w), ToBits(last, w), w);
      NumOfBits(last, w);
    }
  }

  lemma OneRowLess(n: nat, w: nat)
    requires n > 0
    ensures n * w - w == (n - 1) * w >= 0
  {
  }

  lemma {:induction false} ConcatOfChunks(bits: seq<bool>, w: nat, n: nat)
    requires w > 0 && |bits| == n * w
    ensures Concat(Chunks(bits, w), w) == bits && Fit(Chunks(bits, w), w) && |Chunks(bits, w)| == n
    decreases n
  {
    hide Concat, Chunks, ToBits, Num, Pow;
    if n == 0 {
      Empty(w);
      assert bits == [];
    } else {
      OneRowLess(n, w);
      var init, row := bits[..|bits| - w], bits[|bits| - w..];
      ConcatOfChunks(init, w, n - 1);
      assert bits == init + row;
      ChunksStep(init, row, w);
      ConcatStep(Chunks(init, w), Num(row), w);
      BitsOfNum(row);
      NumBound(row);
    }
  }

  lemma {:induction false} ConcatAppend(a: seq<nat>, b: seq<nat>, w: nat)
    requires w > 0
    ensures Concat(a + b, w) == Concat(a, w) + Concat(b, w)
  {
    hide Concat, ToBits;
    if b == [] {
      Empty(w);
      assert a + b == a;
    } else {
      var init, last := b[..|b| - 1], b[|b| - 1];
      ConcatAppend(a, init, w);
      assert a + b == (a + init) + [last] && b == init + [last];
      ConcatStep(a + init, last, w);
      ConcatStep(init, last, w);
    }
  }
}
