/**
 * `binary_multiplier`: shift-and-add multiplication. The multiplicand is
 * zero-filled to |a|+|b| digits; for every '1' of the multiplier, read from
 * the right, the multiplicand shifted left by that digit's place is added to
 * the running product with the adder.
 */
module Multiplier {
  import opened Bits
  import opened Bitstrings
  import opened Trace
  import opened Adder

  /** The multiplicand widened to hold any product, `a.zfill(len(a) + len(b))`. */
  function Widened(a: string, b: string): (w: string)
    ensures |w| == |a| + |b|
    ensures IsBits(a) ==> IsBits(w)
  {
    ZFill(a, |a| + |b|)
  }

  /** The partial product for the j-th multiplier digit from the right: the widened multiplicand shifted left by j. */
  function Partial(a: string, b: string, j: nat): (pp: string)
    ensures |pp| == |a| + |b| + j
    ensures IsBits(a) ==> IsBits(pp)
  {
    Widened(a, b) + Zeros(j)
  }

  /** The partial product for digit j is a times 2^j. */
  lemma PartialValue(a: string, b: string, j: nat)
    ensures Value(Partial(a, b, j)) == Value(a) * Pow2(j)
  {
    ZFillValue(a, |a| + |b|);
    ValueShift(Widened(a, b), j);
  }

  /** The running product once the j rightmost digits of b are processed. */
  function ProductAfter(a: string, b: string, j: nat): (p: string)
    requires j <= |b|
    ensures IsBits(p) && |p| >= 1
  {
    if j == 0 then "0"
    else
      var prev := ProductAfter(a, b, j - 1);
      if b[|b| - j] == '1' then SumBits(prev, Partial(a, b, j - 1)) else prev
  }

  /** The trace entries for the j-th multiplier digit from the right (j >= 1). */
  function DigitEntries(a: string, b: string, j: nat): (e: seq<Step>)
    requires 1 <= j <= |b|
    ensures |e| >= 1 && (e[0].PartialProduct? <==> b[|b| - j] == '1')
  {
    if b[|b| - j] == '1' then
      [PartialProduct(Partial(a, b, j - 1), ProductAfter(a, b, j))]
        + AddTrace(ProductAfter(a, b, j - 1), Partial(a, b, j - 1))
    else
      [SkippedPartial(|a| + |b|)]
  }

  /**
   * The trace once the j rightmost digits of b are processed: per digit, a
   * skip entry for a '0', or for a '1' the summary entry (which shows the
   * product after the addition) followed by the addition's own entries.
   */
  function MulTrace(a: string, b: string, j: nat): (t: seq<Step>)
    requires j <= |b|
    ensures |t| >= j
  {
    if j == 0 then [] else MulTrace(a, b, j - 1) + DigitEntries(a, b, j)
  }

  /** The result of `binary_multiplier`: the final product without its leading zeros. */
  function Product(a: string, b: string): (r: string)
    requires IsBits(a) && IsBits(b)
    ensures IsBits(r) && |r| >= 1 && (r == "0" || r[0] != '0')
  {
    StripZeros(ProductAfter(a, b, |b|))
  }

  lemma MulDistributes(x: int, y: int, z: int)
    ensures x * (y + z) == x * y + x * z
  {
  }

  /** The running product is a times the multiplier digits processed so far. */
  lemma {:induction false} ProductAfterValue(a: string, b: string, j: nat)
    requires j <= |b|
    ensures Value(ProductAfter(a, b, j)) == Value(a) * Value(b[|b| - j..])
  {
    if j == 0 {
      assert b[|b|..] == [];
    } else {
      ProductAfterValue(a, b, j - 1);
      ProductAfterStep(a, b, j);
      SuffixValueStep(b, j);
      var w := if b[|b| - j] == '1' then Pow2(j - 1) else 0;
      ScaledStep(Value(a), w, Value(ProductAfter(a, b, j)), Value(ProductAfter(a, b, j - 1)),
              Value(b[|b| - j..]), Value(b[|b| - (j - 1)..]));
    }
  }

  /** The arithmetic of one step: adding x·w to x·s0 gives x·(w + s0). */
  lemma ScaledStep(x: int, w: int, p: int, p0: int, s: int, s0: int)
    requires p == p0 + x * w && s == w + s0 && p0 == x * s0
    ensures p == x * s
  {
    MulDistributes(x, w, s0);
  }

  /** One more digit adds the partial product to the running product exactly when it is a '1'. */
  lemma ProductAfterStep(a: string, b: string, j: nat)
    requires 1 <= j <= |b|
    ensures Value(ProductAfter(a, b, j))
            == Value(ProductAfter(a, b, j - 1)) + Value(a) * (if b[|b| - j] == '1' then Pow2(j - 1) else 0)
  {
    PartialValue(a, b, j - 1);
  }

  /** Taking one more digit of b from the right adds its weight to the suffix's value. */
  lemma SuffixValueStep(b: string, j: nat)
    requires 1 <= j <= |b|
    ensures Value(b[|b| - j..]) == (if b[|b| - j] == '1' then Pow2(j - 1) else 0) + Value(b[|b| - (j - 1)..])
  {
    var low := b[|b| - j..];
    assert low[1..] == b[|b| - (j - 1)..];
  }

  /**
   * One turn of the multiplier's loop on a '1' at digit i = |b|-j: adding the
   * shifted multiplicand to the running product gives the next running
   * product, and the summary entry followed by the addition's entries extends
   * the trace.
   */
  lemma MulStepOne(a: string, b: string, j: nat, i: nat, before: seq<Step>, prev: string,
                   partial: string, product: string, addSteps: seq<Step>)
    requires 1 <= j <= |b| && i == |b| - j && b[i] == '1'
    requires prev == ProductAfter(a, b, j - 1) && before == MulTrace(a, b, j - 1)
    requires partial == Widened(a, b) + Zeros(|b| - 1 - i)
    requires product == SumBits(prev, partial) && addSteps == AddTrace(prev, partial)
    ensures product == ProductAfter(a, b, j)
    ensures before + [PartialProduct(partial, product)] + addSteps == MulTrace(a, b, j)
  {
    PartialAt(a, b, j, i, partial);
    assert b[|b| - j] == b[i];
  }

  /** The loop's partial product at digit i = |b|-j is the one for the (j-1)-th digit from the right. */
  lemma PartialAt(a: string, b: string, j: nat, i: nat, partial: string)
    requires 1 <= j <= |b| && i == |b| - j
    requires partial == Widened(a, b) + Zeros(|b| - 1 - i)
    ensures partial == Partial(a, b, j - 1)
  {
  }

  /** One turn of the multiplier's loop on any other digit: the product stays and a skip entry is logged. */
  lemma MulStepZero(a: string, b: string, j: nat, i: nat, before: seq<Step>, prev: string)
    requires 1 <= j <= |b| && i == |b| - j && b[i] != '1'
    requires prev == ProductAfter(a, b, j - 1) && before == MulTrace(a, b, j - 1)
    ensures prev == ProductAfter(a, b, j)
    ensures before + [SkippedPartial(|a| + |b|)] == MulTrace(a, b, j)
  {
    assert b[|b| - j] == b[i];
    assert DigitEntries(a, b, j) == [SkippedPartial(|a| + |b|)];
  }

  /** The product's value is a times b. */
  lemma ProductValue(a: string, b: string)
    requires IsBits(a) && IsBits(b)
    ensures Value(Product(a, b)) == Value(a) * Value(b)
  {
    ProductAfterValue(a, b, |b|);
    assert b[0..] == b;
    StripZerosValue(ProductAfter(a, b, |b|));
  }

  /** The result is the one canonical bit-string of value a·b: no other has no leading zero. */
  lemma ProductIs(a: string, b: string, r: string)
    requires IsBits(a) && IsBits(b)
    requires IsBits(r) && |r| >= 1 && (r == "0" || r[0] != '0')
    requires Value(r) == Value(a) * Value(b)
    ensures Product(a, b) == r
  {
    ProductValue(a, b);
    StrippedSame(Product(a, b), r);
  }

  /** The number of times c occurs in s. */
  function Occurrences(s: string, c: char): (k: nat)
    ensures k <= |s|
  {
    if s == [] then 0 else (if s[0] == c then 1 else 0) + Occurrences(s[1..], c)
  }

  /** The number of summary entries in a trace. */
  function Summaries(t: seq<Step>): (c: nat)
    ensures c <= |t|
  {
    if t == [] then 0 else Summaries(t[..|t| - 1]) + (if t[|t| - 1].PartialProduct? then 1 else 0)
  }

  /** The number of skip entries in a trace. */
  function Skips(t: seq<Step>): (c: nat)
    ensures c <= |t|
  {
    if t == [] then 0 else Skips(t[..|t| - 1]) + (if t[|t| - 1].SkippedPartial? then 1 else 0)
  }

  /** Counts over a concatenation add up. */
  lemma {:induction false} CountsAppend(s: seq<Step>, t: seq<Step>)
    ensures Summaries(s + t) == Summaries(s) + Summaries(t)
    ensures Skips(s + t) == Skips(s) + Skips(t)
    decreases |t|
  {
    if t == [] {
      assert s + t == s;
    } else {
      assert (s + t)[..|s + t| - 1] == s + t[..|t| - 1];
      CountsAppend(s, t[..|t| - 1]);
    }
  }

  /** An addition's columns hold no summary or skip entry. */
  lemma {:induction false} AddColumnsKinds(pa: string, pb: string, j: nat)
    requires |pa| == |pb| && j <= |pa|
    ensures Summaries(AddColumns(pa, pb, j)) == 0 && Skips(AddColumns(pa, pb, j)) == 0
  {
    if j > 0 {
      AddColumnsKinds(pa, pb, j - 1);
      CountsAppend(AddColumns(pa, pb, j - 1), [AddColumn(pa, pb, |pa| - j)]);
    }
  }

  /** An addition's trace holds no summary or skip entry. */
  lemma AddTraceKinds(a: string, b: string)
    ensures Summaries(AddTrace(a, b)) == 0 && Skips(AddTrace(a, b)) == 0
  {
    var p := Pad(a, b);
    var cols := AddColumns(p.0, p.1, Width(a, b));
    var tail := if CarryAfter(p.0, p.1, 0) == 1 then [FinalCarry] else [];
    AddColumnsKinds(p.0, p.1, Width(a, b));
    CountsAppend(cols, tail);
    assert AddTrace(a, b) == cols + tail;
  }

  /** The entries for one multiplier digit: one summary for a '1', one skip otherwise. */
  lemma DigitEntriesCounts(a: string, b: string, j: nat)
    requires 1 <= j <= |b|
    ensures Summaries(DigitEntries(a, b, j)) == if b[|b| - j] == '1' then 1 else 0
    ensures Skips(DigitEntries(a, b, j)) == if b[|b| - j] == '1' then 0 else 1
  {
    var e := DigitEntries(a, b, j);
    if b[|b| - j] == '1' {
      var prev, pp := ProductAfter(a, b, j - 1), Partial(a, b, j - 1);
      AddTraceKinds(prev, pp);
      var head := [PartialProduct(pp, ProductAfter(a, b, j))];
      CountsAppend(head, AddTrace(prev, pp));
      assert head[..0] == [];
    } else {
      assert e[..0] == [];
    }
  }

  /**
   * The number of times c occurs among the j rightmost characters of s.
   * This counts what `Occurrences` counts over the suffix, but one digit at a
   * time from the right, in the order the multiplier reads b, and with no
   * slicing; `CountRightOccurrences` proves the two agree.
   */
  function CountRight(s: string, j: nat, c: char): (k: nat)
    requires j <= |s|
    ensures k <= j
  {
    if j == 0 then 0 else CountRight(s, j - 1, c) + (if s[|s| - j] == c then 1 else 0)
  }

  /** Counting from the right agrees with counting over the suffix. */
  lemma {:induction false} CountRightOccurrences(s: string, j: nat, c: char)
    requires j <= |s|
    ensures CountRight(s, j, c) == Occurrences(s[|s| - j..], c)
  {
    if j == 0 {
      assert s[|s|..] == [];
    } else {
      CountRightOccurrences(s, j - 1, c);
      var low := s[|s| - j..];
      assert low[0] == s[|s| - j] && low[1..] == s[|s| - (j - 1)..];
    }
  }

  /** In a bit-string, the '1's and the '0's together are all its characters. */
  lemma {:induction false} OccurrencesOfBits(s: string)
    requires IsBits(s)
    ensures Occurrences(s, '1') + Occurrences(s, '0') == |s|
  {
    if s != [] {
      assert IsBits(s[1..]);
      OccurrencesOfBits(s[1..]);
    }
  }

  /**
   * Counting over the j rightmost multiplier digits: each '1' gives exactly
   * one summary entry, and every other digit exactly one skip entry. The
   * induction on j is written as a loop over the digits: the recursive form,
   * with the call on j-1 beside `MulTraceStep`, is far costlier to verify.
   */
  lemma MulTraceCounts(a: string, b: string, j: nat)
    requires j <= |b|
    ensures Summaries(MulTrace(a, b, j)) == CountRight(b, j, '1')
    ensures Skips(MulTrace(a, b, j)) == j - CountRight(b, j, '1')
  {
    var k := 0;
    while k < j
      invariant k <= j
      invariant Summaries(MulTrace(a, b, k)) == CountRight(b, k, '1')
      invariant Skips(MulTrace(a, b, k)) == k - CountRight(b, k, '1')
    {
      k := k + 1;
      MulTraceStep(a, b, k);
    }
  }

  /** One more multiplier digit adds one summary entry for a '1' and one skip entry otherwise. */
  lemma MulTraceStep(a: string, b: string, j: nat)
    requires 1 <= j <= |b|
    ensures Summaries(MulTrace(a, b, j)) == Summaries(MulTrace(a, b, j - 1)) + if b[|b| - j] == '1' then 1 else 0
    ensures Skips(MulTrace(a, b, j)) == Skips(MulTrace(a, b, j - 1)) + if b[|b| - j] == '1' then 0 else 1
  {
    var before, e := MulTrace(a, b, j - 1), DigitEntries(a, b, j);
    assert MulTrace(a, b, j) == before + e;
    CountsAppend(before, e);
    DigitEntriesCounts(a, b, j);
  }

  /** The whole trace holds one summary entry per '1' of b and one skip entry per '0' of b. */
  lemma MulCounts(a: string, b: string)
    requires IsBits(b)
    ensures Summaries(MulTrace(a, b, |b|)) == Occurrences(b, '1')
    ensures Skips(MulTrace(a, b, |b|)) == Occurrences(b, '0')
  {
    MulTraceCounts(a, b, |b|);
    CountRightOccurrences(b, |b|, '1');
    assert b[0..] == b;
    OccurrencesOfBits(b);
  }
}
