/**
 * `binary_subtractor`: ripple-borrow subtraction of two bit-strings,
 * rightmost column first, one trace entry per column, then leading zeros
 * stripped and a sign character prepended.
 *
 * As with the adder, the borrow and difference bit of every column are
 * specified without reference to the ripple: the borrow out of position i
 * is set exactly when the low n-i bits of a are below those of b.
 */
module Subtractor {
  import opened Bits
  import opened Bitstrings
  import opened Trace

  /** The low n-i bits of a minus those of b. */
  function LowDiff(pa: string, pb: string, i: nat): int
    requires |pa| == |pb| && i <= |pa|
  {
    Value(pa[i..]) - Value(pb[i..])
  }

  /** The borrow out of position i: the low n-i bits of a are below those of b. */
  function BorrowAfter(pa: string, pb: string, i: nat): Bit
    requires |pa| == |pb| && i <= |pa|
  {
    if LowDiff(pa, pb, i) < 0 then 1 else 0
  }

  /** The difference bit of position i: the top digit of the low difference once the borrow is paid back. */
  function DiffBitAt(pa: string, pb: string, i: nat): Bit
    requires |pa| == |pb| && i < |pa|
  {
    var q := Pow2(|pa| - 1 - i);
    if LowDiff(pa, pb, i) + (if BorrowAfter(pa, pb, i) == 1 then 2 * q else 0) >= q then 1 else 0
  }

  /** Moving one column left adds that column's difference at weight 2^(n-1-i). */
  lemma {:induction false} LowDiffStep(pa: string, pb: string, i: nat)
    requires |pa| == |pb| && i < |pa|
    ensures Pow2(|pa| - i) == 2 * Pow2(|pa| - 1 - i)
    ensures -(Pow2(|pa| - 1 - i) as int) < LowDiff(pa, pb, i + 1) < Pow2(|pa| - 1 - i)
    ensures LowDiff(pa, pb, i)
         == (if pa[i] == '1' then Pow2(|pa| - 1 - i) else 0)
          - (if pb[i] == '1' then Pow2(|pa| - 1 - i) else 0)
          + LowDiff(pa, pb, i + 1)
  {
    assert pa[i..][1..] == pa[i + 1..];
    assert pb[i..][1..] == pb[i + 1..];
  }

  /**
   * Each column is a full subtractor: fed the borrow out of the column to
   * its right, it yields that column's difference bit and borrow.
   */
  lemma {:induction false} BorrowColumn(pa: string, pb: string, i: nat)
    requires |pa| == |pb| && i < |pa|
    ensures FullSubtractor(Digit(pa[i]), Digit(pb[i]), BorrowAfter(pa, pb, i + 1))
         == (DiffBitAt(pa, pb, i), BorrowAfter(pa, pb, i))
  {
    LowDiffStep(pa, pb, i);
  }

  /** Nothing is borrowed into the rightmost position. */
  lemma NoBorrowIntoLast(pa: string, pb: string)
    requires |pa| == |pb|
    ensures BorrowAfter(pa, pb, |pa|) == 0
  {
    assert pa[|pa|..] == [] && pb[|pb|..] == [];
  }

  /** The difference bits of positions i..n-1, as the loop prefixes them to its result. */
  function DiffDigits(pa: string, pb: string, i: nat): (s: string)
    requires |pa| == |pb| && i <= |pa|
    ensures |s| == |pa| - i
    decreases |pa| - i
  {
    if i == |pa| then [] else [BitChar(DiffBitAt(pa, pb, i))] + DiffDigits(pa, pb, i + 1)
  }

  /** The low digits, less the borrow out of position i, are the low difference. */
  lemma {:induction false} DiffDigitsValue(pa: string, pb: string, i: nat)
    requires IsBits(pa) && IsBits(pb) && |pa| == |pb| && i <= |pa|
    ensures IsBits(DiffDigits(pa, pb, i))
    ensures Value(DiffDigits(pa, pb, i))
         == LowDiff(pa, pb, i) + (if BorrowAfter(pa, pb, i) == 1 then Pow2(|pa| - i) else 0)
    decreases |pa| - i
  {
    if i == |pa| {
      assert pa[i..] == [] && pb[i..] == [];
    } else {
      DiffDigitsValue(pa, pb, i + 1);
      BorrowColumn(pa, pb, i);
      LowDiffStep(pa, pb, i);
      var s := DiffDigits(pa, pb, i);
      assert s[1..] == DiffDigits(pa, pb, i + 1);
    }
  }

  /** Digit m of the difference bits from position j on is the difference bit of position j+m. */
  lemma {:induction false} DiffDigitsAt(pa: string, pb: string, j: nat, m: nat)
    requires |pa| == |pb| && j + m < |pa|
    ensures DiffDigits(pa, pb, j)[m] == BitChar(DiffBitAt(pa, pb, j + m))
    decreases m
  {
    if m > 0 {
      DiffDigitsAt(pa, pb, j + 1, m - 1);
    }
  }

  /**
   * The value of the n-bit ripple result: a - b when a >= b, and otherwise
   * what an unsigned n-bit borrow chain leaves, 2^n - (b - a).
   */
  function Magnitude(a: string, b: string): (m: nat)
    ensures m < Pow2(Width(a, b))
  {
    Pow2Monotone(|a|, Width(a, b));
    Pow2Monotone(|b|, Width(a, b));
    if Value(a) >= Value(b) then Value(a) - Value(b) else Pow2(Width(a, b)) + Value(a) - Value(b)
  }

  /** The magnitude is the difference taken modulo 2^n. */
  lemma MagnitudeModulo(a: string, b: string)
    ensures Magnitude(a, b) == (Value(a) - Value(b)) % Pow2(Width(a, b))
  {
    var d, p, m := Value(a) - Value(b), Pow2(Width(a, b)), Magnitude(a, b);
    if d >= 0 {
      DivModUnique(d, p, 0, m);
    } else {
      DivModUnique(d, p, -1, m);
    }
  }

  /** Euclidean division is determined by its quotient and remainder. */
  lemma DivModUnique(x: int, d: int, q: int, r: int)
    requires d > 0 && 0 <= r < d && x == q * d + r
    ensures x / d == q && x % d == r
  {
    var q', r' := x / d, x % d;
    assert x == q' * d + r' && 0 <= r' < d;
    assert (q - q') * d == r' - r by {
      assert q * d - q' * d == (q - q') * d;
    }
    assert (q' - q) * d == r - r' by {
      assert q' * d - q * d == (q' - q) * d;
    }
    if q > q' {
      MulAtLeast(q - q', d);
    } else if q < q' {
      MulAtLeast(q' - q, d);
    }
  }

  lemma MulAtLeast(k: int, d: int)
    requires k >= 1 && d > 0
    ensures k * d >= d
  {
  }

  /** The n-bit string the ripple leaves, before its leading zeros are stripped. */
  function RippleBits(a: string, b: string): (s: string)
    ensures |s| == Width(a, b) && IsBits(s) && Value(s) == Magnitude(a, b)
  {
    ToBits(Magnitude(a, b), Width(a, b))
  }

  /**
   * The result of `binary_subtractor`: '1' exactly when a < b, then the
   * ripple result without its leading zeros ("0" when nothing is left).
   */
  function Difference(a: string, b: string): (d: string)
    requires IsBits(a) && IsBits(b) && Width(a, b) >= 1
    ensures |d| >= 2 && (d[0] == '1' <==> Value(a) < Value(b))
  {
    (if Value(a) < Value(b) then "1" else "0") + StripZeros(RippleBits(a, b))
  }

  /**
   * What the result says: a sign character that is '1' exactly when a < b,
   * then a numeral without leading zeros whose value is the magnitude (a - b
   * itself when a >= b) and which zero-fills back to the ripple result.
   */
  lemma DifferenceShape(a: string, b: string)
    requires IsBits(a) && IsBits(b) && Width(a, b) >= 1
    ensures var r := Difference(a, b);
      && |r| >= 2 && IsBits(r)
      && (r[0] == '1' <==> Value(a) < Value(b))
      && Value(r[1..]) == Magnitude(a, b)
      && (Value(a) >= Value(b) ==> Value(r[1..]) == Value(a) - Value(b))
      && (r[1..] == "0" || r[1] != '0')
      && ZFill(r[1..], Width(a, b)) == RippleBits(a, b)
  {
    var s := RippleBits(a, b);
    var m := StripZeros(s);
    StripZerosValue(s);
    StripThenFill(s);
    var r := Difference(a, b);
    assert r[1..] == m;
  }

  /** The entry `binary_subtractor` writes for position i: the updated borrow fills both borrow fields. */
  function SubColumn(pa: string, pb: string, i: nat): (e: Step)
    requires |pa| == |pb| && i < |pa|
    ensures e.SubBit? && e.a == pa[i] && e.b == pb[i] && e.borrow == e.newBorrow
  {
    SubBit(pa[i], pb[i], BorrowAfter(pa, pb, i), DiffBitAt(pa, pb, i), BorrowAfter(pa, pb, i))
  }

  /** The entries for the j rightmost positions, in the order they are written. */
  function SubColumns(pa: string, pb: string, j: nat): (t: seq<Step>)
    requires |pa| == |pb| && j <= |pa|
    ensures |t| == j
  {
    if j == 0 then [] else SubColumns(pa, pb, j - 1) + [SubColumn(pa, pb, |pa| - j)]
  }

  /** One more column appends position i = |pa|-1-j. */
  lemma SubColumnsSnoc(pa: string, pb: string, j: nat, i: nat)
    requires |pa| == |pb| && j < |pa| && i == |pa| - 1 - j
    ensures SubColumns(pa, pb, j + 1) == SubColumns(pa, pb, j) + [SubColumn(pa, pb, i)]
  {
  }

  /** Entry k of the columns is position i = |pa|-1-k. */
  lemma {:induction false} SubColumnsAt(pa: string, pb: string, j: nat, k: nat, i: nat)
    requires |pa| == |pb| && k < j <= |pa| && i == |pa| - 1 - k
    ensures SubColumns(pa, pb, j)[k] == SubColumn(pa, pb, i)
  {
    if k < j - 1 {
      SubColumnsAt(pa, pb, j - 1, k, i);
    }
  }

  /** The trace of `binary_subtractor`: one entry per aligned position, rightmost first. */
  function SubTrace(a: string, b: string): (t: seq<Step>)
    ensures |t| == Width(a, b)
  {
    var p := Pad(a, b);
    SubColumns(p.0, p.1, Width(a, b))
  }

  /** The sign is read from the aligned operands, whose values are those of a and b. */
  lemma PadLowDiff(a: string, b: string, pa: string, pb: string)
    requires (pa, pb) == Pad(a, b)
    ensures LowDiff(pa, pb, 0) == Value(a) - Value(b)
  {
    PadValue(a, b);
    assert pa[0..] == pa && pb[0..] == pb;
  }

  /** After the loop, the digits it prefixed are the n-bit ripple result. */
  lemma {:induction false} SubLoopDone(a: string, b: string, pa: string, pb: string)
    requires IsBits(a) && IsBits(b) && (pa, pb) == Pad(a, b)
    ensures DiffDigits(pa, pb, 0) == RippleBits(a, b)
  {
    PadLowDiff(a, b, pa, pb);
    DiffDigitsValue(pa, pb, 0);
    SameValueSame(DiffDigits(pa, pb, 0), RippleBits(a, b));
  }

  /** The sign and the stripped ripple digits make up the result; the columns make up the trace. */
  lemma SubResult(a: string, b: string, pa: string, pb: string, negative: bool, digits: string, steps: seq<Step>)
    requires IsBits(a) && IsBits(b) && Width(a, b) >= 1 && (pa, pb) == Pad(a, b)
    requires negative == (Value(pa) < Value(pb))
    requires digits == DiffDigits(pa, pb, 0) && steps == SubColumns(pa, pb, |pa|)
    ensures (if negative then "1" else "0") + StripZeros(digits) == Difference(a, b)
    ensures steps == SubTrace(a, b)
  {
    SubLoopDone(a, b, pa, pb);
    PadValue(a, b);
  }

  /**
   * Entry k of the trace holds the k-th least significant digits of a and b
   * (a '0' beyond an operand's length); it records the outgoing borrow in
   * both borrow fields, so the incoming borrow is never shown.
   */
  lemma SubTraceEntry(a: string, b: string, k: nat)
    requires k < Width(a, b)
    ensures var t := SubTrace(a, b);
            t[k].SubBit? && t[k].a == BitAt(a, k) && t[k].b == BitAt(b, k) && t[k].borrow == t[k].newBorrow
  {
    var i := Width(a, b) - 1 - k;
    SubTraceAt(a, b, k, i);
    PadBitAt(a, b, k, i);
  }

  /** The first entry replays a full subtractor on the rightmost digits with no borrow in. */
  lemma SubTraceFirst(a: string, b: string)
    requires 0 < Width(a, b)
    ensures var t := SubTrace(a, b);
            t[0].SubBit? && FullSubtractor(Digit(t[0].a), Digit(t[0].b), 0) == (t[0].difference, t[0].newBorrow)
  {
    var p := Pad(a, b);
    SubTraceAt(a, b, 0, Width(a, b) - 1);
    BorrowColumn(p.0, p.1, Width(a, b) - 1);
    NoBorrowIntoLast(p.0, p.1);
  }

  /** Every later entry replays a full subtractor on its digits and the borrow the entry before it shows. */
  lemma SubTraceNext(a: string, b: string, k: nat)
    requires 0 < k < Width(a, b)
    ensures var t := SubTrace(a, b);
            t[k].SubBit? && t[k - 1].SubBit?
            && FullSubtractor(Digit(t[k].a), Digit(t[k].b), t[k - 1].newBorrow) == (t[k].difference, t[k].newBorrow)
  {
    var p := Pad(a, b);
    var i := Width(a, b) - 1 - k;
    SubTraceAt(a, b, k, i);
    SubTraceAt(a, b, k - 1, i + 1);
    BorrowChain(p.0, p.1, i);
    var t := SubTrace(a, b);
    assert t[k] == SubColumn(p.0, p.1, i) && t[k - 1] == SubColumn(p.0, p.1, i + 1);
  }

  /** The column entry at i replays the full subtractor on the borrow shown by the entry for i+1. */
  lemma BorrowChain(pa: string, pb: string, i: nat)
    requires |pa| == |pb| && i + 1 < |pa|
    ensures var e, f := SubColumn(pa, pb, i), SubColumn(pa, pb, i + 1);
            FullSubtractor(Digit(e.a), Digit(e.b), f.newBorrow) == (e.difference, e.newBorrow)
  {
    BorrowColumn(pa, pb, i);
  }

  /** Entry k of the trace is the column k places from the right. */
  lemma SubTraceAt(a: string, b: string, k: nat, i: nat)
    requires k < Width(a, b) && i == Width(a, b) - 1 - k
    ensures SubTrace(a, b)[k] == SubColumn(Pad(a, b).0, Pad(a, b).1, i)
  {
    var p := Pad(a, b);
    SubColumnsAt(p.0, p.1, Width(a, b), k, i);
  }

  /**
   * The difference bits the trace records, read from its first entry on,
   * are the digits of the n-bit ripple result read from the right: the
   * result's magnitude zero-filled back to n digits.
   */
  lemma {:induction false} SubTraceDiffs(a: string, b: string)
    requires IsBits(a) && IsBits(b)
    ensures |SubTrace(a, b)| == Width(a, b)
    ensures forall k :: 0 <= k < Width(a, b) ==>
              SubTrace(a, b)[k].SubBit? && SubTrace(a, b)[k].difference == Digit(RippleBits(a, b)[Width(a, b) - 1 - k])
  {
    forall k | 0 <= k < Width(a, b)
      ensures SubTrace(a, b)[k].SubBit? && SubTrace(a, b)[k].difference == Digit(RippleBits(a, b)[Width(a, b) - 1 - k])
    {
      SubTraceDiffAt(a, b, k, Width(a, b) - 1 - k);
    }
  }

  lemma SubTraceDiffAt(a: string, b: string, k: nat, i: nat)
    requires IsBits(a) && IsBits(b) && k < Width(a, b) && i == Width(a, b) - 1 - k
    ensures SubTrace(a, b)[k].SubBit? && SubTrace(a, b)[k].difference == Digit(RippleBits(a, b)[i])
  {
    var p := Pad(a, b);
    SubLoopDone(a, b, p.0, p.1);
    SubTraceAt(a, b, k, i);
    DiffDigitsAt(p.0, p.1, 0, i);
  }
}
