/**
 * `binary_adder`: ripple-carry addition of two bit-strings, rightmost
 * column first, with one trace entry per column and one for a final carry.
 *
 * The carry and sum bit of every column are specified without reference to
 * the ripple: the carry out of column i is set exactly when the low n-i bits
 * of the aligned operands add up to 2^(n-i) or more.
 */
module Adder {
  import opened Bits
  import opened Bitstrings
  import opened Trace

  /** The sum of the aligned operands' bits from position i to the right end. */
  function LowSum(pa: string, pb: string, i: nat): nat
    requires |pa| == |pb| && i <= |pa|
  {
    Value(pa[i..]) + Value(pb[i..])
  }

  /** The carry out of position i: the low n-i bits overflow n-i digits. */
  function CarryAfter(pa: string, pb: string, i: nat): Bit
    requires |pa| == |pb| && i <= |pa|
  {
    if LowSum(pa, pb, i) < Pow2(|pa| - i) then 0 else 1
  }

  /** The sum bit of position i: the top digit of the low sum, once its carry is taken away. */
  function SumBitAt(pa: string, pb: string, i: nat): Bit
    requires |pa| == |pb| && i < |pa|
  {
    var q := Pow2(|pa| - 1 - i);
    if LowSum(pa, pb, i) - (if CarryAfter(pa, pb, i) == 1 then 2 * q else 0) >= q then 1 else 0
  }

  /** Moving one column left adds that column's two bits at weight 2^(n-1-i). */
  lemma {:induction false} LowSumStep(pa: string, pb: string, i: nat)
    requires |pa| == |pb| && i < |pa|
    ensures Pow2(|pa| - i) == 2 * Pow2(|pa| - 1 - i)
    ensures LowSum(pa, pb, i)
         == (if pa[i] == '1' then Pow2(|pa| - 1 - i) else 0)
          + (if pb[i] == '1' then Pow2(|pa| - 1 - i) else 0)
          + LowSum(pa, pb, i + 1)
  {
    assert pa[i..][1..] == pa[i + 1..];
    assert pb[i..][1..] == pb[i + 1..];
  }

  /**
   * Each column is a full adder: fed the carry out of the column to its
   * right, it yields that column's sum bit and carry.
   */
  lemma {:induction false} RippleColumn(pa: string, pb: string, i: nat)
    requires |pa| == |pb| && i < |pa|
    ensures FullAdder(Digit(pa[i]), Digit(pb[i]), CarryAfter(pa, pb, i + 1))
         == (SumBitAt(pa, pb, i), CarryAfter(pa, pb, i))
  {
    LowSumStep(pa, pb, i);
  }

  /** The entry `binary_adder` writes for position i: the updated carry fills both carry fields. */
  function AddColumn(pa: string, pb: string, i: nat): (e: Step)
    requires |pa| == |pb| && i < |pa|
    ensures e.AddBit? && e.a == pa[i] && e.b == pb[i] && e.carry == e.newCarry
  {
    AddBit(pa[i], pb[i], CarryAfter(pa, pb, i), SumBitAt(pa, pb, i), CarryAfter(pa, pb, i))
  }

  /**
   * The sum at the aligned width n, or at n+1 when it does not fit n
   * digits; no leading zero is removed.
   */
  function SumBits(a: string, b: string): (s: string)
    ensures IsBits(s) && Value(s) == Value(a) + Value(b)
    ensures |s| == if Value(a) + Value(b) < Pow2(Width(a, b)) then Width(a, b) else Width(a, b) + 1
    ensures |s| == Width(a, b) + 1 ==> s[0] == '1'
  {
    var n := Width(a, b);
    var v := Value(a) + Value(b);
    SumFits(a, b);
    if v < Pow2(n) then ToBits(v, n)
    else
      var s := ToBits(v, n + 1);
      LeadingOne(s);
      s
  }

  /** The sum of two operands never needs more than one extra digit. */
  lemma SumFits(a: string, b: string)
    ensures Value(a) + Value(b) < Pow2(Width(a, b) + 1)
  {
    Pow2Monotone(|a|, Width(a, b));
    Pow2Monotone(|b|, Width(a, b));
  }

  /** The entries for the j rightmost positions, in the order they are written. */
  function AddColumns(pa: string, pb: string, j: nat): (t: seq<Step>)
    requires |pa| == |pb| && j <= |pa|
    ensures |t| == j
  {
    if j == 0 then [] else AddColumns(pa, pb, j - 1) + [AddColumn(pa, pb, |pa| - j)]
  }

  /** One more column appends position i = |pa|-1-j. */
  lemma AddColumnsSnoc(pa: string, pb: string, j: nat, i: nat)
    requires |pa| == |pb| && j < |pa| && i == |pa| - 1 - j
    ensures AddColumns(pa, pb, j + 1) == AddColumns(pa, pb, j) + [AddColumn(pa, pb, i)]
  {
  }

  /** Entry k of the columns is position i = |pa|-1-k. */
  lemma {:induction false} AddColumnsAt(pa: string, pb: string, j: nat, k: nat, i: nat)
    requires |pa| == |pb| && k < j <= |pa| && i == |pa| - 1 - k
    ensures AddColumns(pa, pb, j)[k] == AddColumn(pa, pb, i)
  {
    if k < j - 1 {
      AddColumnsAt(pa, pb, j - 1, k, i);
    }
  }

  /**
   * The trace of `binary_adder`: one entry per position, rightmost first,
   * then "Final carry" exactly when the leftmost position carries out.
   */
  function AddTrace(a: string, b: string): (t: seq<Step>)
    ensures Width(a, b) <= |t| <= Width(a, b) + 1
  {
    var p := Pad(a, b);
    AddColumns(p.0, p.1, Width(a, b)) + (if CarryAfter(p.0, p.1, 0) == 1 then [FinalCarry] else [])
  }

  /**
   * The trace has exactly one entry per aligned position, plus one final
   * entry exactly when the sum needs an extra digit.
   */
  lemma {:induction false} AddTraceLength(a: string, b: string)
    requires IsBits(a) && IsBits(b)
    ensures var n := Width(a, b);
            |AddTrace(a, b)| == (if Value(a) + Value(b) < Pow2(n) then n else n + 1)
            && |AddTrace(a, b)| == |SumBits(a, b)|
            && (|AddTrace(a, b)| == n + 1 ==> AddTrace(a, b)[n] == FinalCarry)
  {
    var p := Pad(a, b);
    PadLowSum(a, b, p.0, p.1);
  }

  /**
   * Entry k of the trace is a column entry holding the k-th least
   * significant digits of a and b (a '0' beyond an operand's length); it
   * records the outgoing carry in both carry fields, so the incoming carry
   * is never shown.
   */
  lemma AddTraceEntry(a: string, b: string, k: nat)
    requires k < Width(a, b)
    ensures var t := AddTrace(a, b);
            t[k].AddBit? && t[k].a == BitAt(a, k) && t[k].b == BitAt(b, k) && t[k].carry == t[k].newCarry
  {
    var i := Width(a, b) - 1 - k;
    AddTraceAt(a, b, k, i);
    PadBitAt(a, b, k, i);
  }

  /** The first entry replays a full adder on the rightmost digits with no carry in. */
  lemma AddTraceFirst(a: string, b: string)
    requires 0 < Width(a, b)
    ensures var t := AddTrace(a, b);
            t[0].AddBit? && FullAdder(Digit(t[0].a), Digit(t[0].b), 0) == (t[0].sum, t[0].newCarry)
  {
    var p := Pad(a, b);
    AddTraceAt(a, b, 0, Width(a, b) - 1);
    RippleColumn(p.0, p.1, Width(a, b) - 1);
    NoCarryIntoLast(p.0, p.1);
  }

  /** Every later entry replays a full adder on its digits and the carry the entry before it shows. */
  lemma AddTraceNext(a: string, b: string, k: nat)
    requires 0 < k < Width(a, b)
    ensures var t := AddTrace(a, b);
            t[k].AddBit? && t[k - 1].AddBit?
            && FullAdder(Digit(t[k].a), Digit(t[k].b), t[k - 1].newCarry) == (t[k].sum, t[k].newCarry)
  {
    var p := Pad(a, b);
    var i := Width(a, b) - 1 - k;
    AddTraceAt(a, b, k, i);
    AddTraceAt(a, b, k - 1, i + 1);
    CarryChain(p.0, p.1, i);
    var t := AddTrace(a, b);
    assert t[k] == AddColumn(p.0, p.1, i) && t[k - 1] == AddColumn(p.0, p.1, i + 1);
  }

  /** The column entry at i replays the full adder on the carry shown by the entry for i+1. */
  lemma CarryChain(pa: string, pb: string, i: nat)
    requires |pa| == |pb| && i + 1 < |pa|
    ensures var e, f := AddColumn(pa, pb, i), AddColumn(pa, pb, i + 1);
            FullAdder(Digit(e.a), Digit(e.b), f.newCarry) == (e.sum, e.newCarry)
  {
    RippleColumn(pa, pb, i);
  }

  /** Nothing carries into the rightmost position. */
  lemma NoCarryIntoLast(pa: string, pb: string)
    requires |pa| == |pb|
    ensures CarryAfter(pa, pb, |pa|) == 0
  {
    assert pa[|pa|..] == [] && pb[|pb|..] == [];
  }

  /** Entry k of the trace is the column k places from the right. */
  lemma {:induction false} AddTraceAt(a: string, b: string, k: nat, i: nat)
    requires k < Width(a, b) && i == Width(a, b) - 1 - k
    ensures AddTrace(a, b)[k] == AddColumn(Pad(a, b).0, Pad(a, b).1, i)
  {
    var p := Pad(a, b);
    var n := Width(a, b);
    AddColumnsAt(p.0, p.1, n, k, i);
    assert AddTrace(a, b)[k] == AddColumns(p.0, p.1, n)[k];
  }

  /** The sum bits of positions i..n-1, as the loop prefixes them to its result. */
  function SumDigits(pa: string, pb: string, i: nat): (s: string)
    requires |pa| == |pb| && i <= |pa|
    ensures |s| == |pa| - i
    decreases |pa| - i
  {
    if i == |pa| then [] else [BitChar(SumBitAt(pa, pb, i))] + SumDigits(pa, pb, i + 1)
  }

  /** The low digits and the carry out of position i together hold the low sum. */
  lemma {:induction false} SumDigitsValue(pa: string, pb: string, i: nat)
    requires IsBits(pa) && IsBits(pb) && |pa| == |pb| && i <= |pa|
    ensures IsBits(SumDigits(pa, pb, i))
    ensures Value(SumDigits(pa, pb, i)) + (if CarryAfter(pa, pb, i) == 1 then Pow2(|pa| - i) else 0)
         == LowSum(pa, pb, i)
    decreases |pa| - i
  {
    if i == |pa| {
      assert pa[i..] == [] && pb[i..] == [];
    } else {
      SumDigitsValue(pa, pb, i + 1);
      RippleColumn(pa, pb, i);
      LowSumStep(pa, pb, i);
      var s := SumDigits(pa, pb, i);
      assert s[1..] == SumDigits(pa, pb, i + 1);
    }
  }

  /** Digit m of the sum bits from position j on is the sum bit of position j+m. */
  lemma {:induction false} SumDigitsAt(pa: string, pb: string, j: nat, m: nat)
    requires |pa| == |pb| && j + m < |pa|
    ensures SumDigits(pa, pb, j)[m] == BitChar(SumBitAt(pa, pb, j + m))
    decreases m
  {
    if m > 0 {
      SumDigitsAt(pa, pb, j + 1, m - 1);
    }
  }

  /**
   * The sum bits the trace records, read from the first entry on, are the
   * digits of r from the right, when r ends with the positions' sum bits.
   */
  lemma {:induction false} AddColumnsSums(pa: string, pb: string, r: string, tail: seq<Step>)
    requires |pa| == |pb| <= |r| && r[|r| - |pa|..] == SumDigits(pa, pb, 0)
    ensures var t := AddColumns(pa, pb, |pa|) + tail;
            forall k :: 0 <= k < |pa| ==> t[k].AddBit? && t[k].sum == Digit(r[|r| - 1 - k])
  {
    var n := |pa|;
    var t := AddColumns(pa, pb, n) + tail;
    forall k | 0 <= k < n
      ensures t[k].AddBit? && t[k].sum == Digit(r[|r| - 1 - k])
    {
      var i := n - 1 - k;
      AddColumnsAt(pa, pb, n, k, i);
      SumDigitsAt(pa, pb, 0, i);
      assert t[k] == AddColumns(pa, pb, n)[k];
      assert r[|r| - 1 - k] == r[|r| - n..][i];
    }
  }

  /**
   * After the loop, the final carry, when set, is prefixed to the digits:
   * this gives the sum at its reference width.
   */
  lemma {:induction false} AdderLoopDone(a: string, b: string, pa: string, pb: string)
    requires IsBits(a) && IsBits(b) && (pa, pb) == Pad(a, b)
    ensures CarryAfter(pa, pb, 0) == 1 ==> "1" + SumDigits(pa, pb, 0) == SumBits(a, b)
    ensures CarryAfter(pa, pb, 0) == 0 ==> SumDigits(pa, pb, 0) == SumBits(a, b)
  {
    var low := SumDigits(pa, pb, 0);
    PadLowSum(a, b, pa, pb);
    SumDigitsValue(pa, pb, 0);
    PrependOne(low);
    if CarryAfter(pa, pb, 0) == 1 {
      SameValueSame("1" + low, SumBits(a, b));
    } else {
      SameValueSame(low, SumBits(a, b));
    }
  }

  /** The low sum over all positions of the aligned operands is the sum of the operands. */
  lemma PadLowSum(a: string, b: string, pa: string, pb: string)
    requires (pa, pb) == Pad(a, b)
    ensures LowSum(pa, pb, 0) == Value(a) + Value(b)
  {
    PadValue(a, b);
    assert pa[0..] == pa && pb[0..] == pb;
  }

  /** The trace is the columns' entries, closed by the final carry when there is one. */
  lemma AddTraceColumns(a: string, b: string, pa: string, pb: string)
    requires IsBits(a) && IsBits(b) && (pa, pb) == Pad(a, b)
    ensures CarryAfter(pa, pb, 0) == 1 ==> AddTrace(a, b) == AddColumns(pa, pb, |pa|) + [FinalCarry]
    ensures CarryAfter(pa, pb, 0) == 0 ==> AddTrace(a, b) == AddColumns(pa, pb, |pa|)
  {
  }

  /**
   * The sum bits the trace records, read from its first entry on, are the
   * digits of the sum read from the right.
   */
  lemma {:induction false} AddTraceSums(a: string, b: string)
    requires IsBits(a) && IsBits(b)
    ensures |SumBits(a, b)| >= Width(a, b) && |AddTrace(a, b)| >= Width(a, b)
    ensures forall k :: 0 <= k < Width(a, b) ==>
              AddTrace(a, b)[k].AddBit? && AddTrace(a, b)[k].sum == Digit(SumBits(a, b)[|SumBits(a, b)| - 1 - k])
  {
    var p := Pad(a, b);
    var r := SumBits(a, b);
    var tail := if CarryAfter(p.0, p.1, 0) == 1 then [FinalCarry] else [];
    assert AddTrace(a, b) == AddColumns(p.0, p.1, |p.0|) + tail;
    SumBitsEndsWithDigits(a, b, p.0, p.1);
    AddColumnsSums(p.0, p.1, r, tail);
  }

  /** The sum ends with the positions' sum bits. */
  lemma SumBitsEndsWithDigits(a: string, b: string, pa: string, pb: string)
    requires IsBits(a) && IsBits(b) && (pa, pb) == Pad(a, b)
    ensures |SumBits(a, b)| >= |pa| && SumBits(a, b)[|SumBits(a, b)| - |pa|..] == SumDigits(pa, pb, 0)
  {
    AdderLoopDone(a, b, pa, pb);
    var r := SumBits(a, b);
    if CarryAfter(pa, pb, 0) == 1 {
      assert r[1..] == SumDigits(pa, pb, 0);
    }
  }
}
