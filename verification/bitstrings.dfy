/**
 * Bit-strings written most-significant bit first, their numeric reading and
 * the string helpers the calculator relies on: `int(s, 2)`, `str.zfill`,
 * `pad_binary` and `s.lstrip("0") or "0"`.
 */
module Bitstrings {
  import opened Bits

  /** Every character is '0' or '1'. */
  predicate IsBits(s: string) {
    forall i :: 0 <= i < |s| ==> s[i] == '0' || s[i] == '1'
  }

  function Pow2(k: nat): (p: nat)
    ensures p >= 1
  {
    if k == 0 then 1 else 2 * Pow2(k - 1)
  }

  /** The number a bit-string denotes (`int(s, 2)`), always below 2^|s|. */
  function Value(s: string): (v: nat)
    ensures v < Pow2(|s|)
  {
    if s == [] then 0 else (if s[0] == '1' then Pow2(|s| - 1) else 0) + Value(s[1..])
  }

  function Zeros(k: nat): string {
    seq(k, _ => '0')
  }

  /** The common width of two operands after alignment. */
  function Width(a: string, b: string): nat {
    if |a| < |b| then |b| else |a|
  }

  /** The k-th least significant digit of s, '0' beyond its length. */
  function BitAt(s: string, k: nat): char {
    if k < |s| then s[|s| - 1 - k] else '0'
  }

  /** A string whose value reaches 2^(|s|-1) starts with '1'. */
  lemma LeadingOne(s: string)
    requires |s| >= 1 && Value(s) >= Pow2(|s| - 1)
    ensures s[0] == '1'
  {
  }

  /** Appending a bit doubles the value and adds the bit. */
  lemma {:induction false} ValueAppend(s: string, c: char)
    ensures Value(s + [c]) == 2 * Value(s) + Digit(c)
  {
    if s != [] {
      assert (s + [c])[1..] == s[1..] + [c];
      ValueAppend(s[1..], c);
    }
  }

  /** A leading '1' adds 2^|s| to the value. */
  lemma PrependOne(s: string)
    ensures IsBits(s) ==> IsBits("1" + s)
    ensures Value("1" + s) == Pow2(|s|) + Value(s)
  {
    assert ("1" + s)[1..] == s;
  }

  /** Leading zeros do not change the value. */
  lemma {:induction false} ValueZerosPrefix(k: nat, s: string)
    ensures Value(Zeros(k) + s) == Value(s)
  {
    if k > 0 {
      assert (Zeros(k) + s)[1..] == Zeros(k - 1) + s;
      ValueZerosPrefix(k - 1, s);
    } else {
      assert Zeros(k) + s == s;
    }
  }

  /** Appending k zeros (a left shift by k) multiplies the value by 2^k. */
  lemma {:induction false} ValueShift(s: string, k: nat)
    ensures Value(s + Zeros(k)) == Value(s) * Pow2(k)
  {
    if k > 0 {
      assert Zeros(k) == Zeros(k - 1) + ['0'];
      assert s + Zeros(k) == (s + Zeros(k - 1)) + ['0'];
      ValueShift(s, k - 1);
      ValueAppend(s + Zeros(k - 1), '0');
      var v, p := Value(s), Pow2(k - 1);
      assert Pow2(k) == 2 * p;
      calc {
        Value(s + Zeros(k));
        2 * Value(s + Zeros(k - 1));
        2 * (v * p);
        { MulAssoc2(v, p); }
        v * (2 * p);
      }
    } else {
      assert s + Zeros(k) == s;
    }
  }

  lemma MulAssoc2(v: int, p: int)
    ensures 2 * (v * p) == v * (2 * p)
  {
  }

  lemma Pow2Monotone(i: nat, j: nat)
    requires i <= j
    ensures Pow2(i) <= Pow2(j)
  {
    if i < j {
      Pow2Monotone(i, j - 1);
    }
  }

  /**
   * `s.zfill(width)`: s preceded by just enough '0's to reach the width;
   * a string that is already wide enough is returned unchanged.
   */
  function ZFill(s: string, width: nat): (r: string)
    ensures |r| == if |s| < width then width else |s|
  {
    if |s| >= width then s else Zeros(width - |s|) + s
  }

  /** Zero-filling only adds '0's in front of s, so bit-strings stay bit-strings. */
  lemma ZFillShape(s: string, width: nat)
    ensures var r := ZFill(s, width);
            r[|r| - |s|..] == s
            && (forall i :: 0 <= i < |r| - |s| ==> r[i] == '0')
            && (IsBits(s) ==> IsBits(r))
  {
  }

  /** Zero-filling keeps the value. */
  lemma ZFillValue(s: string, width: nat)
    ensures Value(ZFill(s, width)) == Value(s)
  {
    if |s| < width {
      ValueZerosPrefix(width - |s|, s);
    }
  }

  /**
   * `pad_binary(a, b)`: both operands widened with leading zeros to the
   * longer one's length.
   */
  function Pad(a: string, b: string): (p: (string, string))
    ensures |p.0| == |p.1| == Width(a, b)
  {
    var w := Width(a, b);
    (ZFill(a, w), ZFill(b, w))
  }

  /** Each aligned operand is its input with only '0's added on the left. */
  lemma PadShape(a: string, b: string)
    ensures var p := Pad(a, b);
            p.0[|p.0| - |a|..] == a && p.1[|p.1| - |b|..] == b
            && (forall i :: 0 <= i < |p.0| - |a| ==> p.0[i] == '0')
            && (forall i :: 0 <= i < |p.1| - |b| ==> p.1[i] == '0')
            && (IsBits(a) && IsBits(b) ==> IsBits(p.0) && IsBits(p.1))
  {
    ZFillShape(a, Width(a, b));
    ZFillShape(b, Width(a, b));
  }

  /** Aligning keeps both operands' values. */
  lemma PadValue(a: string, b: string)
    ensures Value(Pad(a, b).0) == Value(a) && Value(Pad(a, b).1) == Value(b)
  {
    ZFillValue(a, Width(a, b));
    ZFillValue(b, Width(a, b));
  }

  /** Position k from the right of a zero-filled string is the k-th least significant digit of the original. */
  lemma ZFillBitAt(s: string, width: nat, k: nat, i: nat)
    requires k < |ZFill(s, width)| && i == |ZFill(s, width)| - 1 - k
    ensures ZFill(s, width)[i] == BitAt(s, k)
  {
    if |s| < width {
      var z := Zeros(width - |s|);
      assert ZFill(s, width) == z + s;
      if k < |s| {
        assert (z + s)[i] == s[i - |z|];
      } else {
        assert (z + s)[i] == z[i];
      }
    }
  }

  /** Position k from the right of an aligned operand is the operand's k-th least significant digit. */
  lemma PadBitAt(a: string, b: string, k: nat, i: nat)
    requires k < Width(a, b) && i == Width(a, b) - 1 - k
    ensures Pad(a, b).0[i] == BitAt(a, k)
    ensures Pad(a, b).1[i] == BitAt(b, k)
  {
    ZFillBitAt(a, Width(a, b), k, i);
    ZFillBitAt(b, Width(a, b), k, i);
  }

  /** Aligning two aligned operands again changes nothing. */
  lemma PadIdempotent(a: string, b: string)
    ensures Pad(Pad(a, b).0, Pad(a, b).1) == Pad(a, b)
  {
  }

  /** `s.lstrip("0")`: s with its run of leading '0's removed. */
  function LStripZeros(s: string): (r: string)
    ensures |r| <= |s| && s == Zeros(|s| - |r|) + r
    ensures r == [] || r[0] != '0'
  {
    if s != [] && s[0] == '0' then
      var r := LStripZeros(s[1..]);
      assert s == ['0'] + s[1..];
      assert Zeros(|s| - |r|) == ['0'] + Zeros(|s| - 1 - |r|);
      r
    else
      assert Zeros(0) == [];
      s
  }

  /**
   * `s.lstrip("0") or "0"`: s without its leading zeros, or the single
   * digit "0" when nothing else is left.
   */
  function StripZeros(s: string): (r: string)
    ensures |r| >= 1 && (r == "0" || r[0] != '0')
    ensures |r| <= |s| || r == "0"
    ensures IsBits(s) ==> IsBits(r)
  {
    var t := LStripZeros(s);
    if t == [] then "0"
    else
      assert forall i :: 0 <= i < |t| ==> t[i] == s[|s| - |t| + i];
      t
  }

  /** Stripping leading zeros keeps the value. */
  lemma StripZerosValue(s: string)
    ensures Value(StripZeros(s)) == Value(s)
  {
    var t := LStripZeros(s);
    ValueZerosPrefix(|s| - |t|, t);
    if t == [] {
      assert s == Zeros(|s|) + [];
      ValueZerosPrefix(|s|, []);
    }
  }

  /**
   * Stripping leading zeros and padding back to the original width gives
   * the original string back.
   */
  lemma StripThenFill(s: string)
    requires IsBits(s) && |s| >= 1
    ensures ZFill(StripZeros(s), |s|) == s
  {
    var t := LStripZeros(s);
    if t == [] {
      assert s == Zeros(|s|);
    }
  }

  /**
   * The w-digit binary numeral of v, most significant bit first: the
   * reference encoding results are compared against.
   */
  function ToBits(v: nat, w: nat): (s: string)
    requires v < Pow2(w)
    ensures |s| == w && IsBits(s) && Value(s) == v
  {
    if w == 0 then []
    else
      var t := ToBits(v / 2, w - 1);
      var c := BitChar(v % 2);
      ValueAppend(t, c);
      t + [c]
  }

  /** A bit-string is the encoding of its own value at its own width. */
  lemma {:induction false} ToBitsOfValue(s: string)
    requires IsBits(s)
    ensures ToBits(Value(s), |s|) == s
  {
    if s != [] {
      var w := |s|;
      var init := s[..w - 1];
      assert s == init + [s[w - 1]];
      ValueAppend(init, s[w - 1]);
      ToBitsOfValue(init);
      assert Value(s) / 2 == Value(init);
    }
  }

  /** Two bit-strings of the same width and value are equal. */
  lemma SameValueSame(s: string, t: string)
    requires IsBits(s) && IsBits(t) && |s| == |t| && Value(s) == Value(t)
    ensures s == t
  {
    ToBitsOfValue(s);
    ToBitsOfValue(t);
  }

  /** A bit-string starting with '1' is worth at least its top weight. */
  lemma LeadingWeight(s: string)
    requires IsBits(s) && |s| >= 1 && s[0] != '0'
    ensures Value(s) >= Pow2(|s| - 1)
  {
  }

  /**
   * The stripped form is canonical: two bit-strings without leading zeros
   * (or equal to "0") that denote the same number are the same string.
   */
  lemma StrippedSame(s: string, t: string)
    requires IsBits(s) && IsBits(t) && |s| >= 1 && |t| >= 1
    requires (s == "0" || s[0] != '0') && (t == "0" || t[0] != '0')
    requires Value(s) == Value(t)
    ensures s == t
  {
    if s == "0" || t == "0" {
      assert Value("0") == 0;
      if s != "0" {
        LeadingWeight(s);
      } else if t != "0" {
        LeadingWeight(t);
      }
    } else {
      LeadingWeight(s);
      LeadingWeight(t);
      if |s| < |t| {
        Pow2Monotone(|s|, |t| - 1);
      } else if |t| < |s| {
        Pow2Monotone(|t|, |s| - 1);
      }
      SameValueSame(s, t);
    }
  }
}
