/**
 * Worked cases of the calculator's operations, chosen to show the
 * behaviours a reader might not expect: the wrapped magnitude of a
 * negative difference, the updated carry and borrow written into both
 * fields of a trace entry, and the multiplier's summary entry that shows
 * the product after the addition.
 */
module Examples {
  import opened Bits
  import opened Bitstrings
  import opened Trace
  import opened Adder
  import opened Subtractor
  import opened Multiplier

  /** 1 + 1 overflows one digit: the sum gains a leading '1'. */
  lemma OnePlusOne()
    ensures SumBits("1", "1") == "10"
  {
    assert Value("1") == 1;
    assert Value("10") == 2;
    SameValueSame(SumBits("1", "1"), "10");
  }

  /** The column entry shows the outgoing carry twice, then the final carry is logged. */
  lemma OnePlusOneTrace()
    ensures AddTrace("1", "1") == [AddBit('1', '1', 1, 0, 1), FinalCarry]
  {
    assert Width("1", "1") == 1;
    assert ZFill("1", 1) == "1";
    assert Pad("1", "1") == ("1", "1");
    assert "1"[0..] == "1";
    assert CarryAfter("1", "1", 0) == 1 && SumBitAt("1", "1", 0) == 0;
  }

  /** 1 - 2 at two digits: the sign is '1' and the magnitude is 2^2 - 1 = 3, not 1. */
  lemma OneMinusTwo()
    ensures Difference("1", "10") == "111"
  {
    assert Value("1") == 1;
    assert Value("10") == 2;
    assert Magnitude("1", "10") == 3;
    assert RippleBits("1", "10") == "11";
  }

  /** The column entry shows the outgoing borrow twice. */
  lemma ZeroMinusOneTrace()
    ensures SubTrace("0", "1") == [SubBit('0', '1', 1, 1, 1)]
  {
    assert Pad("0", "1") == ("0", "1");
    assert BorrowAfter("0", "1", 0) == 1;
    assert DiffBitAt("0", "1", 0) == 1;
  }

  /** A '0' multiplier digit only logs a skip, as wide as the widened multiplicand. */
  lemma OneTimesZero()
    ensures Product("1", "0") == "0" && MulTrace("1", "0", 1) == [SkippedPartial(2)]
  {
    assert ProductAfter("1", "0", 1) == "0";
  }

  /** 1 * 1: the running product "01" loses its leading zero at the end. */
  lemma OneTimesOne()
    ensures Partial("1", "1", 0) == "01"
    ensures ProductAfter("1", "1", 1) == "01" && Product("1", "1") == "1"
  {
    var pp := Partial("1", "1", 0);
    assert pp == "01";
    PadValue("0", pp);
    assert Value("01") == 1;
    SameValueSame(SumBits("0", pp), "01");
    assert LStripZeros("01") == "1";
  }

  /** 0 + 1 at two digits: no carry anywhere, so no final entry. */
  lemma ZeroPlusOneTrace()
    ensures AddTrace("0", "01") == [AddBit('0', '1', 0, 1, 0), AddBit('0', '0', 0, 0, 0)]
  {
    assert Width("0", "01") == 2;
    assert Zeros(1) + "0" == "00";
    assert ZFill("0", 2) == "00" && ZFill("01", 2) == "01";
    assert Pad("0", "01") == ("00", "01");
    assert "00"[1..] == "0" && "01"[1..] == "1" && "00"[0..] == "00" && "01"[0..] == "01";
    assert CarryAfter("00", "01", 1) == 0 && SumBitAt("00", "01", 1) == 1;
    assert CarryAfter("00", "01", 0) == 0 && SumBitAt("00", "01", 0) == 0;
  }

  /**
   * A '1' multiplier digit logs the partial product beside the product after
   * the addition, then the addition's own entries.
   */
  lemma OneTimesOneTrace()
    ensures MulTrace("1", "1", 1)
            == [PartialProduct("01", "01"), AddBit('0', '1', 0, 1, 0), AddBit('0', '0', 0, 0, 0)]
  {
    OneTimesOne();
    ZeroPlusOneTrace();
    assert Widened("1", "1") + Zeros(0) == "01";
    MulStepOne("1", "1", 1, 0, [], "0", "01", "01", AddTrace("0", "01"));
  }
  /** 11 + 01 overflows two digits: three entries, the last one the final carry. */
  lemma ThreePlusOne()
    ensures SumBits("11", "01") == "100" && |AddTrace("11", "01")| == 3
  {
    assert Value("11") == 3 && Value("01") == 1 && Value("100") == 4;
    SameValueSame(SumBits("11", "01"), "100");
    AddTraceLength("11", "01");
  }

  /** 01 - 11: negative, and the magnitude is 2^2 - 2 = 2, so the result is "110". */
  lemma OneMinusThree()
    ensures Difference("01", "11") == "110"
  {
    assert Value("01") == 1 && Value("11") == 3;
    assert Magnitude("01", "11") == 2;
    assert Value("10") == 2;
    SameValueSame(RippleBits("01", "11"), "10");
  }

  /** 11 - 01: non-negative, the difference 2 without its leading zeros. */
  lemma ThreeMinusOne()
    ensures Difference("11", "01") == "010"
  {
    assert Value("01") == 1 && Value("11") == 3;
    assert Magnitude("11", "01") == 2;
    assert Value("10") == 2;
    SameValueSame(RippleBits("11", "01"), "10");
  }

  /** 10 * 11 gives "110", the product 6 without its leading zeros. */
  lemma TwoTimesThree()
    ensures Product("10", "11") == "110"
  {
    assert Value("10") == 2 && Value("11") == 3 && Value("110") == 6;
    ProductIs("10", "11", "110");
  }

  /**
   * A '1' digit of b always triggers an addition, even when a is all zeros:
   * 00 * 11 logs two summary entries, each followed by its addition's
   * entries, and no skip entry, and its result is "0".
   */
  lemma ZeroTimesThree()
    ensures Product("00", "11") == "0"
    ensures Summaries(MulTrace("00", "11", 2)) == 2 && Skips(MulTrace("00", "11", 2)) == 0
  {
    assert Value("00") == 0 && Value("0") == 0;
    ProductIs("00", "11", "0");
    MulCounts("00", "11");
    assert "11"[1..] == "1" && "1"[1..] == "";
    assert Occurrences("11", '1') == 2 && Occurrences("11", '0') == 0;
  }
}
