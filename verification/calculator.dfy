/**
 * The three operations of the calculator as the loops they are: each is
 * proved against the specification functions of its own module.
 */
module Calculator {
  import opened Bits
  import opened Bitstrings
  import opened Trace
  import opened Adder
  import opened Subtractor
  import opened Multiplier

  /**
   * `binary_adder(a, b)`: the sum of a and b as a bit-string at the aligned
   * width, one digit wider on overflow, with the trace of its columns.
   */
  method BinaryAdder(a: string, b: string) returns (result: string, steps: seq<Step>)
    requires IsBits(a) && IsBits(b)
    ensures result == SumBits(a, b) && steps == AddTrace(a, b)
  {
    var p := Pad(a, b);
    var pa, pb := p.0, p.1;
    var n := |pa|;
    var carry: Bit := 0;
    result, steps := "", [];
    var i := n;
    NoCarryIntoLast(pa, pb);
    AdderLoopDone(a, b, pa, pb);
    AddTraceColumns(a, b, pa, pb);
    while i > 0
      invariant 0 <= i <= n
      invariant result == SumDigits(pa, pb, i) && carry == CarryAfter(pa, pb, i)
      invariant steps == AddColumns(pa, pb, n - i)
    {
      i := i - 1;
      AddColumnsSnoc(pa, pb, n - 1 - i, i);
      RippleColumn(pa, pb, i);
      var column := FullAdder(Digit(pa[i]), Digit(pb[i]), carry);
      var sumBit := column.0;
      carry := column.1;
      result := [BitChar(sumBit)] + result;
      steps := steps + [AddBit(pa[i], pb[i], carry, sumBit, carry)];
    }
    if carry == 1 {
      result := "1" + result;
      steps := steps + [FinalCarry];
    }
  }

  /**
   * `binary_subtractor(a, b)`: the sign character ('1' exactly when a < b)
   * followed by the n-bit ripple-borrow result without its leading zeros,
   * with the trace of its columns.
   */
  method BinarySubtractor(a: string, b: string) returns (result: string, steps: seq<Step>)
    requires IsBits(a) && IsBits(b) && Width(a, b) >= 1
    ensures result == Difference(a, b) && steps == SubTrace(a, b)
  {
    var p := Pad(a, b);
    var pa, pb := p.0, p.1;
    var n := |pa|;
    var isNegative := Value(pa) < Value(pb);
    var borrow: Bit := 0;
    result, steps := "", [];
    var i := n;
    NoBorrowIntoLast(pa, pb);
    while i > 0
      invariant 0 <= i <= n
      invariant result == DiffDigits(pa, pb, i) && borrow == BorrowAfter(pa, pb, i)
      invariant steps == SubColumns(pa, pb, n - i)
    {
      i := i - 1;
      SubColumnsSnoc(pa, pb, n - 1 - i, i);
      BorrowColumn(pa, pb, i);
      var column := FullSubtractor(Digit(pa[i]), Digit(pb[i]), borrow);
      var diffBit := column.0;
      borrow := column.1;
      result := [BitChar(diffBit)] + result;
      steps := steps + [SubBit(pa[i], pb[i], borrow, diffBit, borrow)];
    }
    SubResult(a, b, pa, pb, isNegative, result, steps);
    result := StripZeros(result);
    var signBit := if isNegative then "1" else "0";
    result := signBit + result;
  }

  /**
   * `binary_multiplier(a, b)`: shift-and-add over the digits of b from the
   * right, the running product kept by the adder; the result is the final
   * product without its leading zeros, with the trace.
   */
  method BinaryMultiplier(a: string, b: string) returns (result: string, steps: seq<Step>)
    requires IsBits(a) && IsBits(b)
    ensures result == Product(a, b) && steps == MulTrace(a, b, |b|)
  {
    var product := "0";
    steps := [];
    var wide := Widened(a, b);
    var i := |b|;
    while i > 0
      invariant 0 <= i <= |b|
      invariant product == ProductAfter(a, b, |b| - i) && steps == MulTrace(a, b, |b| - i)
    {
      i := i - 1;
      if b[i] == '1' {
        var partial := wide + Zeros(|b| - 1 - i);
        var prev, addSteps := product, [];
        product, addSteps := BinaryAdder(prev, partial);
        MulStepOne(a, b, |b| - i, i, steps, prev, partial, product, addSteps);
        steps := steps + [PartialProduct(partial, product)] + addSteps;
      } else {
        MulStepZero(a, b, |b| - i, i, steps, product);
        steps := steps + [SkippedPartial(|wide|)];
      }
    }
    result := StripZeros(product);
  }
}
