# Binary calculator arithmetic core, in Dafny

This project models the arithmetic core of `binarycalculator.py`. That core is:

- the one-bit gates `AND`, `OR`, `XOR` and `NOT`;
- the full adder and the full subtractor;
- operand alignment (`pad_binary`);
- three operations on bit-strings written most-significant bit first: `binary_adder`, `binary_subtractor` and `binary_multiplier`.

Each operation returns a result string and a trace of the steps it took. Each trace message is modelled as a value of the `Trace.Step` datatype. A step carries the same fields the message prints.

Layout:

- `bits.dfy` (module `Bits`): the gates on the subset type `Bit` (0 or 1), and the full adder and full subtractor built from them.
- `bitstrings.dfy` (module `Bitstrings`) holds:
  - the numeric reading of a bit-string, `Value`, which plays the role of `int(s, 2)`;
  - `str.zfill`, `pad_binary`, and `s.lstrip("0") or "0"`;
  - a reference encoder `ToBits`, with the uniqueness lemma `SameValueSame`.
- `trace.dfy` (module `Trace`): the `Step` datatype. There is one constructor per kind of message.
- `adder.dfy`, `subtractor.dfy`, `multiplier.dfy`: the specification of each operation.
  - Per column, the carry (or borrow) is defined by a threshold on the low part of the operands, without reference to the ripple. For example, the carry out of column i is set exactly when the low n-i bits add up to 2^(n-i) or more.
  - `RippleColumn` and `BorrowColumn` prove that the full adder and full subtractor reproduce these thresholds.
  - The result is specified through `ToBits`, and the trace through functions that list the entries.
  - The lemmas state what the results and traces mean.
- `calculator.dfy` (module `Calculator`): the three operations as loops. Their loops run from the rightmost column, prepend to the result and append to the trace, as the source does. Each is proved equal to its specification function.
- `examples.dfy` (module `Examples`): worked cases of the behaviour described below.

Behaviours of the source that the model keeps:

- The message of an adder column (line 23) and of a subtractor column (line 40) is written after the carry or borrow is reassigned. It therefore shows the outgoing value in both the "Carry"/"Borrow" field and the "New" field, and the incoming value is never recorded. `AddBit` and `SubBit` keep both fields. `AddTraceEntry` and `SubTraceEntry` state that they are equal.
- When a < b, the subtractor does not negate. The digits are those the unsigned n-bit ripple leaves, which is (a - b) mod 2^n. Only the leading sign character says the result is negative. For example, `Difference("1", "10") == "111"` (`Examples.OneMinusTwo`).
- The multiplier's summary entry is written after the addition. It shows the product after the partial product was added (`Examples.OneTimesOneTrace`).
- The multiplier's skip entry records the length of the widened multiplicand, |a| + |b|.
- The adder never strips leading zeros from its result. The multiplier strips only the final product. The multiplier's running product is kept at whatever width the adder returns.
- A '1' digit of b always triggers an addition, even when a is all zeros. A skip entry is logged only for a '0' digit of b. So `binary_multiplier("00", "11")` logs two summary entries, each followed by its addition's entries, and no skip entry, and it returns "0" (`Examples.ZeroTimesThree`, from `Multiplier.MulCounts` and `Multiplier.ProductIs`).

## Model

| member | source | states |
|---|---|---|
| Bits.And | binarycalculator.py:5 | the result is a bit, and it is 1 exactly when both inputs are 1 |
| Bits.Or | binarycalculator.py:6 | the result is a bit, and it is 1 exactly when either input is 1 |
| Bits.Xor | binarycalculator.py:7 | the result is a bit, and it is 1 exactly when the inputs differ |
| Bits.Not | binarycalculator.py:8 | `~a & 1` on a bit is exactly 1 - a |
| Bits.FullAdder | binarycalculator.py:65-68 | both outputs are bits and sum + 2·carry_out = a + b + carry_in |
| Bits.FullSubtractor | binarycalculator.py:71-74 | both outputs are bits and a - b - borrow_in = difference - 2·borrow_out |
| Bits.Digit | binarycalculator.py:21 | `int(c)` on '0' or '1': 1 exactly for '1' |
| Bits.BitChar | binarycalculator.py:22 | `str(bit)` gives '0' or '1', and reading it back gives the bit |
| Bitstrings.IsBits | binarycalculator.py:81 | the input check: every character is '0' or '1'; every operation requires it of both operands |
| Bitstrings.Width | binarycalculator.py:12 | `max_len`, the longer operand's length; `Pad` states that both aligned operands have it |
| Bitstrings.Value | binarycalculator.py:34 | `int(s, 2)`: the value of an n-digit string is below 2^n |
| Bitstrings.ZFill | binarycalculator.py:13 | `zfill`: the length is max(\|s\|, width) |
| Bitstrings.ZFillShape | binarycalculator.py:13 | s is a suffix of the filled string, only '0's are added in front, and bit-strings stay bit-strings |
| Bitstrings.ZFillValue | binarycalculator.py:13 | zero-filling keeps the value |
| Bitstrings.Pad | binarycalculator.py:11-13 | both outputs have the longer operand's length |
| Bitstrings.PadShape | binarycalculator.py:11-13 | each output ends with its input with only '0's before it, and bit-strings stay bit-strings |
| Bitstrings.PadValue | binarycalculator.py:11-13 | aligning keeps both operands' values |
| Bitstrings.PadBitAt | binarycalculator.py:11-13 | position k from the right of an aligned operand is the operand's k-th least significant digit, '0' beyond its length |
| Bitstrings.PadIdempotent | binarycalculator.py:11-13 | aligning twice gives the same pair as aligning once |
| Bitstrings.StripZeros | binarycalculator.py:42 | `lstrip("0") or "0"`: the result is non-empty, starts with no '0' unless it is "0", is no longer than the input unless it is "0", and stays a bit-string |
| Bitstrings.StripZerosValue | binarycalculator.py:42 | stripping leading zeros keeps the value |
| Bitstrings.LStripZeros | binarycalculator.py:42 | `lstrip("0")`: the input is the result preceded only by '0's, and the result does not start with '0' |
| Bitstrings.StrippedSame | binarycalculator.py:42 | two stripped bit-strings with the same value are equal, so the stripped form is canonical |
| Bitstrings.StripThenFill | binarycalculator.py:42 | stripping a non-empty bit-string and zero-filling it back to its width gives it back |
| Adder.CarryAfter | binarycalculator.py:20-21 | the value `carry` holds after column i: 1 exactly when the low n-i digits of the aligned operands add up to 2^(n-i) or more; `RippleColumn` proves the full adder produces it |
| Adder.SumBitAt | binarycalculator.py:21 | the value `sum_bit` takes at column i: the digit of weight 2^(n-1-i) of the low sum; `RippleColumn` proves the full adder produces it |
| Adder.AddColumns | binarycalculator.py:20-23 | `steps` after the loop has handled j columns: j entries, the rightmost column's first; `AddColumnsAt` gives entry k, and `AddTraceColumns` closes the list into the trace |
| Adder.AddColumn | binarycalculator.py:23 | the entry for column i holds that column's digits and the same carry in both carry fields; its sum bit and carry are the column's threshold values, which `RippleColumn` ties to the full adder |
| Adder.AddTrace | binarycalculator.py:20-27 | the adder's trace: one entry per column, rightmost first, and at most one more; `AddTraceColumns`, `AddTraceLength` and the entry lemmas state its content |
| Adder.SumDigits | binarycalculator.py:21-22 | the digits the loop has prefixed from column i on: n-i of them; `SumDigitsValue` states their value |
| Adder.RippleColumn | binarycalculator.py:21 | the full adder on column i with the carry out of column i+1 gives that column's threshold sum bit and carry |
| Adder.SumBits | binarycalculator.py:16-29 | the sum is a bit-string of value a + b; it is n digits long when a + b < 2^n and otherwise n+1 digits with a leading '1' |
| Adder.SumDigitsValue | binarycalculator.py:20-22 | the digits the loop has prefixed from column i on, plus the carry out of column i at weight 2^(n-i), are the low sum |
| Adder.AdderLoopDone | binarycalculator.py:25-26 | after the loop the digits, with a '1' prefixed exactly when the last carry is 1, are the sum |
| Adder.AddTraceColumns | binarycalculator.py:20-27 | the definition of `AddTrace` unfolded with the aligned pair named, as the loop uses it: the n column entries in right-to-left order, then a final-carry entry exactly when the last carry is 1 |
| Adder.AddTraceLength | binarycalculator.py:20-27 | the trace has n entries when a + b < 2^n and otherwise n+1, with the final-carry entry last; its length is the sum's length |
| Adder.AddTraceEntry | binarycalculator.py:20-23 | entry k is a column entry holding the k-th least significant digits of a and b, and its two carry fields are equal |
| Adder.AddTraceFirst | binarycalculator.py:17-22 | the first entry replays the full adder on its digits with carry 0 |
| Adder.AddTraceNext | binarycalculator.py:20-23 | every later entry replays the full adder on its digits with the carry shown by the entry before it |
| Adder.CarryChain | binarycalculator.py:20-23 | the column entry at i replays the full adder on the carry out of column i+1 |
| Adder.AddTraceSums | binarycalculator.py:20-23 | the sum bit in entry k is digit k from the right of the result |
| Subtractor.BorrowAfter | binarycalculator.py:37-38 | the value `borrow` holds after column i: 1 exactly when the low n-i digits of a are below those of b; `BorrowColumn` proves the full subtractor produces it |
| Subtractor.DiffBitAt | binarycalculator.py:38 | the value `diff_bit` takes at column i: the digit of weight 2^(n-1-i) of the low difference once the borrow is paid back; `BorrowColumn` proves the full subtractor produces it |
| Subtractor.SubColumns | binarycalculator.py:37-40 | `steps` after the loop has handled j columns: j entries, the rightmost column's first; `SubColumnsAt` gives entry k, and `SubResult` ties the list to the trace |
| Subtractor.SubColumn | binarycalculator.py:40 | the entry for column i holds that column's digits and the same borrow in both borrow fields; its difference bit and borrow are the column's threshold values, which `BorrowColumn` ties to the full subtractor |
| Subtractor.SubTrace | binarycalculator.py:37-40 | the subtractor's trace: exactly one entry per column; `SubTraceDiffs` and the entry lemmas state its content |
| Subtractor.DiffDigits | binarycalculator.py:38-39 | the digits the loop has prefixed from column i on: n-i of them; `DiffDigitsValue` states their value |
| Subtractor.BorrowColumn | binarycalculator.py:38 | the full subtractor on column i with the borrow out of column i+1 gives that column's threshold difference bit and borrow |
| Subtractor.DiffDigitsValue | binarycalculator.py:37-39 | the digits the loop has prefixed from column i on, minus the borrow out of column i at weight 2^(n-i), are the low difference |
| Subtractor.Magnitude | binarycalculator.py:37-41 | the unsigned n-bit ripple result is below 2^n |
| Subtractor.MagnitudeModulo | binarycalculator.py:37-41 | that magnitude is (a - b) mod 2^n |
| Subtractor.RippleBits | binarycalculator.py:37-41 | the n digits the loop leaves form a bit-string whose value is the magnitude |
| Subtractor.SubLoopDone | binarycalculator.py:37-41 | after the loop the prefixed digits are exactly those n digits |
| Subtractor.Difference | binarycalculator.py:34-44 | the result of `binary_subtractor`: at least two characters, the first '1' exactly when a < b; `DifferenceShape` states the rest |
| Subtractor.DifferenceShape | binarycalculator.py:32-46 | the result is at least two characters long and is a bit-string; its first character is '1' exactly when a < b; the rest has no leading zero unless it is "0", has the magnitude as its value (a - b when a >= b), and zero-fills back to the n ripple digits |
| Subtractor.SubResult | binarycalculator.py:42-44 | the sign character followed by the stripped loop digits is the result, and the loop's entries are the trace |
| Subtractor.SubTraceEntry | binarycalculator.py:37-40 | entry k is a column entry holding the k-th least significant digits of a and b, and its two borrow fields are equal |
| Subtractor.SubTraceFirst | binarycalculator.py:35-40 | the first entry replays the full subtractor on its digits with borrow 0 |
| Subtractor.SubTraceNext | binarycalculator.py:37-40 | every later entry replays the full subtractor on its digits with the borrow shown by the entry before it |
| Subtractor.BorrowChain | binarycalculator.py:37-40 | the column entry at i replays the full subtractor on the borrow out of column i+1 |
| Subtractor.SubTraceDiffs | binarycalculator.py:37-40 | the trace has exactly n entries, and the difference bit in entry k is digit k from the right of the n ripple digits |
| Multiplier.Widened | binarycalculator.py:51 | the multiplicand zero-filled to \|a\| + \|b\| digits, still a bit-string |
| Multiplier.Partial | binarycalculator.py:55 | the partial product for the j-th digit from the right: \|a\| + \|b\| + j digits, a bit-string when a is one |
| Multiplier.PartialValue | binarycalculator.py:55 | the partial product for the j-th digit from the right is a·2^j |
| Multiplier.ProductAfter | binarycalculator.py:50-56 | the running product after the j rightmost digits of b: a non-empty bit-string; `ProductAfterValue` states its value |
| Multiplier.ProductAfterStep | binarycalculator.py:54-58 | one more digit adds a·2^(j-1) to the running product's value exactly when the digit is '1' |
| Multiplier.ProductAfterValue | binarycalculator.py:53-58 | after the j rightmost digits of b, the running product is a times the value of those digits |
| Multiplier.MulStepOne | binarycalculator.py:54-58 | on a '1', adding the shifted multiplicand gives the next running product, and the summary entry (showing the product after the addition) followed by the addition's entries extends the trace |
| Multiplier.MulStepZero | binarycalculator.py:59-60 | on any other digit the product stays, and one skip entry of length \|a\| + \|b\| extends the trace |
| Multiplier.Product | binarycalculator.py:62 | the result is a non-empty bit-string without a leading zero unless it is "0" |
| Multiplier.ProductValue | binarycalculator.py:49-62 | the result's value is a·b |
| Multiplier.ProductIs | binarycalculator.py:62 | the result is the one bit-string without a leading zero (or "0") whose value is a·b |
| Multiplier.DigitEntries | binarycalculator.py:54-60 | the entries one digit of b adds: at least one, the first a summary entry exactly when the digit is '1' |
| Multiplier.MulTrace | binarycalculator.py:53-60 | the multiplier's trace after the j rightmost digits of b: at least one entry per digit; `MulTraceCounts` and `MulCounts` count its kinds |
| Multiplier.DigitEntriesCounts | binarycalculator.py:54-60 | one digit's entries hold one summary entry and no skip for a '1', and one skip and no summary otherwise |
| Multiplier.MulTraceStep | binarycalculator.py:54-60 | one more digit adds one summary entry for a '1' and one skip entry for any other digit |
| Multiplier.MulTraceCounts | binarycalculator.py:53-60 | after the j rightmost digits of b, the summary entries number the '1's among them and the skip entries the other digits |
| Multiplier.MulCounts | binarycalculator.py:53-60 | the whole trace holds one summary entry per '1' of b and one skip entry per '0' of b |
| Calculator.BinaryAdder | binarycalculator.py:16-29 | the loop's result is the sum, and its steps are the adder's trace |
| Calculator.BinarySubtractor | binarycalculator.py:32-46 | the loop's result is the signed difference, and its steps are the subtractor's trace |
| Calculator.BinaryMultiplier | binarycalculator.py:49-62 | the loop, which calls the adder, returns the stripped product and the multiplier's trace |
| Examples.OnePlusOne | binarycalculator.py:25-26 | 1 + 1 gives "10" |
| Examples.OnePlusOneTrace | binarycalculator.py:23-27 | the trace of 1 + 1 shows the outgoing carry in both fields, then the final carry |
| Examples.OneMinusTwo | binarycalculator.py:34-44 | 1 - 10 gives "111": the sign, then the wrapped magnitude 3 |
| Examples.ZeroMinusOneTrace | binarycalculator.py:38-40 | the trace of 0 - 1 shows the outgoing borrow in both fields |
| Examples.OneTimesZero | binarycalculator.py:59-62 | 1 · 0 gives "0" with a single skip entry of length 2 |
| Examples.OneTimesOne | binarycalculator.py:55-62 | 1 · 1: the partial product "01" leads to the running product "01", and the result is "1" |
| Examples.ZeroPlusOneTrace | binarycalculator.py:20-27 | 0 + 01 logs two column entries and no final carry |
| Examples.ThreePlusOne | binarycalculator.py:16-29 | 11 + 01 gives "100" with three trace entries |
| Examples.OneMinusThree | binarycalculator.py:32-46 | 01 - 11 gives "110": the sign, then the wrapped magnitude 2 |
| Examples.ThreeMinusOne | binarycalculator.py:32-46 | 11 - 01 gives "010" |
| Examples.TwoTimesThree | binarycalculator.py:49-62 | 10 · 11 gives "110" |
| Examples.ZeroTimesThree | binarycalculator.py:53-62 | 00 · 11 gives "0" with two summary entries and no skip entry |
| Examples.OneTimesOneTrace | binarycalculator.py:54-58 | the summary entry of 1 · 1 shows the product after the addition, followed by the addition's entries |

## Left out

- The tkinter layer (binarycalculator.py:77-158) is not part of this model. That covers the event handler, the step window, the canvas drawings and the widget setup. They do I/O on a window and hold no arithmetic.
- The input check at binarycalculator.py:81 becomes a precondition: every operation requires bit-strings.
- `binary_subtractor` additionally requires at least one non-empty operand. `int("", 2)` raises when both operands are empty, and the model has no exception path for it.
- The message text of the trace is not modelled. Each `Step` carries the values the message prints.
- The gates are modelled on bits only. The source applies them to Python integers, but it only ever passes 0 or 1.
- Calculator.BinaryAdder: states its result as `SumBits(a, b)` and its steps as `AddTrace(a, b)`. The value, length and trace facts are proved about those functions, not repeated in the method's contract.
- Calculator.BinarySubtractor and Calculator.BinaryMultiplier: likewise, they are tied to `Difference`, `SubTrace`, `Product` and `MulTrace`, and the lemmas about those functions state the properties.
