/**
 * The step-by-step trace. Each entry carries the values its message line
 * prints, in the order the message prints them.
 */
module Trace {
  import opened Bits

  datatype Step =
      /** "Add a + b + Carry carry: Sum = sum, New Carry = newCarry" */
    | AddBit(a: char, b: char, carry: Bit, sum: Bit, newCarry: Bit)
      /** "Final carry: 1" */
    | FinalCarry
      /** "Subtract a - b - Borrow borrow: Difference = difference, New Borrow = newBorrow" */
    | SubBit(a: char, b: char, borrow: Bit, difference: Bit, newBorrow: Bit)
      /** "Partial Product: partial + Current Product: product" */
    | PartialProduct(partial: string, product: string)
      /** "Partial Product (skipped as bit is 0): " followed by `zeros` '0's */
    | SkippedPartial(zeros: nat)
}
