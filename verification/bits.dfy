/** Single-bit logic: the four gates and the two one-bit arithmetic units built from them. */
module Bits {

  /** A single binary digit as an integer, the form the gates work on. */
  type Bit = x: int | 0 <= x <= 1

  /** The integer a bit character stands for (`int(c)` on '0' or '1'). */
  function Digit(c: char): (d: Bit)
    ensures d == 1 <==> c == '1'
  {
    if c == '1' then 1 else 0
  }

  /** The character that prints a bit (`str(d)`). */
  function BitChar(d: Bit): (c: char)
    ensures c == '0' || c == '1'
    ensures Digit(c) == d
  {
    if d == 1 then '1' else '0'
  }

  /** Bitwise `a & b` on one bit: 1 exactly when both inputs are 1. */
  function And(a: Bit, b: Bit): (r: Bit)
    ensures r == 1 <==> a == 1 && b == 1
  {
    ((a as bv1) & (b as bv1)) as int
  }

  /** Bitwise `a | b` on one bit: 1 exactly when either input is 1. */
  function Or(a: Bit, b: Bit): (r: Bit)
    ensures r == 1 <==> a == 1 || b == 1
  {
    ((a as bv1) | (b as bv1)) as int
  }

  /** Bitwise `a ^ b` on one bit: 1 exactly when the inputs differ. */
  function Xor(a: Bit, b: Bit): (r: Bit)
    ensures r == 1 <==> a != b
  {
    ((a as bv1) ^ (b as bv1)) as int
  }

  /** `~a & 1`: the low bit of the complement, which on a bit is 1 - a. */
  function Not(a: Bit): (r: Bit)
    ensures r == 1 - a
  {
    (!(a as bv1)) as int
  }

  /**
   * One column of a ripple-carry adder: the sum bit is the parity of the
   * three inputs and the carry is set when at least two of them are.
   */
  function FullAdder(a: Bit, b: Bit, carryIn: Bit := 0): (r: (Bit, Bit))
    ensures r.0 + 2 * r.1 == a + b + carryIn
  {
    (Xor(Xor(a, b), carryIn), Or(And(a, b), And(carryIn, Xor(a, b))))
  }

  /**
   * One column of a ripple-borrow subtractor: the difference bit is the
   * parity of the three inputs and a borrow of 2 is taken from the next
   * column exactly when a - b - borrowIn would be negative.
   */
  function FullSubtractor(a: Bit, b: Bit, borrowIn: Bit := 0): (r: (Bit, Bit))
    ensures a - b - borrowIn == r.0 - 2 * r.1
  {
    (Xor(Xor(a, b), borrowIn), Or(And(Not(a), b), And(borrowIn, Xor(Not(a), b))))
  }
}
