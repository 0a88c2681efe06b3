/** The two scalar types of the contract: native field elements, which wrap
    around modulo the field prime, and 64-bit unsigned integers, whose
    arithmetic is range-checked and fails instead of wrapping. */
module Scalars {
  import opened Outcomes

  /** The prime of the native field (the base field of the Pallas curve). */
  const FieldModulus: nat := 0x40000000000000000000000000000000224698fc094cf91b992d30ed00000001

  type Field = x: nat | x < FieldModulus

  /** One more than the largest 64-bit unsigned value. */
  const U64Bound: nat := 0x1_0000_0000_0000_0000

  type U64 = x: nat | x < U64Bound

  /** Every 64-bit value is also a field element. */
  function ToField(x: U64): (f: Field)
    ensures f as int == x as int
  {
    x
  }

  /** Field addition: wraps modulo the prime and never fails. */
  function FieldAdd(a: Field, b: Field): (r: Field)
    ensures a + b < FieldModulus ==> r == a + b
    ensures a + b >= FieldModulus ==> r == a + b - FieldModulus
  {
    (a + b) % FieldModulus
  }

  /** Checked 64-bit addition. */
  function Add(a: U64, b: U64): (r: Result<U64>)
    ensures r.Ok? <==> a + b < U64Bound
    ensures r.Ok? ==> r.value == a + b
    ensures r.Err? ==> r.error == Overflow
  {
    if a + b < U64Bound then Ok(a + b) else Err(Overflow)
  }

  /** Checked 64-bit subtraction. */
  function Sub(a: U64, b: U64): (r: Result<U64>)
    ensures r.Ok? <==> b <= a
    ensures r.Ok? ==> r.value + b == a
    ensures r.Err? ==> r.error == Underflow
  {
    if b <= a then Ok(a - b) else Err(Underflow)
  }

  /** Checked 64-bit multiplication. */
  function Mul(a: U64, b: U64): (r: Result<U64>)
    ensures r.Ok? <==> a * b < U64Bound
    ensures r.Ok? ==> r.value == a * b
    ensures r.Err? ==> r.error == Overflow
  {
    if a * b < U64Bound then Ok(a * b) else Err(Overflow)
  }

  /** 64-bit floor division; fails on a zero divisor. */
  function Div(a: U64, b: U64): (r: Result<U64>)
    ensures r.Ok? <==> b != 0
    ensures r.Ok? ==> r.value == a / b
    ensures r.Err? ==> r.error == DivisionByZero
  {
    if b == 0 then Err(DivisionByZero) else Ok(a / b)
  }
}
