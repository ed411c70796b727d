/** Machine words shared by the other modules. */
module Words {
  type byte = x: int | 0 <= x < 256

  datatype Option<T> = None | Some(value: T)

  const U32_RANGE := 0x1_0000_0000

  /** Truncation to an unsigned 32-bit word. */
  function U32(x: int): (r: nat)
    ensures r < U32_RANGE && (x >= 0 ==> r <= x)
  {
    x % U32_RANGE
  }

  function Zeros(n: nat): (s: seq<byte>)
    ensures |s| == n && forall i :: 0 <= i < n ==> s[i] == 0
  {
    seq(n, _ => 0)
  }

  /** A decimal digit. */
  function Digit(n: nat): (c: char)
    requires n < 10
  {
    '0' + n as char
  }

  function Min(a: nat, b: nat): (m: nat)
    ensures m <= a && m <= b && (m == a || m == b)
  {
    if a <= b then a else b
  }

  /** Unsigned division by repeated subtraction; DivRem ties it to multiplication. */
  function Div(x: nat, d: nat): nat
    requires d > 0
  {
    if x < d then 0 else 1 + Div(x - d, d)
  }

  function Rem(x: nat, d: nat): (r: nat)
    requires d > 0
    ensures r < d
  {
    if x < d then x else Rem(x - d, d)
  }

  lemma {:induction false} DivRem(x: nat, d: nat)
    requires d > 0
    ensures x == Div(x, d) * d + Rem(x, d)
  {
    if x >= d {
      DivRem(x - d, d);
      assert (1 + Div(x - d, d)) * d == d + Div(x - d, d) * d;
    }
  }

  /** Quotient and remainder are unique. */
  lemma {:induction false} DivRemUnique(x: nat, d: nat, q: nat, r: nat)
    requires r < d && x == q * d + r
    ensures Div(x, d) == q && Rem(x, d) == r
  {
    if q > 0 {
      assert q * d == (q - 1) * d + d;
      assert (q - 1) * d >= 0;
      DivRemUnique(x - d, d, q - 1, r);
    }
  }

  lemma MulMono(a: nat, b: nat, k: nat)
    requires a <= b
    ensures a * k <= b * k
  {
  }

  /** Product of two words kept in 32 bits; Mul32Is ties it to multiplication. */
  function Mul32(a: nat, b: nat): (r: nat)
    ensures r < U32_RANGE
  {
    if a == 0 then 0 else U32(Mul32(a - 1, b) + b)
  }

  lemma U32Add(x: nat, y: nat)
    ensures U32(U32(x) + y) == U32(x + y)
  {
  }

  lemma {:induction false} Mul32Is(a: nat, b: nat)
    ensures Mul32(a, b) == U32(a * b)
  {
    if a > 0 {
      var p := (a - 1) * b;
      Mul32Is(a - 1, b);
      assert a * b == p + b;
      U32Add(p, b);
    }
  }
}
