/** The pieces of Rust's integer semantics that the program relies on. */
module RustInt {

  type u8 = x: int | 0 <= x < 0x100
  type u16 = x: int | 0 <= x < 0x1_0000
  type i8 = x: int | -0x80 <= x < 0x80

  datatype Option<+T> = None | Some(value: T) {
    predicate IsFailure() { None? }

    function PropagateFailure<U>(): Option<U>
      requires None?
    {
      None
    }

    function Extract(): T
      requires Some?
    {
      value
    }
  }

  /** `a / b` on signed integers: rounds toward zero. */
  function Div(a: int, b: int): int
    requires b > 0
  {
    if a >= 0 then a / b else -(-a / b)
  }

  /** `a % b` on signed integers: takes the sign of `a`. */
  function Rem(a: int, b: int): int
    requires b > 0
  {
    a - b * Div(a, b)
  }

  /** `n as u8`: keeps the low eight bits. */
  function AsU8(n: int): u8 { n % 0x100 }

  /** `n as u16`: keeps the low sixteen bits. */
  function AsU16(n: int): u16 { n % 0x1_0000 }

  /** `n as i8`: keeps the low eight bits, read in two's complement. */
  function AsI8(n: int): i8 { (n + 0x80) % 0x100 - 0x80 }

  /** A cast of a number that fits loses nothing. */
  lemma CastKeeps(n: int)
    ensures 0 <= n < 0x100 ==> AsU8(n) == n
    ensures 0 <= n < 0x1_0000 ==> AsU16(n) == n
  {
  }

  /** A cast of any number gives the one in range that differs by a multiple of the range. */
  lemma CastWraps(n: int, k: int)
    ensures 0 <= n < 0x100 ==> AsU8(n + k * 0x100) == n
    ensures 0 <= n < 0x1_0000 ==> AsU16(n + k * 0x1_0000) == n
    ensures -0x80 <= n < 0x80 ==> AsI8(n + k * 0x100) == n
  {
    if 0 <= n < 0x100 {
      QuotientIsUnique(n + k * 0x100, 0x100, k, n);
    }
    if 0 <= n < 0x1_0000 {
      QuotientIsUnique(n + k * 0x1_0000, 0x1_0000, k, n);
    }
    if -0x80 <= n < 0x80 {
      QuotientIsUnique(n + k * 0x100 + 0x80, 0x100, k, n + 0x80);
    }
  }

  /** Quotient and remainder are those of truncation: the remainder is smaller than the divisor and
      has the sign of the dividend. */
  lemma DivTruncates(a: int, b: int)
    requires b > 0
    ensures a == b * Div(a, b) + Rem(a, b) && -b < Rem(a, b) < b
    ensures (a >= 0 ==> Rem(a, b) >= 0) && (a <= 0 ==> Rem(a, b) <= 0)
  {
    if a < 0 {
      assert -a == b * (-a / b) + (-a % b);
      assert b * -(-a / b) == -(b * (-a / b));
    }
  }

  lemma QuotientIsUnique(a: int, b: int, q: int, r: int)
    requires b > 0 && a == b * q + r && 0 <= r < b
    ensures a / b == q && a % b == r
  {
    var k := a / b - q;
    assert b * k == r - a % b by { assert b * k == b * (a / b) - b * q; }
    assert k >= 1 ==> b * k >= b;
    assert k <= -1 ==> b * k <= -b;
  }

  /** Truncated division followed by the sign fix-up is floor division. */
  lemma FixUpIsFloor(a: int, b: int)
    requires b > 0
    ensures Rem(a, b) < 0 ==> Div(a, b) - 1 == a / b && Rem(a, b) + b == a % b
    ensures Rem(a, b) >= 0 ==> Div(a, b) == a / b && Rem(a, b) == a % b
  {
    var q, r := Div(a, b), Rem(a, b);
    if a < 0 {
      assert -a == b * (-a / b) + (-a % b);
      assert r == -(-a % b);
    }
    if r < 0 {
      assert b * (q - 1) == b * q - b;
      QuotientIsUnique(a, b, q - 1, r + b);
    } else {
      QuotientIsUnique(a, b, q, r);
    }
  }
}
