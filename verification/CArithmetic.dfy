/** The integer operations of C++ that differ from Dafny's: division and remainder
    truncate toward zero, and fixed-width values wrap around. */
module CArithmetic {

  /** `a / b` as C++ computes it, for a positive divisor. */
  function TruncDiv(a: int, b: int): int
    requires b > 0
  {
    if a >= 0 then a / b else -((-a) / b)
  }

  /** `a % b` as C++ computes it, for a positive divisor. */
  function TruncMod(a: int, b: int): int
    requires b > 0
  {
    a - b * TruncDiv(a, b)
  }

  /** A value converted to `unsigned` (32 bits). */
  function U32(a: int): int {
    a % 0x1_0000_0000
  }

  /** A value converted to `short`, the type in which every `year` class keeps its value. */
  function S16(a: int): int {
    (a + 0x8000) % 0x1_0000 - 0x8000
  }

  predicate InShort(a: int) {
    -0x8000 <= a < 0x8000
  }

  predicate InInt32(a: int) {
    -0x8000_0000 <= a < 0x8000_0000
  }

  /** The idiom `(a >= 0 ? a : a - (b-1)) / b`. */
  function AdjustedDiv(a: int, b: int): int
    requires b > 0
  {
    TruncDiv(if a >= 0 then a else a - (b - 1), b)
  }

  /** The adjusted truncating division is floor division. */
  lemma AdjustedDivIsFloor(a: int, b: int)
    requires b > 0
    ensures AdjustedDiv(a, b) == a / b
    ensures b * AdjustedDiv(a, b) <= a < b * (AdjustedDiv(a, b) + 1)
  {
    if a < 0 {
      var n := b - 1 - a;
      var q := n / b;
      assert n == b * q + n % b;
      assert b * (-q) == -(b * q);
      FloorUnique(a, b, -q);
    }
    assert a == b * (a / b) + a % b;
    assert b * (a / b + 1) == b * (a / b) + b;
  }

  lemma FloorUnique(a: int, b: int, q: int)
    requires b > 0
    requires b * q <= a < b * q + b
    ensures a / b == q
  {
    var k := a / b - q;
    assert a == b * (a / b) + a % b;
    assert b * k == b * (a / b) - b * q;
    assert k >= 1 ==> b * k >= b;
    assert k <= -1 ==> b * k <= -b;
  }

  /** The quotient moves up at the multiples of the divisor and nowhere else. */
  lemma DivStep(a: int, b: int)
    requires b > 0
    ensures (a + 1) / b == a / b + if (a + 1) % b == 0 then 1 else 0
  {
    var q := (a + 1) / b;
    assert a + 1 == b * q + (a + 1) % b;
    if (a + 1) % b == 0 {
      assert b * (q - 1) == b * q - b;
      FloorUnique(a, b, q - 1);
    } else {
      FloorUnique(a, b, q);
    }
  }

  lemma AdjustedDivUnique(a: int, b: int, q: int)
    requires b > 0
    requires b * q <= a < b * q + b
    ensures AdjustedDiv(a, b) == q
  {
    AdjustedDivIsFloor(a, b);
    FloorUnique(a, b, q);
  }

  /** A truncating remainder is zero exactly when the divisor divides. */
  lemma TruncModZero(a: int, b: int)
    requires b > 0
    ensures TruncMod(a, b) == 0 <==> a % b == 0
  {
    var q := TruncDiv(a, b);
    assert a == b * (a / b) + a % b;
    if TruncMod(a, b) == 0 {
      FloorUnique(a, b, q);
    } else if a % b == 0 && a < 0 {
      assert -a == b * -(a / b);
      FloorUnique(-a, b, -(a / b));
    }
  }

  lemma MulGap(a: int, b: int, s: int)
    requires a < b && s >= 1
    ensures a * s + s <= b * s
  {
    assert (b - a - 1) * s >= 0;
    assert b * s == a * s + s + (b - a - 1) * s;
  }
}
