/** Machine words as the program uses them: bytes, 32- and 64-bit integers with explicit
    wrap-around, and the errors the decoder can report. */
module Words {
  const TWO32 := 0x1_0000_0000
  const TWO63 := 0x8000_0000_0000_0000
  const TWO64 := 0x1_0000_0000_0000_0000
  const MAX_INT := TWO63 - 1

  type byte = b: int | 0 <= b < 256
  type uint32 = x: int | 0 <= x < TWO32
  type uint64 = x: int | 0 <= x < TWO64
  type int32 = x: int | -0x8000_0000 <= x < 0x8000_0000
  type int64 = x: int | -TWO63 <= x < TWO63

  datatype Option<+T> = None | Some(value: T)

  datatype Error =
    | Overflow             // ErrIntOverflowMsg
    | UnexpectedEOF        // io.ErrUnexpectedEOF
    | InvalidLength        // ErrInvalidLengthMsg
    | EndGroupForNonGroup
    | IllegalTag
    | WrongWireType
    | UnexpectedEndOfGroup // ErrUnexpectedEndOfGroupMsg
    | IllegalWireType

  datatype Result<+T> = Ok(value: T) | Err(error: Error)

  /** The integer types a varint is accumulated in. */
  datatype Width = U32 | U64 | I32 | I64

  function Modulus(w: Width): nat {
    if w.U32? || w.I32? then TWO32 else TWO64
  }

  /** Two's complement truncation of x to width w. */
  function Trunc(w: Width, x: int): int {
    match w
    case U32 => x % TWO32
    case U64 => x % TWO64
    case I32 => var u := x % TWO32; if u >= TWO32 / 2 then u - TWO32 else u
    case I64 => var u := x % TWO64; if u >= TWO63 then u - TWO64 else u
  }

  /** A truncated number is one of its type (and by TruncDiffers differs by a multiple of the modulus). */
  lemma TruncFits(w: Width, x: int)
    ensures match w
            case U32 => 0 <= Trunc(w, x) < 0x1_0000_0000
            case U64 => 0 <= Trunc(w, x) < 0x1_0000_0000_0000_0000
            case I32 => -0x8000_0000 <= Trunc(w, x) < 0x8000_0000
            case I64 => -0x8000_0000_0000_0000 <= Trunc(w, x) < 0x8000_0000_0000_0000
  {
  }

  /** The sum of two non-negative ints: it is exact, or it wraps below zero. */
  function IntSum(a: nat, b: nat): (r: int)
    requires a <= MAX_INT && b <= MAX_INT
  {
    if a + b <= MAX_INT then a + b else a + b - TWO64
  }

  lemma IntSumWraps(a: nat, b: nat)
    requires a <= MAX_INT && b <= MAX_INT
    ensures IntSum(a, b) == Trunc(I64, a + b)
  {
  }

  function Pow2(n: nat): (r: nat)
    ensures r > 0
  {
    if n == 0 then 1 else 2 * Pow2(n - 1)
  }

  /** `x << shift` at width w. */
  function Shl(w: Width, x: int, shift: nat): int { Trunc(w, x * Pow2(shift)) }

  lemma Period32(x: int, q: int)
    ensures (x + q * 0x1_0000_0000) % 0x1_0000_0000 == x % 0x1_0000_0000
  {
    var a, y := x / 0x1_0000_0000, x + q * 0x1_0000_0000;
    assert y == (a + q) * 0x1_0000_0000 + x % 0x1_0000_0000;
    assert y / 0x1_0000_0000 == a + q;
  }

  lemma Period64(x: int, q: int)
    ensures (x + q * 0x1_0000_0000_0000_0000) % 0x1_0000_0000_0000_0000 == x % 0x1_0000_0000_0000_0000
  {
    var a, y := x / 0x1_0000_0000_0000_0000, x + q * 0x1_0000_0000_0000_0000;
    assert y == (a + q) * 0x1_0000_0000_0000_0000 + x % 0x1_0000_0000_0000_0000;
    assert y / 0x1_0000_0000_0000_0000 == a + q;
  }

  lemma TruncPeriod(w: Width, x: int, q: int)
    ensures Trunc(w, x + q * Modulus(w)) == Trunc(w, x)
  {
    Period32(x, q);
    Period64(x, q);
  }

  lemma TruncDiffers(w: Width, x: int) returns (q: int)
    ensures x == Trunc(w, x) + q * Modulus(w)
  {
    q := x / Modulus(w);
    if Trunc(w, x) < 0 { q := q + 1; }
  }

  /** Reading the result of an addition at width w only needs the operands at width w. */
  lemma TruncAdd(w: Width, x: int, y: int)
    ensures Trunc(w, Trunc(w, x) + Trunc(w, y)) == Trunc(w, x + y)
  {
    var p := TruncDiffers(w, x);
    var q := TruncDiffers(w, y);
    assert p * Modulus(w) + q * Modulus(w) == (p + q) * Modulus(w);
    TruncPeriod(w, Trunc(w, x) + Trunc(w, y), p + q);
  }

  /** The narrow accumulators hold the 64-bit value cut down to their own width. */
  lemma TruncNarrows(w: Width, x: int)
    ensures Trunc(w, Trunc(U64, x)) == Trunc(w, x)
  {
    var q := TruncDiffers(U64, x);
    if Modulus(w) == TWO32 {
      assert q * TWO64 == (q * TWO32) * TWO32;
      TruncPeriod(w, Trunc(U64, x), q * TWO32);
    } else {
      TruncPeriod(w, Trunc(U64, x), q);
    }
  }

  // ---------- bitwise or

  /** Bitwise or of two non-negative numbers, bit by bit. */
  function Or(a: nat, b: nat): nat {
    if a == 0 then b else if b == 0 then a
    else (if a % 2 == 1 || b % 2 == 1 then 1 else 0) + 2 * Or(a / 2, b / 2)
  }

  /** The bits of x at width w. */
  function Bits(w: Width, x: int): nat { Trunc(if Modulus(w) == TWO32 then U32 else U64, x) }

  /** `x | y` at width w. */
  function OrAt(w: Width, x: int, y: int): int { Trunc(w, Or(Bits(w, x), Bits(w, y))) }

  /** Or is addition when all bits of the one operand lie below those of the other. */
  lemma {:induction false} OrIsAdd(a: nat, x: nat, n: nat)
    requires a < Pow2(n)
    ensures Or(a, x * Pow2(n)) == a + x * Pow2(n)
    decreases n
  {
    if a > 0 && x > 0 {
      var p := Pow2(n - 1);
      assert x * Pow2(n) == 2 * (x * p) by { assert x * (2 * p) == 2 * (x * p); }
      assert x * p > 0;
      OrIsAdd(a / 2, x, n - 1);
    }
  }

  lemma {:induction false} Pow2Add(m: nat, n: nat)
    ensures Pow2(m + n) == Pow2(m) * Pow2(n)
  {
    if m > 0 {
      Pow2Add(m - 1, n);
      assert 2 * (Pow2(m - 1) * Pow2(n)) == 2 * Pow2(m - 1) * Pow2(n);
    }
  }

  function WidthBits(w: Width): nat { if Modulus(w) == TWO32 then 32 else 64 }

  lemma ModulusIsPow2(w: Width)
    ensures Modulus(w) == Pow2(WidthBits(w))
  {
    assert Pow2(8) == 256;
    assert Pow2(16) == 0x1_0000 by { Pow2Add(8, 8); }
    assert Pow2(32) == TWO32 by { Pow2Add(16, 16); }
    assert Pow2(64) == TWO64 by { Pow2Add(32, 32); }
  }

  lemma BitsOfTrunc(w: Width, x: int)
    ensures Bits(w, Trunc(w, x)) == Bits(w, x) && Trunc(w, Bits(w, x)) == Trunc(w, x)
  {
    var p := TruncDiffers(w, x);
    TruncPeriod(if Modulus(w) == TWO32 then U32 else U64, Trunc(w, x), p);
    var q := TruncDiffers(if Modulus(w) == TWO32 then U32 else U64, x);
    TruncPeriod(w, Bits(w, x), q);
  }

  lemma BitsAre(w: Width, y: int, bits: nat, q: int)
    requires y == bits + q * Modulus(w) && bits < Modulus(w)
    ensures Bits(w, y) == bits && Trunc(w, y) == Trunc(w, bits)
  {
    TruncPeriod(if Modulus(w) == TWO32 then U32 else U64, bits, q);
    TruncPeriod(w, bits, q);
  }

  /** A value shifted within the width keeps its low bits. */
  lemma ShiftWithin(w: Width, x: nat, shift: nat, s: nat) returns (r: nat, q: nat)
    requires shift <= WidthBits(w) && s == Pow2(shift)
    ensures r * s < Modulus(w) && x * s == r * s + q * Modulus(w)
  {
    var left := Pow2(WidthBits(w) - shift);
    ModulusIsPow2(w);
    Pow2Add(WidthBits(w) - shift, shift);
    r, q := ShiftSplits(x, s, left);
    BelowProduct(r, left, s);
  }

  /** A value shifted beyond the width keeps nothing. */
  lemma ShiftBeyond(w: Width, x: nat, shift: nat) returns (q: nat)
    requires shift > WidthBits(w)
    ensures x * Pow2(shift) == q * Modulus(w)
  {
    ModulusIsPow2(w);
    Pow2Add(shift - WidthBits(w), WidthBits(w));
    q := x * Pow2(shift - WidthBits(w));
    ProductOf3(x, Pow2(shift - WidthBits(w)), Modulus(w));
  }

  lemma ProductOf3(x: int, y: int, z: int)
    ensures x * (y * z) == x * y * z
  {
  }

  lemma ShiftSplits(x: nat, s: nat, left: nat) returns (r: nat, q: nat)
    requires left > 0
    ensures r < left && x * s == r * s + q * (left * s)
  {
    r, q := x % left, x / left;
    assert x == r + q * left;
    SumTimes(r, q * left, s);
    ProductOf3(q, left, s);
  }

  lemma SumTimes(x: int, y: int, z: int)
    ensures (x + y) * z == x * z + y * z
  {
  }

  lemma BelowProduct(r: nat, left: nat, s: nat)
    requires r < left && s > 0
    ensures 0 <= r * s < left * s
  {
  }

  lemma {:induction false} Pow2Grows(m: nat, n: nat)
    requires m <= n
    ensures Pow2(m) <= Pow2(n)
    decreases n - m
  {
    if m < n { Pow2Grows(m + 1, n); }
  }

  /** The decoder merges a 7-bit group with `acc |= group << shift`. Since the number read so far lies
      below the shift, the accumulator afterwards holds their sum at its width. */
  lemma OrShifted(w: Width, low: nat, x: nat, shift: nat, sum: nat)
    requires low < Pow2(shift) && sum == low + x * Pow2(shift)
    ensures OrAt(w, Trunc(w, low), Shl(w, x, shift)) == Trunc(w, sum)
  {
    var high := x * Pow2(shift);
    BitsOfTrunc(w, low);
    BitsOfTrunc(w, high);
    if shift <= WidthBits(w) {
      OrWithin(w, low, x, shift, Pow2(shift), high);
    } else {
      var q := ShiftBeyond(w, x, shift);
      BitsAre(w, high, 0, q);
      TruncPeriod(w, low, q);
    }
  }

  lemma OrWithin(w: Width, low: nat, x: nat, shift: nat, s: nat, high: nat)
    requires shift <= WidthBits(w) && s == Pow2(shift) && low < s && high == x * s
    ensures Trunc(w, Or(Bits(w, low), Bits(w, high))) == Trunc(w, low + high)
  {
    ModulusIsPow2(w);
    Pow2Grows(shift, WidthBits(w));
    BitsAre(w, low, low, 0);
    var r, q := ShiftWithin(w, x, shift, s);
    BitsAre(w, high, r * s, q);
    OrIsAdd(low, r, shift);
    TruncPeriod(w, low + r * s, q);
  }
}
