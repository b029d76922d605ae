/** Fixed-point prices and quantities (i64 mantissas at scale 10 000) and
    cycle-count timestamps (u64), with the machine integer widths they rest on.

    Overflow policy of the model: a plain Rust `+`, `-` or `*` on a fixed-width
    integer panics on overflow in a checked build, so the functions below
    require that the exact result fits; explicit wrapping operations are
    written out modulo 2^64. */
module Types {
  import opened Wrappers

  const I64_MIN: int := -0x8000_0000_0000_0000
  const I64_MAX: int := 0x7FFF_FFFF_FFFF_FFFF
  const U64_MAX: int := 0xFFFF_FFFF_FFFF_FFFF
  const U32_MAX: int := 0xFFFF_FFFF
  /** 2^64, the modulus of wrapping u64/usize arithmetic. */
  const U64_MODULUS: int := 0x1_0000_0000_0000_0000

  type i64 = x: int | I64_MIN <= x <= I64_MAX
  type u64 = x: int | 0 <= x <= U64_MAX
  type u32 = x: int | 0 <= x <= U32_MAX
  type u8 = x: int | 0 <= x < 256

  predicate InI64(x: int) { I64_MIN <= x <= I64_MAX }

  function Abs(x: int): nat { if x < 0 then -x else x }

  /** Rust's integer `/` for a positive divisor: the quotient is truncated
      toward zero, so the remainder takes the sign of the dividend. */
  function TruncDiv(a: int, d: int): (q: int)
    requires d > 0
    ensures a >= 0 ==> 0 <= a - q * d < d
    ensures a < 0 ==> -d < a - q * d <= 0
  {
    if a >= 0 then a / d else -((-a) / d)
  }

  /** Rust's integer `%` for a positive divisor (sign of the dividend). */
  function TruncRem(a: int, d: int): (r: int)
    requires d > 0
    ensures r == a - TruncDiv(a, d) * d
    ensures -d < r < d
    ensures a >= 0 ==> r >= 0
    ensures a <= 0 ==> r <= 0
  {
    if a >= 0 then a % d else -((-a) % d)
  }

  /** `wrapping_add` on u64/usize. */
  function WrappingAdd(a: u64, b: u64): (r: u64)
    ensures r == a + b || r == a + b - U64_MODULUS
  {
    (a + b) % U64_MODULUS
  }

  /** `wrapping_sub` on u64/usize. */
  function WrappingSub(a: u64, b: u64): (r: u64)
    ensures r == a - b || r == a - b + U64_MODULUS
  {
    (a - b) % U64_MODULUS
  }

  lemma MulBound(a: int, d: int)
    requires d > 0
    ensures a >= 1 ==> a * d >= d
    ensures a <= -1 ==> a * d <= -d
  {
  }

  /** Division with remainder has exactly one answer. */
  lemma ModUnique(x: int, q: int, r: int, d: int)
    requires d > 0 && x == q * d + r && 0 <= r < d
    ensures x % d == r && x / d == q
  {
    var q0, r0 := x / d, x % d;
    assert (q - q0) * d == r0 - r;
    MulBound(q - q0, d);
  }

  /** Adding a multiple of `d` does not move a value's residue. */
  lemma ModShift(x: int, m: int, d: int)
    requires d > 0
    ensures (x + m * d) % d == x % d
  {
    assert x + m * d == (x / d + m) * d + x % d;
    ModUnique(x + m * d, x / d + m, x % d, d);
  }

  /** Reducing a counter modulo 2^64 before adding gives the same residue. */
  lemma AddMod(a: int, c: int)
    ensures (a % U64_MODULUS + c) % U64_MODULUS == (a + c) % U64_MODULUS
  {
    ModShift(a % U64_MODULUS + c, a / U64_MODULUS, U64_MODULUS);
  }

  /** Number of mantissa units per whole unit. */
  const SCALE: int := 10_000

  /** A price: `from_raw` is the constructor and `raw()` the field. */
  datatype Price = Price(raw: i64)
  {
    /** `Price::new(integer, fractional)`; the multiplication is i64 too. */
    static function New(integer: i64, fractional: i64): (p: Price)
      requires InI64(integer * SCALE) && InI64(integer * SCALE + fractional)
      ensures p.raw == integer * SCALE + fractional
    {
      Price(integer * SCALE + fractional)
    }

    function Add(rhs: Price): (r: Price)
      requires InI64(raw + rhs.raw)
      ensures r.raw - rhs.raw == raw
    {
      Price(raw + rhs.raw)
    }

    function Sub(rhs: Price): (r: Price)
      requires InI64(raw - rhs.raw)
      ensures r.raw + rhs.raw == raw
    {
      Price(raw - rhs.raw)
    }

    /** The `Display` impl. */
    /** `Display`: "I.FFFF", which reads back as the price's value except on
        (-1.0, 0), where the minus sign is lost (see `DisplayDropsSign`). */
    function Display(): (s: string)
      ensures ParseFixed(s) == Some(if -SCALE < raw < 0 then -(raw as int) else raw as int)
    {
      FormatFixed(raw)
    }
  }

  /** A quantity, the same representation as a price plus a scaled product. */
  datatype Quantity = Quantity(raw: i64)
  {
    static function New(integer: i64, fractional: i64): (q: Quantity)
      requires InI64(integer * SCALE) && InI64(integer * SCALE + fractional)
      ensures q.raw == integer * SCALE + fractional
    {
      Quantity(integer * SCALE + fractional)
    }

    function Add(rhs: Quantity): (r: Quantity)
      requires InI64(raw + rhs.raw)
      ensures r.raw - rhs.raw == raw
    {
      Quantity(raw + rhs.raw)
    }

    function Sub(rhs: Quantity): (r: Quantity)
      requires InI64(raw - rhs.raw)
      ensures r.raw + rhs.raw == raw
    {
      Quantity(raw - rhs.raw)
    }

    /** `a * b` is the raw product, an i64 multiplication, divided by the
        scale with truncation toward zero. */
    function Mul(rhs: Quantity): (r: Quantity)
      requires InI64(raw * rhs.raw)
      ensures raw * rhs.raw >= 0 ==> 0 <= raw * rhs.raw - r.raw * SCALE < SCALE
      ensures raw * rhs.raw < 0 ==> -SCALE < raw * rhs.raw - r.raw * SCALE <= 0
    {
      var product := raw * rhs.raw;
      Quantity(TruncDiv(product, SCALE))
    }

    /** `Display`: "I.FFFF", which reads back as the quantity's value except on
        (-1.0, 0), where the minus sign is lost (see `DisplayDropsSign`). */
    function Display(): (s: string)
      ensures ParseFixed(s) == Some(if -SCALE < raw < 0 then -(raw as int) else raw as int)
    {
      FormatFixed(raw)
    }
  }

  /** A cycle-counter sample: `from_cycles` is the constructor, `cycles()` the field. */
  datatype Timestamp = Timestamp(cycles: u64)
  {
    /** `elapsed_since`, and equally `self - earlier` (the `Sub` impl): a u64
        subtraction, so the earlier sample must not be later. */
    function ElapsedSince(earlier: Timestamp): (d: u64)
      requires earlier.cycles <= cycles
      ensures earlier.cycles + d == cycles
    {
      cycles - earlier.cycles
    }
  }

  // ---------------------------------------------------------------------
  // Decimal formatting: "{raw / SCALE}.{|raw % SCALE|:04}" with truncating
  // `/` and `%`.

  predicate IsDigit(c: char) { '0' <= c <= '9' }

  predicate AllDigits(s: string) { forall i :: 0 <= i < |s| ==> IsDigit(s[i]) }

  function Digit(d: int): (c: char)
    requires 0 <= d < 10
    ensures IsDigit(c) && DigitValue(c) == d
  {
    (d + '0' as int) as char
  }

  function DigitValue(c: char): nat
    requires IsDigit(c)
  {
    c as int - '0' as int
  }

  /** Decimal digits of `n`, most significant first, no leading zeros. */
  function NatToString(n: nat): (s: string)
    ensures |s| >= 1 && AllDigits(s)
    decreases n
  {
    if n < 10 then [Digit(n)] else NatToString(n / 10) + [Digit(n % 10)]
  }

  /** Rust's `{}` on a signed integer. */
  function IntToString(i: int): string
  {
    if i < 0 then "-" + NatToString(-i) else NatToString(i)
  }

  /** Rust's `{:04}` on a value in 0..9999. */
  function Pad4(n: nat): (s: string)
    requires n < 10_000
    ensures |s| == 4 && AllDigits(s)
  {
    [Digit(n / 1000), Digit(n / 100 % 10), Digit(n / 10 % 10), Digit(n % 10)]
  }

  /** The `Display` of `Price` and `Quantity`. For -SCALE < raw < 0 the integer
      part truncates to 0 and `{}` prints no minus sign. */
  function FormatFixed(raw: i64): (s: string)
    ensures ParseFixed(s) == Some(if -SCALE < raw < 0 then -(raw as int) else raw as int)
  {
    var q, r := TruncDiv(raw, SCALE), Abs(TruncRem(raw, SCALE));
    assert IntToString(q) == (if q < 0 then "-" else "") + NatToString(Abs(q));
    ParseFixedParts(q < 0, Abs(q), r);
    IntToString(q) + "." + Pad4(r)
  }

  /** The evidently intended display: the sign printed whenever raw < 0. */
  function FormatFixedSigned(raw: i64): string
  {
    (if raw < 0 then "-" else "") + NatToString(Abs(raw) / SCALE) + "." + Pad4(Abs(raw) % SCALE)
  }

  // ---------------------------------------------------------------------
  // Reading a display string back: the decimal number it denotes.

  function ParseNat(s: string): nat
    requires AllDigits(s)
  {
    if s == [] then 0 else ParseNat(s[..|s| - 1]) * 10 + DigitValue(s[|s| - 1])
  }

  /** The value, in mantissa units, of a string "[-]D+.FFFF". */
  function ParseFixed(s: string): Option<int>
  {
    if |s| < 6 || s[|s| - 5] != '.' then None
    else ParseParts(s[..|s| - 5], s[|s| - 4..])
  }

  /** The value of a whole part "[-]D+" and a fraction "FFFF". */
  function ParseParts(whole: string, frac: string): Option<int>
    requires |whole| >= 1
  {
    var negative := whole[0] == '-';
    var digits := if negative then whole[1..] else whole;
    if digits == [] || !AllDigits(digits) || !AllDigits(frac) then None
    else
      var magnitude := ParseNat(digits) * SCALE + ParseNat(frac);
      Some(if negative then -magnitude else magnitude)
  }

  lemma {:induction false} ParseNatToString(n: nat)
    ensures ParseNat(NatToString(n)) == n
    decreases n
  {
    var s := NatToString(n);
    if n >= 10 {
      assert s[..|s| - 1] == NatToString(n / 10);
      ParseNatToString(n / 10);
    }
  }

  lemma ParsePad4(n: nat)
    requires n < 10_000
    ensures ParseNat(Pad4(n)) == n
  {
    var s := Pad4(n);
    assert s[..1][..0] == [];
    assert ParseNat(s[..1]) == n / 1000;
    assert s[..2][..1] == s[..1];
    assert ParseNat(s[..2]) == n / 100;
    assert s[..3][..2] == s[..2];
    assert ParseNat(s[..3]) == n / 10;
    assert s[..3] == s[..|s| - 1];
  }

  /** A display string splits at its point into the whole part and the
      four fraction digits. */
  lemma SplitAtPoint(prefix: string, frac: nat)
    requires |prefix| >= 1 && frac < SCALE
    ensures ParseFixed(prefix + "." + Pad4(frac)) == ParseParts(prefix, Pad4(frac))
  {
    var s := prefix + "." + Pad4(frac);
    assert |s| == |prefix| + 5;
    assert s[..|s| - 5] == prefix;
    assert s[|s| - 4..] == Pad4(frac);
    assert s[|s| - 5] == '.';
  }

  /** Splitting "W.FFFF" back into its whole part and its four digits. */
  lemma ParseFixedParts(negative: bool, whole: nat, frac: nat)
    requires frac < SCALE
    ensures ParseFixed((if negative then "-" else "") + NatToString(whole) + "." + Pad4(frac))
            == Some(if negative then -(whole * SCALE + frac) else whole * SCALE + frac)
  {
    var w, f := NatToString(whole), Pad4(frac);
    var prefix := (if negative then "-" else "") + w;
    SplitAtPoint(prefix, frac);
    ParseNatToString(whole);
    ParsePad4(frac);
    assert ParseNat(w) * SCALE + ParseNat(f) == whole * SCALE + frac;
    assert IsDigit(w[0]);
    if negative {
      assert prefix[0] == '-' && prefix[1..] == w;
      assert ParseParts(prefix, f) == Some(-(ParseNat(w) * SCALE + ParseNat(f)));
    } else {
      assert prefix == w && prefix[0] != '-';
      assert ParseParts(prefix, f) == Some(ParseNat(w) * SCALE + ParseNat(f));
    }
  }

  /** Outside (-SCALE, 0) the display prints the sign exactly when raw < 0. */
  lemma FormatAgreesWithSigned(raw: i64)
    requires !(-SCALE < raw < 0)
    ensures FormatFixed(raw) == FormatFixedSigned(raw)
  {
    if raw >= 0 {
      assert TruncDiv(raw, SCALE) == raw / SCALE;
      assert Abs(TruncRem(raw, SCALE)) == raw % SCALE;
    } else {
      var m: int := 0 - raw as int;
      assert TruncDiv(raw, SCALE) == -(m / SCALE);
      assert m / SCALE >= 1;
      assert IntToString(TruncDiv(raw, SCALE)) == "-" + NatToString(m / SCALE);
      assert Abs(TruncRem(raw, SCALE)) == m % SCALE;
    }
  }

  /** The corrected display reads back as its value for every raw. */
  lemma SignedDisplayRoundTrip(raw: i64)
    ensures ParseFixed(FormatFixedSigned(raw)) == Some(raw)
  {
    var m := Abs(raw);
    ParseFixedParts(raw < 0, m / SCALE, m % SCALE);
    assert (m / SCALE) * SCALE + m % SCALE == m;
  }

  /** Display then parse gives the value back, except on (-SCALE, 0). */
  lemma DisplayRoundTrip(raw: i64)
    requires !(-SCALE < raw < 0)
    ensures ParseFixed(FormatFixed(raw)) == Some(raw)
  {
    FormatAgreesWithSigned(raw);
    SignedDisplayRoundTrip(raw);
  }

  /** On (-SCALE, 0) the display loses the sign: it equals the display of the
      opposite value and reads back as that value. */
  lemma DisplayDropsSign(raw: i64)
    requires -SCALE < raw < 0
    ensures FormatFixed(raw) == FormatFixed(-raw)
    ensures ParseFixed(FormatFixed(raw)) == Some(-raw)
  {
    DisplayRoundTrip(-raw);
  }

  /** `Price::new(i, f)` with a whole part and a fraction of the same sign
      displays as "i.ffff" (e.g. new(100, 1234) as "100.1234" and
      new(-50, -500) as "-50.0500"). */
  lemma NewDisplays(integer: i64, fractional: i64)
    requires (integer >= 0 && 0 <= fractional < SCALE) || (integer < 0 && -SCALE < fractional <= 0)
    requires InI64(integer * SCALE + fractional)
    ensures InI64(integer * SCALE)
    ensures Price.New(integer, fractional).Display()
            == IntToString(integer) + "." + Pad4(Abs(fractional))
  {
    var raw := integer * SCALE + fractional;
    if integer >= 0 {
      assert raw / SCALE == integer && raw % SCALE == fractional;
    } else {
      assert (-raw) / SCALE == -integer && (-raw) % SCALE == -fractional;
    }
    assert TruncDiv(raw, SCALE) == integer;
    assert Abs(TruncRem(raw, SCALE)) == Abs(fractional);
    assert Price.New(integer, fractional).raw == raw;
  }

  /** (p + q) - q == p: both operators act on the raw mantissas. */
  lemma AddSubCancel(p: Price, q: Price)
    requires InI64(p.raw + q.raw)
    ensures p.Add(q).Sub(q) == p
  {
  }

  /** Multiplying by 1.0000 is the identity, and 2.0 x 3.0 == 6.0. */
  lemma MulExamples(q: Quantity)
    requires InI64(q.raw * SCALE)
    ensures q.Mul(Quantity.New(1, 0)) == q
    ensures Quantity.New(2, 0).Mul(Quantity.New(3, 0)) == Quantity.New(6, 0)
  {
  }
}
