/** `_to_number`: the coercion of a JSON value to a number. Every value goes
    through Python's `float()`, so an integer comes back as the double nearest
    to it (rounded half to even), and an integer too large for a double makes
    `float()` raise, which falls back to the default. */
module Numbers {

  /** 2^53: every integer up to it in magnitude is a double. (Proofs below
      write 2^52 and 2^53 as the literals 0x10_0000_0000_0000 and
      0x20_0000_0000_0000, so that multiplying by them stays linear.) */
  const Two53 := 0x20_0000_0000_0000

  /** The largest finite double, (2^53 - 1) * 2^971. */
  const MaxFinite := 179769313486231570814527423731704356798070567525844996598917476803157260780028538760589558632766878171540458953514382464234321326889464182768467546703537516986049910576551282076245490090389328944075868508455133942304583236903222948165808559332123348274797826204144723168738177180919299881250404026184124858368

  const Two1024 := 179769313486231590772930519078902473361797697894230657273430081157732675805500963132708477322407536021120113879871393357658789768814416622492847430639474124377767893424865485276302219601246094119453082952085005768838150682342462881473913110540827237163350510684586298239947245938479716304835356329624224137216

  /** A numeric field of a JSON payload, as `_to_number` tells values apart:
      a JSON integer or a text in decimal integer notation; a JSON boolean
      (`float(True)` is 1.0); or anything `float()` refuses or that is not a
      finite number (absent key, null, other text, NaN, infinity). */
  datatype NumberInput = Integer(n: int) | Boolean(b: bool) | NotANumber

  function Abs(n: int): nat {
    if n < 0 then -n else n
  }

  function Dist(a: int, b: int): nat {
    if a >= b then a - b else b - a
  }

  predicate IsPowerOfTwo(u: nat)
    decreases u
  {
    u == 1 || (u >= 2 && u % 2 == 0 && IsPowerOfTwo(u / 2))
  }

  /** The gap between neighbouring doubles around `m`: 1 below 2^53, and
      doubling with each binade above, so that `m` has 53 significant bits
      counted in units of the gap. */
  function Spacing(m: nat): (u: nat)
    ensures IsPowerOfTwo(u)
    ensures m < 0x20_0000_0000_0000 * u
    ensures m < 0x20_0000_0000_0000 ==> u == 1
    ensures m >= 0x20_0000_0000_0000 ==> 0x10_0000_0000_0000 * u <= m
  {
    if m < 0x20_0000_0000_0000 then 1
    else
      var v := Spacing(m / 2);
      assert (2 * v) / 2 == v && (2 * v) % 2 == 0;
      2 * v
  }

  /** The power of two that puts `m` into its binade is the spacing at `m`. */
  lemma {:induction false} SpacingOfBinade(m: nat, u: nat)
    requires IsPowerOfTwo(u) && m < 0x20_0000_0000_0000 * u && (u == 1 || 0x10_0000_0000_0000 * u <= m)
    ensures Spacing(m) == u
    decreases u
  {
    if u != 1 {
      SpacingOfBinade(m / 2, u / 2);
    }
  }

  lemma MulNonnegative(a: int, b: int)
    requires a >= 0 && b >= 0
    ensures a * b >= 0
  {
  }

  lemma MulMonotone(a: int, b: int, u: int)
    requires a <= b && u >= 0
    ensures a * u <= b * u
  {
    MulNonnegative(b - a, u);
    assert (b - a) * u == b * u - a * u;
  }

  lemma MulLess(a: int, b: int, u: int)
    requires u > 0 && a * u < b * u
    ensures a < b
  {
    if b <= a {
      MulMonotone(b, a, u);
    }
  }

  /** Quotient and remainder are the only ones of their kind. */
  lemma DivModUnique(x: int, u: int, q: int, r: int)
    requires u > 0 && 0 <= r < u && x == q * u + r
    ensures x / u == q && x % u == r
  {
    var q', r' := x / u, x % u;
    assert (q - q') * u == r' - r;
    if q - q' >= 1 {
      MulMonotone(1, q - q', u);
    } else if q' - q >= 1 {
      assert (q' - q) * u == r - r';
      MulMonotone(1, q' - q, u);
    }
  }

  lemma MultipleMod(k: int, u: int)
    requires u > 0
    ensures (k * u) % u == 0 && (k * u) / u == k
  {
    DivModUnique(k * u, u, k, 0);
  }

  /** The natural numbers a double holds exactly (exponent unbounded). */
  predicate IsDouble(m: nat) {
    m % Spacing(m) == 0
  }

  /** How many spacings `u` the rounded value of `m` is: the quotient, or
      one more when the remainder is over half of `u`, or exactly half with
      an odd quotient. */
  function RoundCount(m: nat, u: nat): nat
    requires u >= 1
  {
    var q, rem := m / u, m % u;
    if 2 * rem < u || (2 * rem == u && q % 2 == 0) then q else q + 1
  }

  lemma RoundAt(m: nat, u: nat)
    requires u >= 1
    ensures (RoundCount(m, u) * u) % u == 0 && (RoundCount(m, u) * u) / u == RoundCount(m, u)
    ensures 2 * Dist(RoundCount(m, u) * u, m) <= u
    ensures 2 * Dist(RoundCount(m, u) * u, m) == u ==> RoundCount(m, u) % 2 == 0
  {
    var q, rem, k := m / u, m % u, RoundCount(m, u);
    MultipleMod(k, u);
    assert m == q * u + rem;
    if k == q + 1 {
      assert k * u == q * u + u;
    }
  }

  /** Rounding half to even at the spacing of `m`: a double, no further
      from `m` than half the spacing, and on a tie the one with an even
      count of spacings. These three facts single out the double nearest
      `m`, which is what `float()` returns for an integer. */
  function NearestDouble(m: nat): (r: nat)
    ensures r % Spacing(m) == 0
    ensures 2 * Dist(r, m) <= Spacing(m)
    ensures 2 * Dist(r, m) == Spacing(m) ==> (r / Spacing(m)) % 2 == 0
  {
    RoundAt(m, Spacing(m));
    RoundCount(m, Spacing(m)) * Spacing(m)
  }

  /** A multiple of `u` within half of `u` from a number of the binade of
      `u` is between 2^52 and 2^53 times `u`. */
  lemma RoundedCount(m: int, u: int, r: int) returns (k: int)
    requires u > 0 && 0x10_0000_0000_0000 * u <= m < 0x20_0000_0000_0000 * u
    requires r % u == 0 && 2 * Dist(r, m) <= u
    ensures r == k * u && 0x10_0000_0000_0000 <= k <= 0x20_0000_0000_0000
  {
    k := r / u;
    MulLess(0x10_0000_0000_0000 - 1, k, u);
    MulLess(k, 0x20_0000_0000_0000 + 1, u);
  }

  /** A multiple of a power of two `u` between 2^52 and 2^53 times `u` is
      a double. */
  lemma MultipleInBinade(r: nat, u: nat, k: int)
    requires IsPowerOfTwo(u) && r == k * u && 0x10_0000_0000_0000 <= k < 0x20_0000_0000_0000
    ensures IsDouble(r)
  {
    MulMonotone(0x10_0000_0000_0000, k, u);
    MulMonotone(k, 0x20_0000_0000_0000 - 1, u);
    SpacingOfBinade(r, u);
    MultipleMod(k, u);
  }

  /** 2^53 times a power of two is a double. */
  lemma PowerIsDouble(r: nat, u: nat)
    requires IsPowerOfTwo(u) && r == 0x20_0000_0000_0000 * u
    ensures IsDouble(r)
  {
    var v := 2 * u;
    assert IsPowerOfTwo(v);
    assert r == 0x10_0000_0000_0000 * v && r < 0x20_0000_0000_0000 * v;
    SpacingOfBinade(r, v);
    MultipleMod(0x10_0000_0000_0000, v);
  }

  /** Rounding gives a double. */
  lemma NearestIsDouble(m: nat)
    ensures IsDouble(NearestDouble(m))
  {
    var u, r := Spacing(m), NearestDouble(m);
    if m >= 0x20_0000_0000_0000 {
      var k := RoundedCount(m, u, r);
      if k < 0x20_0000_0000_0000 {
        MultipleInBinade(r, u, k);
      } else {
        PowerIsDouble(r, u);
      }
    }
  }

  /** A double rounds to itself. */
  lemma DoubleIsExact(m: nat)
    requires IsDouble(m)
    ensures NearestDouble(m) == m
  {
  }

  /** Every integer up to 2^53 in magnitude is a double. */
  lemma SmallIsDouble(m: nat)
    requires m <= 0x20_0000_0000_0000
    ensures IsDouble(m)
  {
    if m == 0x20_0000_0000_0000 {
      assert Spacing(m) == 2 * Spacing(0x10_0000_0000_0000);
    }
  }

  /** `float()` raises `OverflowError` when the rounded value is beyond the
      largest finite double. */
  predicate Overflows(m: nat) {
    NearestDouble(m) > MaxFinite
  }

  /** `_to_number(value, default)` on the values it can turn into an
      integer: a boolean is 1 or 0; an integer is kept exactly up to 2^53 in
      magnitude, falls back to the default when `float()` overflows, and
      otherwise becomes the double nearest to it, with its sign; anything
      else gives the default. */
  function ToNumber(v: NumberInput, default: int): (r: int)
    ensures v.Boolean? ==> r == (if v.b then 1 else 0)
    ensures v.NotANumber? ==> r == default
    ensures v.Integer? && Abs(v.n) <= 0x20_0000_0000_0000 ==> r == v.n
    ensures v.Integer? && Overflows(Abs(v.n)) ==> r == default
    ensures v.Integer? && !Overflows(Abs(v.n)) ==>
      Abs(r) == NearestDouble(Abs(v.n)) && (r < 0 <==> v.n < 0)
  {
    match v
    case Boolean(b) => if b then 1 else 0
    case NotANumber => default
    case Integer(n) =>
      var m := Abs(n);
      if m <= 0x20_0000_0000_0000 then
        SmallIsDouble(m);
        DoubleIsExact(m);
        n
      else if Overflows(m) then default
      else if n < 0 then -(NearestDouble(m) as int)
      else NearestDouble(m)
  }

  /** Coercing a coerced value again changes nothing, for the defaults the
      source uses (0 and 1, both exact): a stored number reads back as
      itself. */
  lemma ToNumberIdempotent(v: NumberInput, default: int, other: int)
    requires Abs(default) <= 0x20_0000_0000_0000
    ensures ToNumber(Integer(ToNumber(v, default)), other) == ToNumber(v, default)
  {
    var r := ToNumber(v, default);
    if v.Integer? && !Overflows(Abs(v.n)) && Abs(v.n) > 0x20_0000_0000_0000 {
      NearestIsDouble(Abs(v.n));
      DoubleIsExact(Abs(r));
    }
  }

  /** Integers beyond 2^1024 in magnitude are beyond every double: the
      coercion falls back to the default. */
  lemma HugeIntegerFallsBack(n: int, default: int)
    requires Abs(n) > Two1024
    ensures ToNumber(Integer(n), default) == default
  {
    var m := Abs(n);
    BeyondEveryDouble(m, Spacing(m), NearestDouble(m));
  }

  /** A multiple of `u` within half of `u` from `m > 2^1024`, where `u` is
      at most 2^-52 times `m`, exceeds the largest finite double. */
  lemma BeyondEveryDouble(m: int, u: int, r: int)
    requires u > 0 && 0x10_0000_0000_0000 * u <= m && m > Two1024
    requires 2 * Dist(r, m) <= u
    ensures r > MaxFinite
  {
    assert 0x20_0000_0000_0000 * Dist(r, m) <= m;
  }

  /** The first integer a double cannot hold: 2^53 + 1 is a tie between
      2^53 and 2^53 + 2 and rounds to the even count, 2^53. */
  lemma RoundsToEven()
    ensures ToNumber(Integer(0x20_0000_0000_0000 + 1), 0) == 0x20_0000_0000_0000
  {
    assert Spacing(0x20_0000_0000_0000 + 1) == 2 * Spacing(0x10_0000_0000_0000) == 2;
  }
}
