/** The htonf/ntohf pair of QuickAndDirtyPortableFloatingPoint.c, over binary32 (section 3.4 of IEEE 754-2008). */
module PortableFloat {
  import opened Arithmetic

  // ---------------------------------------------------------------------------------------------
  // Powers of two
  // ---------------------------------------------------------------------------------------------

  function Pow2(k: nat): (p: nat)
    ensures p > 0
  {
    if k == 0 then 1 else 2 * Pow2(k - 1)
  }

  lemma {:induction false} Pow2Add(j: nat, k: nat)
    ensures Pow2(j + k) == Pow2(j) * Pow2(k)
  {
    if j == 0 {
    } else {
      Pow2Add(j - 1, k);
      assert Pow2(j + k) == 2 * Pow2(j - 1 + k);
      assert 2 * (Pow2(j - 1) * Pow2(k)) == 2 * Pow2(j - 1) * Pow2(k);
    }
  }

  lemma Pow2Of16()
    ensures Pow2(16) == 0x1_0000
  {
    assert Pow2(4) == 0x10;
    Pow2Add(4, 4);
    Pow2Add(8, 8);
  }

  lemma {:induction false} Pow2Monotone(j: nat, k: nat)
    requires j <= k
    ensures Pow2(j) <= Pow2(k)
  {
    if j < k {
      Pow2Monotone(j, k - 1);
    }
  }

  // ---------------------------------------------------------------------------------------------
  // Magnitudes: natural multiples of 2^-149
  // ---------------------------------------------------------------------------------------------

  /** One more than the largest 24-bit significand. */
  const SIGNIFICANDS := 0x100_0000

  function Scaled(m: nat, k: nat): nat {
    m * Pow2(k)
  }

  /** The magnitude is a significand of at most 24 bits times a power of two. */
  ghost predicate Representable(x: nat) {
    exists m: nat, k: nat :: m < SIGNIFICANDS && Scaled(m, k) == x
  }

  lemma IsRepresentable(x: nat, m: nat, k: nat)
    requires m < SIGNIFICANDS && x == m * Pow2(k)
    ensures Representable(x)
  {
    assert Scaled(m, k) == x;
  }

  lemma CutScaled(m: nat, d: nat, p: nat)
    requires d > 0 && p > 0
    ensures Div(m * p, d * p) == Div(m, d) && Mod(m * p, d * p) == Mod(m, d) * p
  {
  }

  lemma QuotientSmaller(m: nat, d: nat)
    requires d > 0
    ensures Div(m, d) <= m && Mod(m, d) <= m
  {
    MulMonotone(1, d, Div(m, d));
  }

  lemma ScaledIsRepresentable(m: nat, k: nat)
    requires m < SIGNIFICANDS
    ensures Representable(Scaled(m, k))
  {
  }

  lemma CutAbove(m: nat, k: nat, j: nat)
    requires j <= k
    ensures Div(Scaled(m, k), Pow2(j)) == Scaled(m, k - j) && Mod(Scaled(m, k), Pow2(j)) == Scaled(0, 0)
  {
    Pow2Add(k - j, j);
    MulAssociative(m, Pow2(k - j), Pow2(j));
    DivModIs(Scaled(m, k), Pow2(j), Scaled(m, k - j), 0);
  }

  lemma CutInside(m: nat, k: nat, j: nat) returns (q: nat, r: nat)
    requires k < j
    ensures q <= m && r <= m
    ensures Div(Scaled(m, k), Pow2(j)) == Scaled(q, 0) && Mod(Scaled(m, k), Pow2(j)) == Scaled(r, k)
  {
    var d := Pow2(j - k);
    Pow2Add(j - k, k);
    CutScaled(m, d, Pow2(k));
    QuotientSmaller(m, d);
    q, r := Div(m, d), Mod(m, d);
  }

  /** Cutting a magnitude at any binary place leaves two representable parts. */
  lemma PartsOf(x: nat, j: nat)
    requires Representable(x)
    ensures Representable(Div(x, Pow2(j))) && Representable(Mod(x, Pow2(j)))
  {
    var m: nat, k: nat :| m < SIGNIFICANDS && Scaled(m, k) == x;
    if j <= k {
      CutAbove(m, k, j);
      ScaledIsRepresentable(m, k - j);
      ScaledIsRepresentable(0, 0);
    } else {
      var q, r := CutInside(m, k, j);
      ScaledIsRepresentable(q, 0);
      ScaledIsRepresentable(r, k);
    }
  }

  lemma TimesPow2(x: nat, j: nat)
    requires Representable(x)
    ensures Representable(Scaled(x, j))
  {
    var m: nat, k: nat :| m < SIGNIFICANDS && Scaled(m, k) == x;
    Pow2Add(k, j);
    MulAssociative(m, Pow2(k), Pow2(j));
    IsRepresentable(x * Pow2(j), m, k + j);
  }

  lemma DivScaled(n: nat, k: nat)
    ensures Div(Scaled(n, k), Pow2(k)) == n && Mod(Scaled(n, k), Pow2(k)) == 0
  {
    DivModIs(n * Pow2(k), Pow2(k), n, 0);
  }

  lemma ScaledCompare(a: nat, b: nat, k: nat)
    ensures a < b <==> Scaled(a, k) < Scaled(b, k)
    ensures a == b <==> Scaled(a, k) == Scaled(b, k)
  {
  }

  lemma ScaledAdd(a: nat, b: nat, k: nat)
    ensures Scaled(a + b, k) == Scaled(a, k) + Scaled(b, k)
  {
  }

  lemma ScaledTwice(n: nat, j: nat, k: nat)
    ensures Scaled(n, j + k) == Scaled(n * Pow2(j), k)
  {
    Pow2Add(j, k);
    MulAssociative(n, Pow2(j), Pow2(k));
  }

  lemma SmallIsRepresentable(n: nat)
    requires n < SIGNIFICANDS
    ensures Representable(n)
  {
    IsRepresentable(n, n, 0);
  }

  // ---------------------------------------------------------------------------------------------
  // Rounding to nearest, ties to even (section 4.3.1 of IEEE 754-2008)
  // ---------------------------------------------------------------------------------------------

  /** How many low bits a 24-bit significand cannot hold. */
  function Excess(x: nat): nat {
    if x < SIGNIFICANDS then 0 else 1 + Excess(x / 2)
  }

  /** The multiple of u nearest to q * u + r; of two equally near, the one with the even quotient. */
  function Nearest(u: nat, q: nat, r: nat): nat {
    if 2 * r < u || (2 * r == u && q % 2 == 0) then q * u else (q + 1) * u
  }

  /** All results in these two programs stay below 2^33, far from the largest finite float. */
  function Round(x: nat): nat {
    var u := Pow2(Excess(x));
    Nearest(u, Div(x, u), Mod(x, u))
  }

  lemma {:induction false} ExcessBounds(x: nat)
    ensures x < SIGNIFICANDS * Pow2(Excess(x))
    ensures Excess(x) > 0 ==> 0x80_0000 * Pow2(Excess(x)) <= x
  {
    if x >= SIGNIFICANDS {
      ExcessBounds(x / 2);
    }
  }

  lemma ExcessIs(x: nat, e: nat)
    requires x < SIGNIFICANDS * Pow2(e)
    requires e > 0 ==> 0x80_0000 * Pow2(e) <= x
    ensures Excess(x) == e
  {
  }

  /** A representable number is a multiple of its own rounding unit, or lies below the unit's range. */
  lemma MultipleOfUnit(m: nat, k: nat, e: nat)
    requires m < SIGNIFICANDS
    ensures if e <= k then m * Pow2(k) == m * Pow2(k - e) * Pow2(e) else m * Pow2(k) < 0x80_0000 * Pow2(e)
  {
    if e <= k {
      Pow2Add(k - e, e);
      MulAssociative(m, Pow2(k - e), Pow2(e));
    } else {
      Pow2Monotone(k, e - 1);
      MulMonotone(m, SIGNIFICANDS - 1, Pow2(k));
    }
  }

  lemma RoundIdentity(x: nat)
    requires Representable(x)
    ensures Round(x) == x
  {
    var m: nat, k: nat :| m < SIGNIFICANDS && Scaled(m, k) == x;
    var e := Excess(x);
    ExcessBounds(x);
    MultipleOfUnit(m, k, e);
    if e <= k {
      DivModIs(x, Pow2(e), m * Pow2(k - e), 0);
    }
  }

  lemma Quotient(x: nat) returns (u: nat, q: nat, r: nat)
    ensures u == Pow2(Excess(x)) && q == Div(x, u) && r == Mod(x, u)
    ensures x == q * u + r && r < u && q < SIGNIFICANDS
    ensures Excess(x) > 0 ==> 0x80_0000 <= q
  {
    ExcessBounds(x);
    u := Pow2(Excess(x));
    q, r := Div(x, u), Mod(x, u);
    if q >= SIGNIFICANDS {
      MulMonotone(SIGNIFICANDS, q, u);
    }
    if q < 0x80_0000 {
      MulMonotone(q + 1, 0x80_0000, u);
      MulDistributes(q, 1, u);
    }
  }

  lemma RoundRepresentable(x: nat)
    ensures Representable(Round(x))
  {
    var u, q, r := Quotient(x);
    var e := Excess(x);
    if Round(x) == q * u {
      IsRepresentable(Round(x), q, e);
    } else if q + 1 < SIGNIFICANDS {
      IsRepresentable(Round(x), q + 1, e);
    } else {
      IsRepresentable(Round(x), 0x80_0000, e + 1);
    }
  }

  function Distance(x: nat, y: nat): nat {
    if x < y then y - x else x - y
  }

  /** No representable magnitude is closer. */
  lemma RoundNearest(x: nat, y: nat)
    requires Representable(y)
    ensures Distance(Round(x), x) <= Distance(y, x)
  {
    var u, q, r := Quotient(x);
    var e := Excess(x);
    MulDistributes(q, 1, u);
    var m: nat, k: nat :| m < SIGNIFICANDS && Scaled(m, k) == y;
    MultipleOfUnit(m, k, e);
    if e <= k {
      var n := m * Pow2(k - e);
      if n <= q {
        MulMonotone(n, q, u);
      } else {
        MulMonotone(q + 1, n, u);
      }
    } else {
      MulMonotone(0x80_0000, q, u);
    }
  }

  /** Halfway between two neighbours the even significand wins. */
  lemma TiesToEven(m: nat, k: nat)
    requires 0x80_0000 <= m < 0x100_0000
    ensures Round(Scaled(2 * m + 1, k)) == Scaled(if m % 2 == 0 then m else m + 1, k + 1)
  {
    var p := Pow2(k);
    var u := Pow2(k + 1);
    var x := Scaled(2 * m + 1, k);
    assert x == m * u + p;
    MulMonotone(0x80_0000, m, u);
    MulMonotone(m + 1, SIGNIFICANDS, u);
    MulDistributes(m, 1, u);
    ExcessIs(x, k + 1);
    DivModIs(x, u, m, p);
  }

  lemma NearestScales(u: nat, q: nat, r: nat, p: nat)
    requires p > 0
    ensures Nearest(u * p, q, r * p) == Nearest(u, q, r) * p
  {
    MulAssociative(q, u, p);
    MulAssociative(q + 1, u, p);
    MulAssociative(2, r, p);
    CompareScaled(2 * r, u, p);
  }

  lemma ExcessScales(x: nat, j: nat)
    requires Excess(x) > 0
    ensures Excess(x * Pow2(j)) == Excess(x) + j
  {
    var e, p := Excess(x), Pow2(j);
    ExcessBounds(x);
    Pow2Add(e, j);
    MulAssociative(SIGNIFICANDS, Pow2(e), p);
    MulAssociative(0x80_0000, Pow2(e), p);
    CompareScaled(x, SIGNIFICANDS * Pow2(e), p);
    MulMonotone(0x80_0000 * Pow2(e), x, p);
    ExcessIs(x * p, e + j);
  }

  lemma RoundScales(x: nat, j: nat)
    ensures Round(Scaled(x, j)) == Scaled(Round(x), j)
  {
    var u, q, r := Quotient(x);
    if Excess(x) == 0 {
      RoundIdentityBelow(x);
      SmallIsRepresentable(x);
      TimesPow2(x, j);
      RoundIdentity(Scaled(x, j));
    } else {
      ExcessScales(x, j);
      Pow2Add(Excess(x), j);
      CutScaled(x, u, Pow2(j));
      NearestScales(u, q, r, Pow2(j));
    }
  }

  lemma RoundIdentityBelow(x: nat)
    requires x < SIGNIFICANDS
    ensures Round(x) == x
  {
  }

  // ---------------------------------------------------------------------------------------------
  // Floats and their operations
  // ---------------------------------------------------------------------------------------------

  /**
   * The number of fractional bits of the smallest unit: 149 for binary32. Nothing below depends on
   * more than the 16 bits of the encoding being among them.
   */
  type Grid = bits: nat | 16 <= bits witness 149

  /** (-1)^neg * mag * 2^-g on the grid g. */
  datatype Float = Float(neg: bool, mag: nat) {
    function Value(): int {
      if neg then 0 - mag else mag
    }

    /** A finite float: a 24-bit significand, below 2^128. */
    ghost predicate Finite(g: Grid) {
      Representable(mag) && mag < Pow2(g + 128)
    }

    /** Both casts of htonf are defined below 2^31. */
    ghost predicate Castable(g: Grid) {
      Finite(g) && mag < Pow2(g + 31)
    }
  }

  function Abs(v: int): nat {
    if v < 0 then -v else v
  }

  /** Every exact result in these programs is a whole number of units, so rounding starts from an integer. */
  function FromValue(v: int): Float {
    Float(v < 0, Round(Abs(v)))
  }

  function FromInt(g: Grid, n: nat): Float {
    FromValue(Scaled(n, g))
  }

  /** The cast to an integer type truncates. */
  function ToInt(g: Grid, x: Float): nat {
    Div(x.mag, Pow2(g))
  }

  function Plus(x: Float, y: Float): Float {
    FromValue(x.Value() + y.Value())
  }

  function Minus(x: Float, y: Float): Float {
    FromValue(x.Value() - y.Value())
  }

  /** Multiplication by 65536.0f. */
  function Times65536(x: Float): Float {
    FromValue(x.Value() * 0x1_0000)
  }

  /** Division by 65536.0f, where the quotient is a whole number of units. */
  function Over65536(x: Float): Float
    requires x.mag % 0x1_0000 == 0
  {
    Float(x.neg, Round(x.mag / 0x1_0000))
  }

  function Negate(x: Float): Float {
    Float(!x.neg, x.mag)
  }

  /** The comparison yourFloat < 0, which is false of the negative zero. */
  predicate Negative(x: Float) {
    x.Value() < 0
  }

  /** The fields do not overlap, so | is written +; the masks keep 15 and 16 bits. */
  function Htonf(g: Grid, x: Float): (point: nat)
    requires x.Castable(g)
  {
    var sign := if Negative(x) then 1 else 0;
    var y := if Negative(x) then Negate(x) else x;
    var high := ToInt(g, y) % 0x8000 * 0x1_0000 + sign * 0x8000_0000;
    var fraction := Times65536(Minus(y, FromInt(g, ToInt(g, y))));
    high + ToInt(g, fraction) % 0x1_0000
  }

  function Ntohf(g: Grid, point: nat): (x: Float)
    requires point < 0x1_0000_0000
  {
    FieldExact(g, point % 0x1_0000);
    var whole := FromInt(g, point / 0x1_0000 % 0x8000);
    var y := Plus(whole, Over65536(FromInt(g, point % 0x1_0000)));
    if point / 0x8000_0000 == 1 then Negate(y) else y
  }

  lemma OneIs65536(g: Grid, n: nat)
    ensures Scaled(n, g) == Scaled(n * 0x1_0000, g - 16)
    ensures Scaled(n, g) == Scaled(n, g - 16) * 0x1_0000
  {
    Pow2Of16();
    ScaledTwice(n, 16, g - 16);
    MulAssociative(n, Pow2(g - 16), 0x1_0000);
  }

  lemma RoundScaledExact(n: nat, k: nat)
    requires Representable(n)
    ensures Round(Scaled(n, k)) == Scaled(n, k)
  {
    TimesPow2(n, k);
    RoundIdentity(Scaled(n, k));
  }

  /** Converting a 16-bit field and dividing it by 65536 are both exact. */
  lemma FieldExact(g: Grid, n: nat)
    requires n < 0x1_0000
    ensures FromInt(g, n) == Float(false, Scaled(n, g))
    ensures FromInt(g, n).mag % 0x1_0000 == 0
    ensures Over65536(FromInt(g, n)) == Float(false, Scaled(n, g - 16))
  {
    hide Round, Scaled;
    SmallIsRepresentable(n);
    RoundScaledExact(n, g);
    RoundScaledExact(n, g - 16);
    OneIs65536(g, n);
  }

  // ---------------------------------------------------------------------------------------------
  // The encoder
  // ---------------------------------------------------------------------------------------------

  /** The magnitude in units of 2^-16, the rest cut off. */
  function Fixed(g: Grid, x: Float): nat {
    Div(x.mag, Pow2(g - 16))
  }

  /** The two fields of an encoding. */
  function Low31(p: nat): nat {
    p % 0x8000_0000
  }

  predicate SignBit(p: nat) {
    p / 0x8000_0000 == 1
  }

  /** What the scaled fraction is before the last cast. */
  function FractionTimes65536(g: Grid, x: Float): nat {
    Mod(x.mag, Pow2(g)) * 0x1_0000
  }

  lemma WholeExact(g: Grid, x: Float)
    requires Representable(x.mag)
    ensures FromInt(g, ToInt(g, x)) == Float(false, Scaled(ToInt(g, x), g))
  {
    hide Round, Div, Scaled;
    PartsOf(x.mag, g);
    RoundScaledExact(ToInt(g, x), g);
  }

  lemma MinusExact(g: Grid, x: Float)
    requires Representable(x.mag) && x.Value() >= 0
    ensures Minus(x, Float(false, Scaled(ToInt(g, x), g))) == Float(false, Mod(x.mag, Pow2(g)))
  {
    hide Round;
    PartsOf(x.mag, g);
    RoundIdentity(Mod(x.mag, Pow2(g)));
  }

  lemma TimesExact(n: nat)
    requires Representable(n)
    ensures Times65536(Float(false, n)) == Float(false, n * 0x1_0000)
  {
    hide Round;
    Pow2Of16();
    RoundScaledExact(n, 16);
  }

  /** Every float operation of htonf is exact: the integer part, the subtraction and the scaling. */
  lemma HtonfRoundsNothing(g: Grid, x: Float)
    requires Representable(x.mag)
    ensures FromInt(g, ToInt(g, x)) == Float(false, Scaled(ToInt(g, x), g))
    ensures x.Value() >= 0 ==>
      Minus(x, FromInt(g, ToInt(g, x))) == Float(false, Mod(x.mag, Pow2(g))) &&
      Times65536(Minus(x, FromInt(g, ToInt(g, x)))) == Float(false, FractionTimes65536(g, x))
  {
    hide Round, Div, Mod, Scaled, Plus, Minus, Times65536, FromInt;
    WholeExact(g, x);
    PartsOf(x.mag, g);
    if x.Value() >= 0 {
      MinusExact(g, x);
      TimesExact(Mod(x.mag, Pow2(g)));
    }
  }

  lemma CutTwice(x: nat, u: nat, p: nat)
    requires u > 0 && p > 0 && p == u * 0x1_0000
    ensures Div(Mod(x, p) * 0x1_0000, p) == Div(Mod(x, p), u) < 0x1_0000
    ensures Div(x, u) == Div(x, p) * 0x1_0000 + Div(Mod(x, p), u)
  {
    var w, f := Div(x, p), Mod(x, p);
    CutScaled(f, u, 0x1_0000);
    var h, r := Div(f, u), Mod(f, u);
    if h >= 0x1_0000 {
      MulMonotone(0x1_0000, h, u);
    }
    MulAssociative(w, 0x1_0000, u);
    MulDistributes(w * 0x1_0000, h, u);
    DivModIs(x, u, w * 0x1_0000 + h, r);
  }

  lemma JoinFields(w: nat, h: nat)
    requires h < 0x1_0000
    ensures Low31(w * 0x1_0000 + h) == w % 0x8000 * 0x1_0000 + h % 0x1_0000
  {
  }

  lemma FieldsOfFixed(g: Grid, x: Float)
    ensures
      Low31(Fixed(g, x)) ==
      ToInt(g, x) % 0x8000 * 0x1_0000 + Div(FractionTimes65536(g, x), Pow2(g)) % 0x1_0000
  {
    hide Div, Mod, Low31;
    OneIs65536(g, 1);
    CutTwice(x.mag, Pow2(g - 16), Pow2(g));
    JoinFields(ToInt(g, x), Div(FractionTimes65536(g, x), Pow2(g)));
  }

  /** htonf is truncation to a multiple of 2^-16, modulo 2^15, with the sign of a nonzero argument. */
  lemma HtonfTruncates(g: Grid, x: Float)
    requires x.Castable(g)
    ensures Htonf(g, x) == Low31(Fixed(g, x)) + if Negative(x) then 0x8000_0000 else 0
    ensures Htonf(g, x) < 0x1_0000_0000
    ensures Htonf(g, x) % 0x8000_0000 == Div(x.mag, Pow2(g - 16)) % 0x8000_0000
    ensures Htonf(g, x) >= 0x8000_0000 <==> x.neg && x.mag > 0
  {
    hide Div, Mod, Pow2, Round, Low31, Times65536, Minus, FromInt;
    var y := if Negative(x) then Negate(x) else x;
    HtonfRoundsNothing(g, y);
    FieldsOfFixed(g, y);
    Low31Bound(Fixed(g, x));
    FieldsJoined(Low31(Fixed(g, x)), Negative(x));
  }

  lemma FieldsJoined(n: nat, negative: bool)
    requires n < 0x8000_0000
    ensures
      var p := n + if negative then 0x8000_0000 else 0;
      p % 0x8000_0000 == n && (p >= 0x8000_0000 <==> negative)
  {
  }

  lemma Low31Bound(n: nat)
    ensures Low31(n) == n % 0x8000_0000 < 0x8000_0000
    ensures n < 0x8000_0000 ==> Low31(n) == n
  {
  }

  // ---------------------------------------------------------------------------------------------
  // The decoder
  // ---------------------------------------------------------------------------------------------

  lemma SplitFields(p: nat)
    requires p < 0x1_0000_0000
    ensures p / 0x1_0000 % 0x8000 * 0x1_0000 + p % 0x1_0000 == Low31(p)
  {
  }

  lemma PlusFields(g: Grid, i: nat, f: nat)
    requires i < 0x8000 && f < 0x1_0000
    ensures
      Plus(Float(false, Scaled(i, g)), Float(false, Scaled(f, g - 16))) ==
      Float(false, Scaled(Round(i * 0x1_0000 + f), g - 16))
  {
    hide Round, Scaled;
    OneIs65536(g, i);
    ScaledAdd(i * 0x1_0000, f, g - 16);
    RoundScales(i * 0x1_0000 + f, g - 16);
  }

  /** ntohf rounds once, in its addition. */
  lemma NtohfRoundsOnce(g: Grid, p: nat)
    requires p < 0x1_0000_0000
    ensures Ntohf(g, p) == Float(SignBit(p), Scaled(Round(Low31(p)), g - 16))
    ensures Ntohf(g, p) == Float(p >= 0x8000_0000, Scaled(Round(p % 0x8000_0000), g - 16))
  {
    hide Round, Scaled, Plus, Over65536, FromInt;
    var i, f := p / 0x1_0000 % 0x8000, p % 0x1_0000;
    FieldExact(g, i);
    FieldExact(g, f);
    SplitFields(p);
    PlusFields(g, i, f);
  }

  /** The decoded float is the nearest one to the encoded number. */
  lemma NtohfNearest(g: Grid, p: nat, y: nat)
    requires p < 0x1_0000_0000 && Representable(y)
    ensures
      var exact := Scaled(Low31(p), g - 16);
      Distance(Ntohf(g, p).mag, exact) <= Distance(y, exact)
  {
    hide Round, Scaled, Low31, Ntohf;
    NtohfRoundsOnce(g, p);
    RoundScales(Low31(p), g - 16);
    RoundNearest(Scaled(Low31(p), g - 16), y);
  }

  /** An encoding halfway between two floats decodes to the one with the even significand. */
  lemma NtohfTies(g: Grid, p: nat, m: nat, k: nat)
    requires p < 0x1_0000_0000 && 0x80_0000 <= m < 0x100_0000
    requires p % 0x8000_0000 == Scaled(2 * m + 1, k)
    ensures
      Ntohf(g, p) == Float(p >= 0x8000_0000, Scaled(if m % 2 == 0 then m else m + 1, g - 16 + (k + 1)))
  {
    hide Round, Scaled, Ntohf;
    NtohfRoundsOnce(g, p);
    TiesToEven(m, k);
    ScaledTwice(if m % 2 == 0 then m else m + 1, k + 1, g - 16);
    ScaledIs(if m % 2 == 0 then m else m + 1, k + 1);
  }

  lemma ScaledIs(m: nat, k: nat)
    ensures Scaled(m, k) == m * Pow2(k)
  {
  }

  // ---------------------------------------------------------------------------------------------
  // There and back
  // ---------------------------------------------------------------------------------------------

  ghost function ThereAndBack(g: Grid, x: Float): Float
    requires x.Castable(g)
  {
    HtonfTruncates(g, x);
    Ntohf(g, Htonf(g, x))
  }

  lemma Pow2Of31()
    ensures Pow2(31) == 0x8000_0000
  {
    Pow2Of16();
    Pow2Add(16, 15);
    assert Pow2(16) == 2 * Pow2(15);
  }

  lemma Low31OfRepresentable(n: nat)
    requires Representable(n)
    ensures Representable(Low31(n)) && Round(Low31(n)) == Low31(n)
  {
    hide Round;
    PartsOf(n, 31);
    Pow2Of31();
    RoundIdentity(Low31(n));
  }

  lemma Encoded(n: nat, negative: bool)
    requires n < 0x8000_0000
    ensures var p := n + if negative then 0x8000_0000 else 0; Low31(p) == n && SignBit(p) == negative
  {
  }

  /** For every argument the casts are defined for, the addition in ntohf is exact too. */
  lemma RoundTrip(g: Grid, x: Float)
    requires x.Castable(g)
    ensures ThereAndBack(g, x) == Float(Negative(x), Scaled(Low31(Fixed(g, x)), g - 16))
  {
    hide Round, Scaled, Low31, SignBit, Ntohf, Htonf, Div, Pow2;
    var n := Low31(Fixed(g, x));
    HtonfTruncates(g, x);
    NtohfRoundsOnce(g, Htonf(g, x));
    PartsOf(x.mag, g - 16);
    Low31OfRepresentable(Fixed(g, x));
    Low31Bound(Fixed(g, x));
    Encoded(n, Negative(x));
  }

  lemma FixedBound(g: Grid, x: Float)
    ensures Fixed(g, x) < 0x8000_0000 <==> x.mag < Pow2(g + 15)
  {
    var n, u := Fixed(g, x), Pow2(g - 16);
    Pow2Of31();
    Pow2Add(31, g - 16);
    var r := Mod(x.mag, u);
    if n < 0x8000_0000 {
      MulMonotone(n + 1, 0x8000_0000, u);
      MulDistributes(n, 1, u);
    } else {
      MulMonotone(0x8000_0000, n, u);
    }
  }

  lemma FixedCuts(g: Grid, x: Float)
    ensures Scaled(Fixed(g, x), g - 16) <= x.mag < Scaled(Fixed(g, x), g - 16) + Pow2(g - 16)
  {
  }

  /** Below 32768 the composition truncates toward zero to a multiple of 2^-16. */
  lemma SmallRoundTrip(g: Grid, x: Float)
    requires x.Castable(g) && x.mag < Pow2(g + 15)
    ensures ThereAndBack(g, x) == Float(Negative(x), Scaled(Fixed(g, x), g - 16))
    ensures ThereAndBack(g, x).mag <= x.mag < ThereAndBack(g, x).mag + Pow2(g - 16)
  {
    hide Scaled, Fixed, Low31, ThereAndBack;
    RoundTrip(g, x);
    FixedBound(g, x);
    FixedCuts(g, x);
    Low31Bound(Fixed(g, x));
  }

  /** The error is below 2^-16 exactly for the arguments below 32768. */
  lemma ErrorSmallIffInRange(g: Grid, x: Float)
    requires x.Castable(g)
    ensures Distance(x.mag, ThereAndBack(g, x).mag) < Pow2(g - 16) <==> x.mag < Pow2(g + 15)
  {
    hide Scaled, Fixed, Low31, ThereAndBack, Pow2;
    FixedBound(g, x);
    RoundTrip(g, x);
    FixedCuts(g, x);
    var n := Fixed(g, x);
    Low31Bound(n);
    if n >= 0x8000_0000 {
      ScaledCompare(Low31(n), n - 1, g - 16);
      ScaledAdd(n - 1, 1, g - 16);
      ScaledOne(g - 16);
    }
  }

  lemma ScaledOne(k: nat)
    ensures Scaled(1, k) == Pow2(k)
  {
  }

  lemma FixedMonotone(g: Grid, x: Float, y: Float)
    requires x.mag <= y.mag
    ensures Scaled(Fixed(g, x), g - 16) <= Scaled(Fixed(g, y), g - 16)
  {
    hide Scaled;
    DivMonotone(x.mag, y.mag, Pow2(g - 16));
    ScaledCompare(Fixed(g, y), Fixed(g, x), g - 16);
  }

  lemma DivMonotone(x: nat, y: nat, d: nat)
    requires d > 0 && x <= y
    ensures Div(x, d) <= Div(y, d)
  {
    if Div(y, d) < Div(x, d) {
      MulMonotone(Div(y, d) + 1, Div(x, d), d);
      MulDistributes(Div(y, d), 1, d);
    }
  }

  lemma RoundTripMonotone(g: Grid, x: Float, y: Float)
    requires x.Castable(g) && x.mag < Pow2(g + 15)
    requires y.Castable(g) && y.mag < Pow2(g + 15)
    requires x.Value() <= y.Value()
    ensures ThereAndBack(g, x).Value() <= ThereAndBack(g, y).Value()
  {
    hide Scaled, Fixed, ThereAndBack;
    SmallRoundTrip(g, x);
    SmallRoundTrip(g, y);
    if x.mag <= y.mag {
      FixedMonotone(g, x, y);
    }
    if y.mag <= x.mag {
      FixedMonotone(g, y, x);
    }
  }

  lemma RoundTripIdempotent(g: Grid, x: Float)
    requires x.Castable(g)
    ensures
      var y := ThereAndBack(g, x);
      y.Castable(g) && ThereAndBack(g, y).Value() == y.Value()
  {
    hide Scaled, Div, Low31, ThereAndBack, Pow2;
    var y := ThereAndBack(g, x);
    var n := Low31(Fixed(g, x));
    RoundTrip(g, x);
    PartsOf(x.mag, g - 16);
    Low31OfRepresentable(Fixed(g, x));
    Low31Bound(Fixed(g, x));
    Low31Bound(n);
    TimesPow2(n, g - 16);
    ScaledBelow(g, n);
    RoundTrip(g, y);
    DivScaled(n, g - 16);
  }

  /** Exactly which floats survive: multiples of 2^-16 below 32768. */
  lemma FloatSurvives(g: Grid, x: Float)
    requires x.Castable(g)
    ensures
      ThereAndBack(g, x).Value() == x.Value() <==> Mod(x.mag, Pow2(g - 16)) == 0 && x.mag < Pow2(g + 15)
  {
    hide Low31, ThereAndBack, Pow2;
    ErrorSmallIffInRange(g, x);
    if x.mag < Pow2(g + 15) {
      SmallRoundTrip(g, x);
    }
  }

  lemma Pow2Of8()
    ensures Pow2(7) == 0x80 && Pow2(8) == 0x100
  {
    assert Pow2(4) == 0x10;
    Pow2Add(4, 4);
  }

  lemma LargeExponent(m: nat, k: nat)
    requires m < SIGNIFICANDS && Scaled(m, k) >= 0x8000_0000
    ensures k >= 8
  {
    hide Pow2;
    if k < 8 {
      Pow2Of8();
      Pow2Monotone(k, 7);
      MulMonotone(m, SIGNIFICANDS - 1, Pow2(k));
      assert false;
    }
  }

  lemma Low31Coarse(n: nat)
    requires n % 0x100 == 0
    ensures Low31(n) <= 0x7fff_ff00
  {
  }

  /** From 2^31 on a significand of 24 bits leaves the low eight bits zero. */
  lemma LargeIsCoarse(n: nat)
    requires Representable(n) && n >= 0x8000_0000
    ensures Low31(n) <= 0x7fff_ff00
  {
    hide Pow2, Low31;
    var m: nat, k: nat :| m < SIGNIFICANDS && Scaled(m, k) == n;
    LargeExponent(m, k);
    CutAbove(m, k, 8);
    Pow2Of8();
    Low31Coarse(n);
  }

  /** The magnitude never falls as the argument's grows exactly up to the arguments below 32768. */
  lemma MonotoneIffInRange(g: Grid, x: Float)
    requires x.Castable(g)
    ensures
      (forall y: Float | y.Castable(g) && y.mag <= x.mag :: ThereAndBack(g, y).mag <= ThereAndBack(g, x).mag) <==>
      x.mag < Pow2(g + 15)
  {
    hide Scaled, Div, Low31, ThereAndBack, Representable, Pow2;
    if x.mag < Pow2(g + 15) {
      forall y: Float | y.Castable(g) && y.mag <= x.mag
        ensures ThereAndBack(g, y).mag <= ThereAndBack(g, x).mag
      {
        SmallRoundTrip(g, x);
        SmallRoundTrip(g, y);
        FixedMonotone(g, y, x);
      }
    } else {
      var y := LargestInRange(g);
      RoundTrip(g, x);
      FixedBound(g, x);
      PartsOf(x.mag, g - 16);
      LargeIsCoarse(Fixed(g, x));
      ScaledCompare(Low31(Fixed(g, x)), 0x7fff_ff80, g - 16);
    }
  }

  /** The largest float below 32768 survives. */
  lemma LargestInRange(g: Grid) returns (y: Float)
    ensures y.Castable(g) && y.mag < Pow2(g + 15)
    ensures ThereAndBack(g, y).mag == y.mag == Scaled(0x7fff_ff80, g - 16)
  {
    hide Scaled, Div, ThereAndBack;
    var n := 0x7fff_ff80;
    y := Float(false, Scaled(n, g - 16));
    Pow2Of8();
    IsRepresentable(n, SIGNIFICANDS - 1, 7);
    TimesPow2(n, g - 16);
    ScaledBelow(g, n);
    DivScaled(n, g - 16);
    FixedBound(g, y);
    SmallRoundTrip(g, y);
  }

  // ---------------------------------------------------------------------------------------------
  // Back and there
  // ---------------------------------------------------------------------------------------------

  lemma RoundBelow2To31(n: nat)
    requires n < 0x8000_0000
    ensures Round(n) <= 0x8000_0000
  {
    hide Round;
    Pow2Of31();
    IsRepresentable(0x8000_0000, 1, 31);
    RoundNearest(n, 0x8000_0000);
  }

  lemma ScaledBelow(g: Grid, n: nat)
    requires n <= 0x8000_0000
    ensures Scaled(n, g - 16) < Pow2(g + 31) <= Pow2(g + 128)
  {
    Pow2Of31();
    ScaledCompare(n, Pow2(32), g - 16);
    Pow2Add(32, g - 16);
    Pow2Monotone(g + 16, g + 31);
    Pow2Monotone(g + 31, g + 128);
  }

  lemma DecodedIsCastable(g: Grid, p: nat)
    requires p < 0x1_0000_0000
    ensures Ntohf(g, p).Castable(g) && Fixed(g, Ntohf(g, p)) == Round(Low31(p))
  {
    hide Round, Scaled, Low31, Ntohf, Pow2, Div;
    var n := Low31(p);
    NtohfRoundsOnce(g, p);
    Low31Bound(p);
    RoundBelow2To31(n);
    RoundRepresentable(n);
    TimesPow2(Round(n), g - 16);
    DivScaled(Round(n), g - 16);
    ScaledBelow(g, Round(n));
  }

  lemma RoundSurvives(n: nat)
    requires n < 0x8000_0000
    ensures Low31(Round(n)) == n <==> Representable(n)
    ensures Representable(n) ==> Round(n) == n
  {
    hide Round;
    RoundBelow2To31(n);
    RoundRepresentable(n);
    SmallIsRepresentable(0);
    if Representable(n) {
      RoundIdentity(n);
    }
  }

  /** Exactly which encodings survive: a significand of 24 bits, and not the encoded negative zero. */
  lemma EncodingSurvives(g: Grid, p: nat)
    requires p < 0x1_0000_0000
    ensures Ntohf(g, p).Castable(g)
    ensures Htonf(g, Ntohf(g, p)) == p <==> Representable(Low31(p)) && p != 0x8000_0000
  {
    hide Round, Scaled, Ntohf, Htonf, Fixed, Pow2;
    var n := Low31(p);
    var x := Ntohf(g, p);
    DecodedIsCastable(g, p);
    NtohfRoundsOnce(g, p);
    HtonfTruncates(g, x);
    RoundSurvives(n);
    ScaledCompare(0, n, g - 16);
    ScaledZero(g - 16);
  }

  lemma ScaledZero(k: nat)
    ensures Scaled(0, k) == 0
  {
  }

  /** The largest encodable number rounds up to 32768 and encodes as zero. */
  lemma LargestEncodingIsLost(g: Grid)
    ensures Ntohf(g, 0x7fff_ffff).Castable(g) && Htonf(g, Ntohf(g, 0x7fff_ffff)) == 0
  {
    var p := 0x7fff_ffff;
    RoundOfLargest();
    NtohfRoundsOnce(g, p);
    DecodedIsCastable(g, p);
    HtonfTruncates(g, Ntohf(g, p));
  }

  lemma RoundOfLargest()
    ensures Round(0x7fff_ffff) == 0x8000_0000
  {
    assert Pow2(3) == 8;
    assert Pow2(4) == 0x10;
    Pow2Add(3, 4);
    ExcessIs(0x7fff_ffff, 7);
    DivModIs(0x7fff_ffff, 0x80, 0xff_ffff, 0x7f);
  }
}
