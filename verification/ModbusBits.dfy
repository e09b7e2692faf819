/** Two changed bits: the generator is (x + 1)(x^15 + x + 1), and x has order 32767 modulo it. */
module ModbusBits {
  import opened ModbusCrc

  // ---------- powers of x ----------

  /** The register that stands for the polynomial 1: its top bit counts x^0, its lowest x^15. */
  const UNIT: bv16 := 0x8000

  function Shifts(r: bv16, n: nat): bv16 {
    if n == 0 then r else Shift(Shifts(r, n - 1))
  }

  /** x^n modulo the generator. */
  function Power(n: nat): bv16 {
    Shifts(UNIT, n)
  }

  function Part(v: bv16, bit: bv16, square: bv16): bv16 {
    if v & bit != 0 then square else 0
  }

  function Sum(a: bv16, b: bv16, c: bv16, d: bv16): bv16 {
    Xor(Xor(a, b), Xor(c, d))
  }

  /** The square of a polynomial: the squares of its terms, for twice a term is nothing. */
  function Square(v: bv16): bv16 {
    Sum(FourA(v), FourB(v), FourC(v), FourD(v))
  }

  function FourA(v: bv16): bv16 {
    Sum(if v & 0x8000 != 0 then 0x8000 else 0, if v & 0x4000 != 0 then 0x2000 else 0,
        if v & 0x2000 != 0 then 0x800 else 0, if v & 0x1000 != 0 then 0x200 else 0)
  }

  function FourB(v: bv16): bv16 {
    Sum(if v & 0x800 != 0 then 0x80 else 0, if v & 0x400 != 0 then 0x20 else 0,
        if v & 0x200 != 0 then 0x8 else 0, if v & 0x100 != 0 then 0x2 else 0)
  }

  function FourC(v: bv16): bv16 {
    Sum(if v & 0x80 != 0 then 0xA001 else 0, if v & 0x40 != 0 then 0xD801 else 0,
        if v & 0x20 != 0 then 0xC601 else 0, if v & 0x10 != 0 then 0xC181 else 0)
  }

  function FourD(v: bv16): bv16 {
    Sum(if v & 0x8 != 0 then 0xC061 else 0, if v & 0x4 != 0 then 0xC019 else 0,
        if v & 0x2 != 0 then 0xC007 else 0, if v & 0x1 != 0 then 0x6001 else 0)
  }

  lemma PartsA(v: bv16)
    ensures FourA(v) == Sum(Part(v, 0x8000, 0x8000), Part(v, 0x4000, 0x2000),
                           Part(v, 0x2000, 0x800), Part(v, 0x1000, 0x200))
  {
    hide Sum;
  }

  lemma PartsB(v: bv16)
    ensures FourB(v) == Sum(Part(v, 0x800, 0x80), Part(v, 0x400, 0x20),
                           Part(v, 0x200, 0x8), Part(v, 0x100, 0x2))
  {
    hide Sum;
  }

  lemma PartsC(v: bv16)
    ensures FourC(v) == Sum(Part(v, 0x80, 0xA001), Part(v, 0x40, 0xD801),
                           Part(v, 0x20, 0xC601), Part(v, 0x10, 0xC181))
  {
    hide Sum;
  }

  lemma PartsD(v: bv16)
    ensures FourD(v) == Sum(Part(v, 0x8, 0xC061), Part(v, 0x4, 0xC019),
                           Part(v, 0x2, 0xC007), Part(v, 0x1, 0x6001))
  {
    hide Sum;
  }

  lemma PartIsLinear(a: bv16, b: bv16, bit: bv16, square: bv16)
    requires IsBit(a, bit) && IsBit(b, bit)
    ensures Part(Xor(a, b), bit, square) == Xor(Part(a, bit, square), Part(b, bit, square))
  {
    MaskOfXor(a, b, bit);
    SameIsNothing(bit);
    SameIsNothing(square);
    XorZero(bit);
    XorZero(square);
    XorCommutes(bit, 0);
    XorCommutes(square, 0);
    XorZero(0);
    hide Xor;
  }

  predicate IsBit(v: bv16, bit: bv16) {
    v & bit == 0 || v & bit == bit
  }

  lemma MaskOfXor(a: bv16, b: bv16, bit: bv16)
    ensures Xor(a, b) & bit == Xor(a & bit, b & bit)
  {
  }

  lemma SameIsNothing(v: bv16)
    ensures Xor(v, v) == 0
  {
  }

  lemma SumIsLinear(a: bv16, a': bv16, b: bv16, b': bv16, c: bv16, c': bv16, d: bv16, d': bv16)
    ensures Sum(Xor(a, a'), Xor(b, b'), Xor(c, c'), Xor(d, d')) == Xor(Sum(a, b, c, d), Sum(a', b', c', d'))
  {
    hide Xor;
    XorTwoAndTwo(a, a', b, b');
    XorTwoAndTwo(c, c', d, d');
    XorTwoAndTwo(Xor(a, b), Xor(a', b'), Xor(c, d), Xor(c', d'));
  }

  lemma FourAIsLinear(v: bv16, w: bv16)
    ensures FourA(Xor(v, w)) == Xor(FourA(v), FourA(w))
  {
    PartsA(v);
    PartsA(w);
    PartsA(Xor(v, w));
    hide FourA, Part, Sum, Xor;
    PartIsLinear(v, w, 0x8000, 0x8000);
    PartIsLinear(v, w, 0x4000, 0x2000);
    PartIsLinear(v, w, 0x2000, 0x800);
    PartIsLinear(v, w, 0x1000, 0x200);
    SumIsLinear(Part(v, 0x8000, 0x8000), Part(w, 0x8000, 0x8000), Part(v, 0x4000, 0x2000), Part(w, 0x4000, 0x2000),
                Part(v, 0x2000, 0x800), Part(w, 0x2000, 0x800), Part(v, 0x1000, 0x200), Part(w, 0x1000, 0x200));
  }

  lemma FourBIsLinear(v: bv16, w: bv16)
    ensures FourB(Xor(v, w)) == Xor(FourB(v), FourB(w))
  {
    PartsB(v);
    PartsB(w);
    PartsB(Xor(v, w));
    hide FourB, Part, Sum, Xor;
    PartIsLinear(v, w, 0x800, 0x80);
    PartIsLinear(v, w, 0x400, 0x20);
    PartIsLinear(v, w, 0x200, 0x8);
    PartIsLinear(v, w, 0x100, 0x2);
    SumIsLinear(Part(v, 0x800, 0x80), Part(w, 0x800, 0x80), Part(v, 0x400, 0x20), Part(w, 0x400, 0x20),
                Part(v, 0x200, 0x8), Part(w, 0x200, 0x8), Part(v, 0x100, 0x2), Part(w, 0x100, 0x2));
  }

  lemma FourCIsLinear(v: bv16, w: bv16)
    ensures FourC(Xor(v, w)) == Xor(FourC(v), FourC(w))
  {
    PartsC(v);
    PartsC(w);
    PartsC(Xor(v, w));
    hide FourC, Part, Sum, Xor;
    PartIsLinear(v, w, 0x80, 0xA001);
    PartIsLinear(v, w, 0x40, 0xD801);
    PartIsLinear(v, w, 0x20, 0xC601);
    PartIsLinear(v, w, 0x10, 0xC181);
    SumIsLinear(Part(v, 0x80, 0xA001), Part(w, 0x80, 0xA001), Part(v, 0x40, 0xD801), Part(w, 0x40, 0xD801),
                Part(v, 0x20, 0xC601), Part(w, 0x20, 0xC601), Part(v, 0x10, 0xC181), Part(w, 0x10, 0xC181));
  }

  lemma FourDIsLinear(v: bv16, w: bv16)
    ensures FourD(Xor(v, w)) == Xor(FourD(v), FourD(w))
  {
    PartsD(v);
    PartsD(w);
    PartsD(Xor(v, w));
    hide FourD, Part, Sum, Xor;
    PartIsLinear(v, w, 0x8, 0xC061);
    PartIsLinear(v, w, 0x4, 0xC019);
    PartIsLinear(v, w, 0x2, 0xC007);
    PartIsLinear(v, w, 0x1, 0x6001);
    SumIsLinear(Part(v, 0x8, 0xC061), Part(w, 0x8, 0xC061), Part(v, 0x4, 0xC019), Part(w, 0x4, 0xC019),
                Part(v, 0x2, 0xC007), Part(w, 0x2, 0xC007), Part(v, 0x1, 0x6001), Part(w, 0x1, 0x6001));
  }

  lemma SquareIsLinear(v: bv16, w: bv16)
    ensures Square(Xor(v, w)) == Xor(Square(v), Square(w))
  {
    hide FourA, FourB, FourC, FourD, Sum, Xor;
    FourAIsLinear(v, w);
    FourBIsLinear(v, w);
    FourCIsLinear(v, w);
    FourDIsLinear(v, w);
    SumIsLinear(FourA(v), FourA(w), FourB(v), FourB(w), FourC(v), FourC(w), FourD(v), FourD(w));
  }

  /** The square of x times v is x times x times the square of v. */
  predicate Doubles(v: bv16) {
    Square(Shift(v)) == Shift(Shift(Square(v)))
  }

  lemma SumDoubles(a: bv16, b: bv16)
    requires Doubles(a) && Doubles(b)
    ensures Doubles(Xor(a, b))
  {
    hide Square, Shift, Xor;
    ShiftIsLinear(a, b);
    SquareIsLinear(Shift(a), Shift(b));
    SquareIsLinear(a, b);
    ShiftIsLinear(Square(a), Square(b));
    ShiftIsLinear(Shift(Square(a)), Shift(Square(b)));
  }

  lemma NibbleADoubles(v: bv16)
    ensures Doubles(v & 0xF000)
  {
  }

  lemma NibbleBDoubles(v: bv16)
    ensures Doubles(v & 0xF00)
  {
  }

  lemma NibbleCDoubles(v: bv16)
    ensures Doubles(v & 0xF0)
  {
  }

  lemma NibbleDDoubles(v: bv16)
    ensures Doubles(v & 0xF)
  {
  }

  lemma Nibbles(v: bv16)
    ensures v == Xor(Xor(v & 0xF000, v & 0xF00), Xor(v & 0xF0, v & 0xF))
  {
  }

  lemma SquareOfShift(v: bv16)
    ensures Square(Shift(v)) == Shift(Shift(Square(v)))
  {
    hide Square, Shift, Xor;
    Nibbles(v);
    NibbleADoubles(v);
    NibbleBDoubles(v);
    NibbleCDoubles(v);
    NibbleDDoubles(v);
    SumDoubles(v & 0xF000, v & 0xF00);
    SumDoubles(v & 0xF0, v & 0xF);
    SumDoubles(Xor(v & 0xF000, v & 0xF00), Xor(v & 0xF0, v & 0xF));
  }

  lemma Start()
    ensures Power(0) == UNIT && Square(UNIT) == UNIT
  {
  }

  lemma {:induction false} PowerOfTwice(n: nat)
    ensures Power(2 * n) == Square(Power(n))
  {
    hide Square, Shift;
    if n == 0 {
      Start();
    } else {
      PowerOfTwice(n - 1);
      SquareOfShift(Power(n - 1));
      assert Power(2 * n) == Shift(Power(2 * n - 1)) == Shift(Shift(Power(2 * (n - 1))));
    }
  }

  lemma Double(n: nat, v: bv16, w: bv16)
    requires Power(n) == v && Square(v) == w
    ensures Power(2 * n) == w
  {
    PowerOfTwice(n);
    hide Power, Square;
  }

  lemma Next(n: nat, v: bv16, w: bv16)
    requires Power(n) == v && Shift(v) == w
    ensures Power(n + 1) == w
  {
    hide Shift;
  }

  lemma Power8()
    ensures Power(8) == 0x80
  {
    hide Power;
    Start();
    Next(0, UNIT, 0x4000);
    Double(1, 0x4000, 0x2000);
    Double(2, 0x2000, 0x800);
    Double(4, 0x800, 0x80);
  }

  lemma Power217()
    ensures Power(217) == 0x3E55
  {
    hide Power;
    Start();
    Next(0, UNIT, 0x4000);
    Double(1, 0x4000, 0x2000);
    Next(2, 0x2000, 0x1000);
    Double(3, 0x1000, 0x200);
    Double(6, 0x200, 8);
    Next(12, 8, 4);
    Double(13, 4, 0xC019);
    Next(26, 0xC019, 0xC00D);
    Double(27, 0xC00D, 0xC079);
    Double(54, 0xC079, 0xDFE1);
    Double(108, 0xDFE1, 0x7CAA);
    Next(216, 0x7CAA, 0x3E55);
  }

  lemma Power1057()
    ensures Power(1057) == 0xCE41
  {
    hide Power;
    Start();
    Next(0, UNIT, 0x4000);
    Double(1, 0x4000, 0x2000);
    Double(2, 0x2000, 0x800);
    Double(4, 0x800, 0x80);
    Double(8, 0x80, 0xA001);
    Double(16, 0xA001, 0xE801);
    Next(32, 0xE801, 0xD401);
    Double(33, 0xD401, 0xC221);
    Double(66, 0xC221, 0x608);
    Double(132, 0x608, 0xC049);
    Double(264, 0xC049, 0xD861);
    Double(528, 0xD861, 0xDC81);
    Next(1056, 0xDC81, 0xCE41);
  }

  lemma Power4681()
    ensures Power(4681) == 0x8C69
  {
    hide Power;
    Start();
    Next(0, UNIT, 0x4000);
    Double(1, 0x4000, 0x2000);
    Double(2, 0x2000, 0x800);
    Double(4, 0x800, 0x80);
    Next(8, 0x80, 0x40);
    Double(9, 0x40, 0xD801);
    Double(18, 0xD801, 0xC281);
    Double(36, 0xC281, 0x6008);
    Next(72, 0x6008, 0x3004);
    Double(73, 0x3004, 0xCA19);
    Double(146, 0xCA19, 0xC169);
    Double(292, 0xC169, 0x1E62);
    Next(584, 0x1E62, 0xF31);
    Double(585, 0xF31, 0x672B);
    Double(1170, 0x672B, 0x8E4C);
    Double(2340, 0x8E4C, 0x58D1);
    Next(4680, 0x58D1, 0x8C69);
  }

  lemma Power32768()
    ensures Power(32768) == 0x4000
  {
    hide Power;
    Start();
    Next(0, UNIT, 0x4000);
    Double(1, 0x4000, 0x2000);
    Double(2, 0x2000, 0x800);
    Double(4, 0x800, 0x80);
    Double(8, 0x80, 0xA001);
    Double(16, 0xA001, 0xE801);
    Double(32, 0xE801, 0xC881);
    Double(64, 0xC881, 0x6080);
    Double(128, 0x6080, 0x8801);
    Double(256, 0x8801, 0xE081);
    Double(512, 0xE081, 0x6800);
    Double(1024, 0x6800, 0x2880);
    Double(2048, 0x2880, 0xA881);
    Double(4096, 0xA881, 0x4880);
    Double(8192, 0x4880, 0x8081);
    Double(16384, 0x8081, 0x4000);
  }

  // ---------- the order of x ----------

  /** n shifts lead back. */
  predicate Returns(n: nat) {
    Power(n) == UNIT
  }

  lemma {:induction false} ShiftsConcat(r: bv16, n: nat, m: nat)
    ensures Shifts(r, n + m) == Shifts(Shifts(r, n), m)
    decreases m
  {
    hide Shift;
    if m > 0 {
      ShiftsConcat(r, n, m - 1);
    }
  }

  lemma {:induction false} ShiftsAreInjective(r: bv16, r': bv16, n: nat)
    requires Shifts(r, n) == Shifts(r', n)
    ensures r == r'
    decreases n
  {
    hide Shift;
    if n > 0 {
      ShiftIsInjective(Shifts(r, n - 1), Shifts(r', n - 1));
      ShiftsAreInjective(r, r', n - 1);
    }
  }

  /** Two powers are equal iff the shifts between them lead back. */
  lemma SamePower(n: nat, d: nat)
    ensures Power(n + d) == Power(n) <==> Returns(d)
  {
    ShiftsConcat(UNIT, d, n);
    hide Shifts;
    assert Power(n + d) == Shifts(Power(d), n);
    if Power(n + d) == Power(n) {
      ShiftsAreInjective(Power(d), UNIT, n);
    }
  }

  lemma Returns32767()
    ensures Returns(32767)
  {
    Power32768();
    Next(0, UNIT, 0x4000);
    SamePower(1, 32767);
    hide Shifts;
  }

  lemma {:induction false} MultiplesReturn(n: nat, k: nat)
    requires Returns(n)
    ensures Returns(n * k)
    decreases k
  {
    hide Shifts, Shift;
    if k == 0 {
      Start();
    } else {
      MultiplesReturn(n, k - 1);
      assert n * k == n * (k - 1) + n;
      SamePower(n * (k - 1), n);
    }
  }

  lemma DifferenceReturns(n: nat, m: nat)
    requires n <= m && Returns(n) && Returns(m)
    ensures Returns(m - n)
  {
    hide Shifts;
    SamePower(n, m - n);
  }

  /** Euclid's algorithm: with two numbers a common divisor of them leads back. */
  lemma {:induction false} CommonDivisor(a: nat, b: nat) returns (g: nat, p: nat, q: nat)
    requires a > 0 && b > 0 && Returns(a) && Returns(b)
    ensures g > 0 && Returns(g) && a == g * p && b == g * q
    decreases a + b
  {
    hide Returns;
    if a == b {
      g, p, q := a, 1, 1;
    } else if a > b {
      DifferenceReturns(b, a);
      g, p, q := CommonDivisor(a - b, b);
      assert a == g * p + g * q == g * (p + q);
      p := p + q;
    } else {
      DifferenceReturns(a, b);
      g, p, q := CommonDivisor(a, b - a);
      assert b == g * q + g * p == g * (p + q);
      q := p + q;
    }
  }

  // ---------- 32767 is 7 * 31 * 151 ----------

  /** A common divisor, and how it is made of the two. */
  lemma {:induction false} Bezout(a: nat, b: nat) returns (g: nat, p: nat, q: nat, x: int, y: int)
    requires a > 0 && b > 0
    ensures g > 0 && a == g * p && b == g * q && g == a * x + b * y
    decreases a + b
  {
    if a == b {
      g, p, q, x, y := a, 1, 1, 1, 0;
    } else if a > b {
      g, p, q, x, y := Bezout(a - b, b);
      assert a == g * p + g * q == g * (p + q);
      assert (a - b) * x + b * y == a * x + b * (y - x);
      p, y := p + q, y - x;
    } else {
      g, p, q, x, y := Bezout(a, b - a);
      assert b == g * q + g * p == g * (p + q);
      assert a * x + (b - a) * y == a * (x - y) + b * y;
      q, x := p + q, x - y;
    }
  }

  predicate IsFactor(n: nat) {
    n == 7 || n == 31 || n == 151
  }

  lemma SmallDivisor(n: nat, c: nat, k: nat)
    requires IsFactor(n) && n == c * k && 2 <= c <= 12
    ensures c == n
  {
    if c == 2 || c == 3 || c == 4 || c == 5 {
    } else if c == 6 || c == 7 || c == 8 || c == 9 {
    }
  }

  lemma LargeProduct(c: nat, k: nat)
    requires c >= 13 && k >= 13
    ensures c * k >= 169
  {
    assert c * k >= c * 13;
  }

  lemma FactorsArePrime(n: nat, c: nat, k: nat)
    requires IsFactor(n) && n == c * k
    ensures c == 1 || c == n
  {
    if 2 <= c <= 12 {
      SmallDivisor(n, c, k);
    } else if 2 <= k <= 12 {
      SmallDivisor(n, k, c);
      assert c * n == n;
    } else if k >= 13 && c >= 13 {
      LargeProduct(c, k);
    }
  }

  /** Euclid's lemma: what divides a prime times m, and not the prime, divides m. */
  lemma DividesRest(n: nat, m: nat, g: nat, q: nat) returns (t: nat)
    requires IsFactor(n) && m > 0 && q > 0 && g * q == n * m && q % n != 0
    ensures q * t == m
  {
    var c, p, k, x, y := Bezout(q, n);
    FactorsArePrime(n, c, k);
    if c == n {
      Multiple(n, p, q);
    }
    assert 1 == q * x + n * y;
    Combine(n, m, g, q, x, y);
    var s := m * x + g * y;
    Positive(q, s, m);
    t := s;
  }

  lemma Multiple(n: nat, p: nat, q: nat)
    requires IsFactor(n) && q == n * p
    ensures q % n == 0
  {
    if n == 7 {
      assert q == 7 * p;
    } else if n == 31 {
      assert q == 31 * p;
    } else {
      assert q == 151 * p;
    }
  }

  lemma Combine(n: nat, m: nat, g: nat, q: nat, x: int, y: int)
    requires g * q == n * m && 1 == q * x + n * y
    ensures q * (m * x + g * y) == m
  {
    assert q * (m * x + g * y) == m * (q * x) + (g * q) * y;
    assert (n * m) * y == m * (n * y);
    assert m * (q * x) + m * (n * y) == m * (q * x + n * y);
  }

  lemma Positive(q: nat, s: int, m: nat)
    requires q > 0 && m > 0 && q * s == m
    ensures s > 0
  {
  }

  /** As many shifts lead back as 32767 divides. */
  lemma OrderIs32767(d: nat)
    ensures Returns(d) <==> d % 32767 == 0
  {
    hide Returns;
    var k, r := d / 32767, d % 32767;
    Returns32767();
    MultiplesReturn(32767, k);
    if r == 0 {
      assert d == 32767 * k;
    } else if Returns(d) {
      DifferenceReturns(32767 * k, d);
      NoFewerReturn(r);
    }
  }

  lemma NoFewerReturn(d: nat)
    requires 0 < d && Returns(d)
    ensures d >= 32767
  {
    hide Returns;
    Returns32767();
    var g, p, q := CommonDivisor(d, 32767);
    NoDivisorReturns(g, q);
    assert d == 32767 * p;
  }

  lemma NoDivisorReturns(g: nat, q: nat)
    requires g > 0 && Returns(g) && 32767 == g * q
    ensures q == 1
  {
    hide Returns;
    if q % 7 == 0 {
      var t := q / 7;
      assert g * q == 7 * (g * t);
      MultiplesReturn(g, t);
      NotBack();
    } else {
      var t := DividesRest(7, 4681, g, q);
      if q % 31 == 0 {
        var s := q / 31;
        assert g * q == 31 * (g * s);
        MultiplesReturn(g, s);
        NotBack();
      } else {
        var u := DividesRest(31, 151, t, q);
        FactorsArePrime(151, q, u);
        if q == 151 {
          assert g == 217;
          NotBack();
        }
      }
    }
  }

  lemma NotBack()
    ensures !Returns(217) && !Returns(1057) && !Returns(4681)
  {
    Power217();
    Power1057();
    Power4681();
    hide Power;
  }

  // ---------- two changed bits ----------

  /** The byte with just bit i set; bits go over the line lowest first. */
  function Bit(i: nat): bv8
    requires i < 8
  {
    if i == 0 then 1 else if i == 1 then 2 else if i == 2 then 4 else if i == 3 then 8
    else if i == 4 then 16 else if i == 5 then 32 else if i == 6 then 64 else 128
  }

  lemma BitIsPower(i: nat)
    requires i < 8
    ensures Bit(i) as bv16 == Power(15 - i)
  {
    Start();
    Power8();
    hide Power;
    Next(8, 0x80, 0x40);
    Next(9, 0x40, 0x20);
    Next(10, 0x20, 0x10);
    Next(11, 0x10, 8);
    Next(12, 8, 4);
    Next(13, 4, 2);
    Next(14, 2, 1);
  }

  lemma EightShifts(r: bv16)
    ensures Shift8(r) == Shifts(r, 8)
  {
    FourShifts(r);
    FourShifts(Shifts(r, 4));
    ShiftsConcat(r, 4, 4);
    hide Shift, Shifts;
  }

  lemma FourShifts(r: bv16)
    ensures Shifts(r, 4) == Shift(Shift(Shift(Shift(r))))
  {
    hide Shift;
    assert Shifts(r, 2) == Shift(Shifts(r, 1));
  }

  /** Two registers, through the same bytes: their difference is shifted, and that is all. */
  lemma {:induction false} DifferenceShifts(r: bv16, r': bv16, m: seq<bv8>)
    ensures Xor(Register(r, m), Register(r', m)) == Shifts(Xor(r, r'), 8 * |m|)
    decreases |m|
  {
    hide Xor, Shift8, Shift, Step;
    RegisterStep(r, m);
    RegisterStep(r', m);
    hide Register;
    if m != [] {
      DifferenceShifts(Step(r, m[0]), Step(r', m[0]), m[1..]);
      StepDifference(r, r', m[0], m[0]);
      XorByteSame(m[0]);
      ShiftsConcat(Xor(r, r'), 8, 8 * |m[1..]|);
      EightShifts(Xor(r, r'));
    }
  }

  lemma XorByteSame(b: bv8)
    ensures XorByte(b, b) == 0
  {
  }

  lemma StepDifference(r: bv16, r': bv16, x: bv8, x': bv8)
    ensures Xor(Step(r, x), Step(r', x')) == Shift8(Xor(Xor(r, r'), XorByte(x, x') as bv16))
    ensures XorByte(x, x') == 0 ==> Xor(Step(r, x), Step(r', x')) == Shift8(Xor(r, r'))
  {
    hide Xor, Shift8, XorByte;
    Shift8IsLinear(Xor(r, x as bv16), Xor(r', x' as bv16));
    XorOfSums(r, r', x, x');
    XorZero(Xor(r, r'));
  }

  /** Two messages that differ in bit i of byte k and in bit j of byte l, and nowhere else. */
  predicate DifferInTwo(m: seq<bv8>, m': seq<bv8>, k: nat, i: nat, l: nat, j: nat) {
    && |m| == |m'| && k < l < |m| && i < 8 && j < 8
    && XorByte(m[k], m'[k]) == Bit(i) && XorByte(m[l], m'[l]) == Bit(j)
    && m[..k] == m'[..k] && m[k + 1..l] == m'[k + 1..l] && m[l + 1..] == m'[l + 1..]
  }

  /** The register at the byte of the second change, and behind it. */
  lemma RegisterParts(r: bv16, m: seq<bv8>, k: nat, l: nat)
    requires k < l < |m|
    ensures Register(r, m)
         == Register(Step(Register(Step(Register(r, m[..k]), m[k]), m[k + 1..l]), m[l]), m[l + 1..])
  {
    hide Register, Step;
    var a, b, c := m[..k], m[k + 1..l], m[l + 1..];
    assert m == a + ([m[k]] + (b + ([m[l]] + c)));
    RegisterConcat(r, a, [m[k]] + (b + ([m[l]] + c)));
    OneByteThen(Register(r, a), m[k], b + ([m[l]] + c));
    RegisterConcat(Step(Register(r, a), m[k]), b, [m[l]] + c);
    OneByteThen(Register(Step(Register(r, a), m[k]), b), m[l], c);
  }

  lemma OneByteThen(r: bv16, x: bv8, m: seq<bv8>)
    ensures Register(r, [x] + m) == Register(Step(r, x), m)
  {
    assert ([x] + m)[1..] == m;
    hide Step;
  }

  /** Two changed bits go unseen exactly when they lie a multiple of 32767 bits apart. */
  lemma TwoBitsAreDetectedIff(m: seq<bv8>, m': seq<bv8>, k: nat, i: nat, l: nat, j: nat)
    requires DifferInTwo(m, m', k, i, l, j)
    ensures Crc(m) == Crc(m') <==> (8 * (l - k) + j - i) % 32767 == 0
  {
    hide Register, Step, WireOrder, XorByte, Bit, Power, Returns;
    var r := Register(INITIAL, m[..k]);
    var b := m[k + 1..l];
    var q, q' := Register(Step(r, m[k]), b), Register(Step(r, m'[k]), b);
    RegisterParts(INITIAL, m, k, l);
    RegisterParts(INITIAL, m', k, l);
    if Crc(m) == Crc(m') {
      WireOrderIsInjective(Register(INITIAL, m), Register(INITIAL, m'));
      RegisterIsInjective(Step(q, m[l]), Step(q', m'[l]), m[l + 1..]);
    }
    BothCancel(r, m[k], m'[k], b, m[l], m'[l], i, j);
    var d := 8 * (l - k) + j - i;
    SamePower(15 - j, d);
    OrderIs32767(d);
  }

  /** Two changed bits that lie less than 32767 bits apart change the CRC. */
  lemma TwoBitsAreDetected(m: seq<bv8>, m': seq<bv8>, k: nat, i: nat, l: nat, j: nat)
    requires DifferInTwo(m, m', k, i, l, j) && 8 * (l - k) + j - i < 32767
    ensures Crc(m) != Crc(m')
  {
    TwoBitsAreDetectedIff(m, m', k, i, l, j);
    hide *;
  }

  /** The second change cancels the first iff the shifts between them lead from the one bit to the other. */
  lemma BothCancel(r: bv16, x: bv8, x': bv8, b: seq<bv8>, y: bv8, y': bv8, i: nat, j: nat)
    requires i < 8 && j < 8 && XorByte(x, x') == Bit(i) && XorByte(y, y') == Bit(j)
    ensures Step(Register(Step(r, x), b), y) == Step(Register(Step(r, x'), b), y')
       <==> Power(15 - i + 8 * (|b| + 1)) == Power(15 - j)
  {
    hide *;
    FirstDifference(r, x, x', i);
    DifferenceShifts(Step(r, x), Step(r, x'), b);
    LastDifference(Register(Step(r, x), b), Register(Step(r, x'), b), y, y', j);
    PowerShifts(15 - i, |b|);
  }

  /** Eight shifts, and eight for each of n bytes. */
  lemma PowerShifts(i: nat, n: nat)
    ensures Shifts(Shift8(Power(i)), 8 * n) == Power(i + 8 * (n + 1))
  {
    hide Shift8, Shifts;
    EightShifts(Power(i));
    ShiftsConcat(Power(i), 8, 8 * n);
    ShiftsConcat(UNIT, i, 8 + 8 * n);
  }

  lemma FirstDifference(r: bv16, x: bv8, x': bv8, i: nat)
    requires i < 8 && XorByte(x, x') == Bit(i)
    ensures Xor(Step(r, x), Step(r, x')) == Shift8(Power(15 - i))
  {
    hide Xor, Shift8, XorByte, Bit, Power;
    Shift8IsLinear(Xor(r, x as bv16), Xor(r, x' as bv16));
    BytesApart(r, x, x');
    BitIsPower(i);
  }

  lemma LastDifference(q: bv16, q': bv16, y: bv8, y': bv8, j: nat)
    requires j < 8 && XorByte(y, y') == Bit(j)
    ensures Step(q, y) == Step(q', y') <==> Xor(q, q') == Power(15 - j)
  {
    hide Xor, Shift8, XorByte, Bit, Power;
    BitIsPower(j);
    if Step(q, y) == Step(q', y') {
      Shift8IsInjective(Xor(q, y as bv16), Xor(q', y' as bv16));
      ByteDifference(q, q', y, y');
    } else if Xor(q, q') == Power(15 - j) {
      SameSums(q, q', y, y');
    }
  }

  lemma SameSums(q: bv16, q': bv16, y: bv8, y': bv8)
    requires Xor(q, q') == XorByte(y, y') as bv16
    ensures Xor(q, y as bv16) == Xor(q', y' as bv16)
  {
  }

  // ---------- the register starts full ----------

  lemma FirstSteps()
    ensures Step(0xFFFF, 0) == 0x40BF && Step(0xFFFF, 0x31) == 0x947E && Step(0x947E, 0x32) == 0xF595
    ensures Step(0xF595, 0x33) == 0x7A75 && Step(0x7A75, 0x34) == 0x30BA
  {
  }

  lemma LastSteps()
    ensures Step(0x30BA, 0x35) == 0xA471 && Step(0xA471, 0x36) == 0x32E4 && Step(0x32E4, 0x37) == 0x9D73
    ensures Step(0x9D73, 0x38) == 0x37DD && Step(0x37DD, 0x39) == 0x4B37
  {
  }

  lemma ByteAt(r: bv16, m: seq<bv8>, k: nat, s: bv16)
    requires k < |m| && Step(r, m[k]) == s
    ensures Register(r, m[k..]) == Register(s, m[k + 1..])
  {
    hide Register, Step;
    assert m[k..] == [m[k]] + m[k + 1..];
    OneByteThen(r, m[k], m[k + 1..]);
  }

  /** The check value of CRC-16/MODBUS: the digits from 1 to 9 give 0x4B37, low byte first. */
  lemma CheckValue()
    ensures Crc([0x31, 0x32, 0x33, 0x34, 0x35, 0x36, 0x37, 0x38, 0x39]) == 0x374B
  {
    hide Register, Step;
    FirstSteps();
    LastSteps();
    var m: seq<bv8> := [0x31, 0x32, 0x33, 0x34, 0x35, 0x36, 0x37, 0x38, 0x39];
    ByteAt(0xFFFF, m, 0, 0x947E);
    ByteAt(0x947E, m, 1, 0xF595);
    ByteAt(0xF595, m, 2, 0x7A75);
    ByteAt(0x7A75, m, 3, 0x30BA);
    ByteAt(0x30BA, m, 4, 0xA471);
    ByteAt(0xA471, m, 5, 0x32E4);
    ByteAt(0x32E4, m, 6, 0x9D73);
    ByteAt(0x9D73, m, 7, 0x37DD);
    ByteAt(0x37DD, m, 8, 0x4B37);
    assert m[0..] == m && m[9..] == [];
    RegisterStep(0x4B37, []);
  }

  /** A zero byte put in front changes the CRC. */
  lemma LeadingZeroIsSeen(m: seq<bv8>)
    ensures Crc([0] + m) != Crc(m)
  {
    hide Register, Step, WireOrder;
    FirstSteps();
    OneByteThen(INITIAL, 0, m);
    if Crc([0] + m) == Crc(m) {
      WireOrderIsInjective(Register(INITIAL, [0] + m), Register(INITIAL, m));
      RegisterIsInjective(Step(INITIAL, 0), INITIAL, m);
    }
  }
}
