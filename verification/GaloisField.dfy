/** The field of gf256_mul (generators/kuzn.c:113-122): bytes as polynomials over GF(2), multiplied
    modulo p(x) = x^8 + x^7 + x^6 + x + 1. */
module GaloisField {

  // ----- Addition and multiplication of polynomials of degree at most 15 -----

  const P: bv16 := 0x1C3

  function Xor(x: bv16, y: bv16): bv16 { x ^ y }

  function Odd(b: bv16): bool { b & 1 == 1 }

  function Double(x: bv16): bv16 { x << 1 }

  function Half(x: bv16): (h: bv16)
    ensures x != 0 ==> h < x
  {
    x >> 1
  }

  function Pick(c: bool, a: bv16): bv16 { if c then a else 0 }

  /** The carryless product. */
  function Carryless(a: bv16, b: bv16): bv16
    decreases b
  {
    if b == 0 then 0 else Xor(Pick(Odd(b), a), Carryless(Double(a), Half(b)))
  }

  lemma XorZero(x: bv16)
    ensures Xor(x, 0) == x && Xor(0, x) == x && Xor(x, x) == 0
  {
  }

  lemma XorCommutes(x: bv16, y: bv16)
    ensures Xor(x, y) == Xor(y, x)
  {
  }

  lemma XorAssociates(x: bv16, y: bv16, z: bv16)
    ensures Xor(Xor(x, y), z) == Xor(x, Xor(y, z))
  {
  }

  lemma Exchange(a: bv16, b: bv16, c: bv16, d: bv16)
    ensures Xor(Xor(a, b), Xor(c, d)) == Xor(Xor(a, c), Xor(b, d))
  {
    hide Xor;
    XorAssociates(a, b, Xor(c, d));
    XorAssociates(b, c, d);
    XorCommutes(b, c);
    XorAssociates(c, b, d);
    XorAssociates(a, c, Xor(b, d));
  }

  lemma DoubleXor(x: bv16, y: bv16)
    ensures Double(Xor(x, y)) == Xor(Double(x), Double(y))
  {
  }

  lemma HalfXor(x: bv16, y: bv16)
    ensures Half(Xor(x, y)) == Xor(Half(x), Half(y))
  {
  }

  lemma OddXor(x: bv16, y: bv16)
    ensures Odd(Xor(x, y)) == (Odd(x) != Odd(y))
  {
  }

  lemma PickXor(c: bool, d: bool, a: bv16)
    ensures Xor(Pick(c, a), Pick(d, a)) == Pick(c != d, a)
  {
    hide Xor;
    XorZero(a);
    XorZero(0);
  }

  lemma PickOfXor(c: bool, a: bv16, d: bv16)
    ensures Xor(Pick(c, a), Pick(c, d)) == Pick(c, Xor(a, d))
  {
    hide Xor;
    XorZero(0);
  }

  lemma CarrylessUnfold(a: bv16, b: bv16)
    ensures Carryless(a, b) == Xor(Pick(Odd(b), a), Carryless(Double(a), Half(b)))
  {
    hide Xor;
    XorZero(0);
    assert Half(0) == 0 && !Odd(0);
  }

  lemma {:induction false} CarrylessXorLeft(a: bv16, d: bv16, b: bv16)
    ensures Carryless(Xor(a, d), b) == Xor(Carryless(a, b), Carryless(d, b))
    decreases b
  {
    hide Xor, Odd, Double, Half, Pick;
    if b == 0 {
      XorZero(0);
    } else {
      CarrylessXorLeft(Double(a), Double(d), Half(b));
      DoubleXor(a, d);
      PickOfXor(Odd(b), a, d);
      Exchange(Pick(Odd(b), a), Carryless(Double(a), Half(b)), Pick(Odd(b), d), Carryless(Double(d), Half(b)));
    }
  }

  lemma {:induction false} CarrylessXorRight(a: bv16, b: bv16, c: bv16)
    ensures Carryless(a, Xor(b, c)) == Xor(Carryless(a, b), Carryless(a, c))
    decreases b, c
  {
    hide Carryless, Xor, Odd, Double, Half, Pick;
    if b == 0 {
      XorZero(c);
      CarrylessZero(a);
      XorZero(Carryless(a, c));
    } else {
      CarrylessXorRight(Double(a), Half(b), Half(c));
      CarrylessUnfold(a, b);
      CarrylessUnfold(a, c);
      CarrylessUnfold(a, Xor(b, c));
      HalfXor(b, c);
      OddXor(b, c);
      PickXor(Odd(b), Odd(c), a);
      Exchange(Pick(Odd(b), a), Carryless(Double(a), Half(b)), Pick(Odd(c), a), Carryless(Double(a), Half(c)));
    }
  }

  lemma CarrylessZero(a: bv16)
    ensures Carryless(a, 0) == 0
  {
  }

  // ----- The field product -----

  /** a := (a << 1) ^ (a & 0x80 ? 0xC3 : 0x00), multiplication by x. */
  function TimesX(a: bv8): bv8 {
    (a << 1) ^ (if a & 0x80 != 0 then 0xC3 else 0)
  }

  function Add(a: bv8, b: bv8): bv8 { a ^ b }

  function Low(b: bv8): bool { b & 1 == 1 }

  function Shift(b: bv8): (h: bv8)
    ensures b != 0 ==> h < b
  {
    b >> 1
  }

  function Select(c: bool, a: bv8): bv8 { if c then a else 0 }

  function Multiply(a: bv8, b: bv8): bv8
    decreases b
  {
    if b == 0 then 0 else Add(Select(Low(b), a), Multiply(TimesX(a), Shift(b)))
  }

  function Wide(a: bv8): (w: bv16)
    ensures w < 0x100
  {
    a as bv16
  }

  lemma WideLaws(a: bv8, b: bv8)
    ensures Wide(Add(a, b)) == Xor(Wide(a), Wide(b))
  {
  }

  lemma WideShift(b: bv8)
    ensures Wide(Shift(b)) == Half(Wide(b)) < 0x80 && Odd(Wide(b)) == Low(b) && (Wide(b) == 0 <==> b == 0)
  {
  }

  lemma WideTimesX(a: bv8)
    ensures Wide(TimesX(a)) == Xor(Double(Wide(a)), Pick(a & 0x80 != 0, P))
  {
  }

  lemma XorSmall(x: bv16, y: bv16)
    requires x < 0x80 && y < 0x80
    ensures Xor(x, y) < 0x80
  {
  }

  /** The result differs from the carryless product by a multiple of p. */
  lemma {:induction false} MultiplyReduces(a: bv8, b: bv8) returns (q: bv16)
    ensures q < 0x80 && Wide(Multiply(a, b)) == Xor(Carryless(Wide(a), Wide(b)), Carryless(P, q))
    decreases b
  {
    hide Xor, Odd, Double, Half, Pick, Add, Low, Shift, Wide, TimesX, Carryless;
    WideShift(b);
    CarrylessZero(P);
    CarrylessZero(Wide(a));
    XorZero(0);
    if b == 0 {
      q := 0;
    } else {
      var q' := MultiplyReduces(TimesX(a), Shift(b));
      q := Reassociate(a, b, q');
    }
  }

  lemma Reassociate(a: bv8, b: bv8, q': bv16) returns (q: bv16)
    requires q' < 0x80 && b != 0
    requires Wide(Multiply(TimesX(a), Shift(b)))
          == Xor(Carryless(Wide(TimesX(a)), Wide(Shift(b))), Carryless(P, q'))
    ensures q < 0x80 && Wide(Multiply(a, b)) == Xor(Carryless(Wide(a), Wide(b)), Carryless(P, q))
  {
    hide Xor, Odd, Double, Half, Add, Low, Shift, Wide, TimesX, Carryless;
    var h := Wide(Shift(b));
    var over := a & 0x80 != 0;
    WideShift(b);
    WideLaws(Select(Low(b), a), Multiply(TimesX(a), Shift(b)));
    WideTimesX(a);
    CarrylessXorLeft(Double(Wide(a)), Pick(over, P), h);
    CarrylessUnfold(Wide(a), Wide(b));
    assert Wide(Select(Low(b), a)) == Pick(Low(b), Wide(a)) by {
      WideShift(0);
    }
    assert Carryless(Pick(over, P), h) == Carryless(P, Pick(over, h)) by {
      CarrylessZero(P);
      CarrylessOfZero(h);
    }
    q := Xor(Pick(over, h), q');
    XorSmall(Pick(over, h), q');
    CarrylessXorRight(P, Pick(over, h), q');
    XorAssociates(Carryless(Double(Wide(a)), h), Carryless(P, Pick(over, h)), Carryless(P, q'));
    XorAssociates(Pick(Low(b), Wide(a)), Carryless(Double(Wide(a)), h), Carryless(P, q));
  }

  lemma {:induction false} CarrylessOfZero(b: bv16)
    ensures Carryless(0, b) == 0
    decreases b
  {
    hide Odd, Half;
    if b != 0 {
      CarrylessOfZero(Half(b));
    }
  }

  // ----- A nonzero multiple of p has degree at least 8, so the reduced product is unique -----

  /** top is the leading term of a. */
  predicate Leads(top: bv16, a: bv16) {
    top != 0 && top & (top - 1) == 0 && top <= a && (a >> 1) < top
  }

  /** Multiplying a polynomial that `top` leads by q stays within 16 bits. */
  predicate Fits(top: bv16, q: bv16)
    decreases q
  {
    q <= 1 || (top < 0x8000 && Fits(Double(top), Half(q)))
  }

  lemma DoubleLeads(top: bv16, a: bv16)
    requires Leads(top, a) && top < 0x8000
    ensures Leads(Double(top), Double(a))
  {
  }

  lemma LeadSurvives(top: bv16, a: bv16, c: bv16)
    requires Leads(top, a) && top < 0x8000 && Double(top) <= c
    ensures top <= Xor(a, c)
  {
  }

  lemma {:induction false} MultipleLarge(top: bv16, a: bv16, q: bv16)
    requires Leads(top, a) && Fits(top, q) && q != 0
    ensures top <= Carryless(a, q)
    decreases q
  {
    hide Xor, Double, Half, Leads, Carryless;
    CarrylessUnfold(a, q);
    if q == 1 {
      assert Half(1) == 0;
      CarrylessZero(Double(a));
      XorZero(a);
      assert top <= a by {
        LeadBelow(top, a);
      }
    } else {
      HalfPositive(q);
      DoubleLeads(top, a);
      MultipleLarge(Double(top), Double(a), Half(q));
      var c := Carryless(Double(a), Half(q));
      LeadSurvives(top, a, c);
      XorZero(c);
      DoubleGrows(top, a);
    }
  }

  lemma LeadBelow(top: bv16, a: bv16)
    requires Leads(top, a)
    ensures top <= a
  {
  }

  lemma DoubleGrows(top: bv16, a: bv16)
    requires Leads(top, a) && top < 0x8000
    ensures top <= Double(top)
  {
  }

  lemma HalfPositive(q: bv16)
    requires q > 1
    ensures Half(q) != 0
  {
  }

  lemma SevenFit(q: bv16)
    requires q < 0x80
    ensures Fits(0x100, q)
  {
    assert Double(0x100) == 0x200 && Double(0x200) == 0x400 && Double(0x400) == 0x800;
    assert Double(0x800) == 0x1000 && Double(0x1000) == 0x2000 && Double(0x2000) == 0x4000;
    var q1 := Half(q);
    var q2 := Half(q1);
    var q3 := Half(q2);
    var q4 := Half(q3);
    var q5 := Half(q4);
    assert Half(q5) <= 1;
    assert Fits(0x4000, Half(q5));
    assert Fits(0x2000, q5);
    assert Fits(0x1000, q4);
    assert Fits(0x800, q3);
    assert Fits(0x400, q2);
    assert Fits(0x200, q1);
  }

  /** A remainder of degree below 8 is unique, for every divisor of degree 8. */
  lemma RemainderUnique(p: bv16, c: bv16, q: bv16, q': bv16, r: bv16, r': bv16)
    requires Leads(0x100, p) && q < 0x80 && q' < 0x80 && r < 0x100 && r' < 0x100
    requires r == Xor(c, Carryless(p, q)) && r' == Xor(c, Carryless(p, q'))
    ensures r == r'
  {
    hide Xor, Carryless, Fits, Leads;
    Exchange(c, Carryless(p, q), c, Carryless(p, q'));
    XorZero(c);
    XorZero(Carryless(p, Xor(q, q')));
    CarrylessXorRight(p, q, q');
    assert Xor(r, r') == Carryless(p, Xor(q, q'));
    XorSmall(q, q');
    XorBelow(r, r');
    SevenFit(Xor(q, q'));
    if Xor(q, q') != 0 {
      MultipleLarge(0x100, p, Xor(q, q'));
      assert false;
    }
    CarrylessZero(p);
    XorEqual(r, r');
  }

  /** Multiply(a, b) is the remainder of the carryless product modulo p: the only polynomial of degree
      below 8 that differs from it by a multiple of p. */
  lemma MultiplyIsProduct(a: bv8, b: bv8, r: bv16)
    ensures r == Wide(Multiply(a, b))
       <==> r < 0x100 && exists q: bv16 :: q < 0x80 && r == Xor(Carryless(Wide(a), Wide(b)), Carryless(P, q))
  {
    hide Xor, Carryless, Multiply, Wide;
    var c, w := Carryless(Wide(a), Wide(b)), Wide(Multiply(a, b));
    var q := MultiplyReduces(a, b);
    WideSmall(Multiply(a, b));
    if r < 0x100 && exists q': bv16 :: q' < 0x80 && r == Xor(c, Carryless(P, q')) {
      var q': bv16 :| q' < 0x80 && r == Xor(c, Carryless(P, q'));
      RemainderUnique(P, c, q, q', w, r);
    }
  }

  lemma WideSmall(a: bv8)
    ensures Wide(a) < 0x100
  {
  }

  lemma XorBelow(x: bv16, y: bv16)
    requires x < 0x100 && y < 0x100
    ensures Xor(x, y) < 0x100
  {
  }

  lemma XorEqual(x: bv16, y: bv16)
    requires Xor(x, y) == 0
    ensures x == y
  {
  }

  // ----- Distributivity and the loop -----

  lemma AddZero(a: bv8)
    ensures Add(a, 0) == a && Add(0, a) == a
  {
  }

  lemma AddAssociates(a: bv8, b: bv8, c: bv8)
    ensures Add(Add(a, b), c) == Add(a, Add(b, c))
  {
  }

  lemma AddCommutes(a: bv8, b: bv8)
    ensures Add(a, b) == Add(b, a)
  {
  }

  lemma AddExchange(a: bv8, b: bv8, c: bv8, d: bv8)
    ensures Add(Add(a, b), Add(c, d)) == Add(Add(a, c), Add(b, d))
  {
    hide Add;
    AddAssociates(a, b, Add(c, d));
    AddAssociates(b, c, d);
    AddCommutes(b, c);
    AddAssociates(c, b, d);
    AddAssociates(a, c, Add(b, d));
  }

  lemma MultiplyUnfold(a: bv8, b: bv8)
    ensures Multiply(a, b) == Add(Select(Low(b), a), Multiply(TimesX(a), Shift(b)))
  {
    hide Add, TimesX;
    AddZero(0);
    assert Shift(0) == 0 && !Low(0);
  }

  lemma ShiftAdd(b: bv8, c: bv8)
    ensures Shift(Add(b, c)) == Add(Shift(b), Shift(c))
  {
  }

  lemma LowAdd(b: bv8, c: bv8)
    ensures Low(Add(b, c)) == (Low(b) != Low(c))
  {
  }

  lemma SelectAdd(c: bool, d: bool, a: bv8)
    ensures Add(Select(c, a), Select(d, a)) == Select(c != d, a)
  {
  }

  /** Multiplication distributes over addition, which is XOR. */
  lemma {:induction false} MultiplyDistributes(a: bv8, b: bv8, c: bv8)
    ensures Multiply(a, Add(b, c)) == Add(Multiply(a, b), Multiply(a, c))
    decreases b, c
  {
    hide Multiply, Add, Select, Low, Shift, TimesX;
    if b == 0 {
      AddZero(c);
      MultiplyZero(a);
      AddZero(Multiply(a, c));
    } else {
      MultiplyDistributes(TimesX(a), Shift(b), Shift(c));
      MultiplyUnfold(a, b);
      MultiplyUnfold(a, c);
      MultiplyUnfold(a, Add(b, c));
      ShiftAdd(b, c);
      LowAdd(b, c);
      SelectAdd(Low(b), Low(c), a);
      AddExchange(Select(Low(b), a), Multiply(TimesX(a), Shift(b)), Select(Low(c), a), Multiply(TimesX(a), Shift(c)));
    }
  }

  lemma MultiplyZero(a: bv8)
    ensures Multiply(a, 0) == 0
  {
  }

  lemma {:induction false} MultiplyOfZero(b: bv8)
    ensures Multiply(0, b) == 0
    decreases b
  {
    hide Low, Shift;
    if b != 0 {
      MultiplyOfZero(Shift(b));
    }
  }

  /** gf256_mul: the loop stops as soon as a or b reaches 0. */
  method Gf256Mul(a: bv8, b: bv8) returns (result: bv8)
    ensures result == Multiply(a, b)
  {
    hide Multiply, Add, Low, Shift, TimesX;
    var x, y := a, b;
    result := 0;
    AddZero(Multiply(a, b));
    while x != 0 && y != 0
      invariant Multiply(a, b) == Add(result, Multiply(x, y))
      decreases y
    {
      MultiplyUnfold(x, y);
      AddAssociates(result, Select(Low(y), x), Multiply(TimesX(x), Shift(y)));
      AddZero(result);
      if Low(y) {
        result := Add(result, x);
      }
      x := TimesX(x);
      y := Shift(y);
    }
    MultiplyZero(x);
    MultiplyOfZero(y);
    AddZero(result);
  }

  // ----- The other ring laws -----

  function Top(a: bv8): bool { a & 0x80 != 0 }

  function Left(a: bv8): bv8 { a << 1 }

  lemma TopAdd(a: bv8, b: bv8)
    ensures Top(Add(a, b)) == (Top(a) != Top(b))
  {
  }

  lemma LeftAdd(a: bv8, b: bv8)
    ensures Left(Add(a, b)) == Add(Left(a), Left(b))
  {
  }

  lemma TimesXParts(a: bv8)
    ensures TimesX(a) == Add(Left(a), Select(Top(a), 0xC3))
  {
  }

  lemma TimesXAdd(a: bv8, b: bv8)
    ensures TimesX(Add(a, b)) == Add(TimesX(a), TimesX(b))
  {
    hide Add, TimesX, Select, Top, Left;
    TimesXParts(a);
    TimesXParts(b);
    TimesXParts(Add(a, b));
    TopAdd(a, b);
    LeftAdd(a, b);
    SelectAdd(Top(a), Top(b), 0xC3);
    AddExchange(Left(a), Select(Top(a), 0xC3), Left(b), Select(Top(b), 0xC3));
  }

  lemma TimesXSelect(c: bool, a: bv8)
    ensures TimesX(Select(c, a)) == Select(c, TimesX(a))
  {
  }

  /** Multiplication by x may be done before or after. */
  lemma {:induction false} MultiplyOfTimesX(a: bv8, b: bv8)
    ensures Multiply(TimesX(a), b) == TimesX(Multiply(a, b))
    decreases b
  {
    hide Add, TimesX, Select, Low, Shift, Multiply;
    if b == 0 {
      MultiplyZero(a);
      MultiplyZero(TimesX(a));
      TimesXZero();
    } else {
      MultiplyUnfold(a, b);
      MultiplyUnfold(TimesX(a), b);
      MultiplyOfTimesX(TimesX(a), Shift(b));
      TimesXSelect(Low(b), a);
      TimesXAdd(Select(Low(b), a), Multiply(TimesX(a), Shift(b)));
    }
  }

  lemma TimesXZero()
    ensures TimesX(0) == 0
  {
  }

  /** The product written out: the multiples of a by powers of x that the bits of b select. */
  function Expanded(a: bv8, b: bv8): bv8 {
    var p1 := TimesX(a);
    var p2 := TimesX(p1);
    var p3 := TimesX(p2);
    var p4 := TimesX(p3);
    var p5 := TimesX(p4);
    var p6 := TimesX(p5);
    var p7 := TimesX(p6);
    var b1 := Shift(b);
    var b2 := Shift(b1);
    var b3 := Shift(b2);
    var b4 := Shift(b3);
    var b5 := Shift(b4);
    var b6 := Shift(b5);
    var b7 := Shift(b6);
    Add(Select(Low(b), a), Add(Select(Low(b1), p1), Add(Select(Low(b2), p2), Add(Select(Low(b3), p3),
    Add(Select(Low(b4), p4), Add(Select(Low(b5), p5), Add(Select(Low(b6), p6), Select(Low(b7), p7))))))))
  }

  lemma ShiftedOut(b: bv8)
    ensures Shift(Shift(Shift(Shift(Shift(Shift(Shift(Shift(b)))))))) == 0
  {
  }

  lemma ExpandedIsMultiply(a: bv8, b: bv8)
    ensures Expanded(a, b) == Multiply(a, b)
  {
    hide Add, TimesX, Select, Low, Shift, Multiply;
    MultiplyUnfold(a, b);
    var p1, b1 := TimesX(a), Shift(b);
    MultiplyUnfold(p1, b1);
    var p2, b2 := TimesX(p1), Shift(b1);
    MultiplyUnfold(p2, b2);
    var p3, b3 := TimesX(p2), Shift(b2);
    MultiplyUnfold(p3, b3);
    var p4, b4 := TimesX(p3), Shift(b3);
    MultiplyUnfold(p4, b4);
    var p5, b5 := TimesX(p4), Shift(b4);
    MultiplyUnfold(p5, b5);
    var p6, b6 := TimesX(p5), Shift(b5);
    MultiplyUnfold(p6, b6);
    var p7, b7 := TimesX(p6), Shift(b6);
    MultiplyUnfold(p7, b7);
    ShiftedOut(b);
    MultiplyZero(TimesX(p7));
    AddZero(Select(Low(b7), p7));
  }

  /** x^8 is x^7 + x^6 + x + 1. */
  lemma EighthPower(a: bv8)
    ensures Expanded(a, 0xC3) == Expanded(TimesX(a), 0x80)
  {
  }

  lemma SplitTop(b: bv8)
    ensures b == Add(b & 0x7F, Select(Top(b), 0x80))
    ensures TimesX(b) == Add(Left(b & 0x7F), Select(Top(b), 0xC3))
    ensures !Low(Left(b & 0x7F)) && Shift(Left(b & 0x7F)) == b & 0x7F
  {
  }

  lemma MultiplySelect(a: bv8, c: bool, b: bv8)
    ensures Multiply(a, Select(c, b)) == Select(c, Multiply(a, b))
  {
    hide Multiply;
    MultiplyZero(a);
  }

  /** Multiplication by x may move from one factor to the other. */
  lemma MultiplyByTimesX(a: bv8, b: bv8)
    ensures Multiply(a, TimesX(b)) == Multiply(TimesX(a), b)
  {
    hide Add, TimesX, Select, Low, Shift, Multiply, Left, Top, Expanded;
    var c, t := b & 0x7F, Top(b);
    SplitTop(b);
    MultiplyDistributes(a, Left(c), Select(t, 0xC3));
    MultiplyDistributes(TimesX(a), c, Select(t, 0x80));
    MultiplySelect(a, t, 0xC3);
    MultiplySelect(TimesX(a), t, 0x80);
    ExpandedIsMultiply(a, 0xC3);
    ExpandedIsMultiply(TimesX(a), 0x80);
    EighthPower(a);
    MultiplyUnfold(a, Left(c));
    SelectNone(a);
    AddZero(Multiply(TimesX(a), c));
  }

  lemma SelectNone(a: bv8)
    ensures Select(false, a) == 0
  {
  }

  lemma {:induction false} MultiplyAssociates(a: bv8, b: bv8, c: bv8)
    ensures Multiply(a, Multiply(b, c)) == Multiply(Multiply(a, b), c)
    decreases c
  {
    hide Add, TimesX, Select, Low, Shift, Multiply;
    if c == 0 {
      MultiplyZero(b);
      MultiplyZero(a);
      MultiplyZero(Multiply(a, b));
    } else {
      MultiplyUnfold(b, c);
      MultiplyDistributes(a, Select(Low(c), b), Multiply(TimesX(b), Shift(c)));
      MultiplySelect(a, Low(c), b);
      MultiplyAssociates(a, TimesX(b), Shift(c));
      MultiplyByTimesX(a, b);
      MultiplyOfTimesX(a, b);
      MultiplyUnfold(Multiply(a, b), c);
    }
  }

  /** Multiplication also distributes over addition in its first factor. */
  lemma {:induction false} MultiplyDistributesLeft(a: bv8, d: bv8, b: bv8)
    ensures Multiply(Add(a, d), b) == Add(Multiply(a, b), Multiply(d, b))
    decreases b
  {
    hide Add, TimesX, Select, Low, Shift, Multiply;
    if b == 0 {
      MultiplyZero(Add(a, d));
      MultiplyZero(a);
      MultiplyZero(d);
      AddZero(0);
    } else {
      MultiplyUnfold(Add(a, d), b);
      MultiplyUnfold(a, b);
      MultiplyUnfold(d, b);
      MultiplyDistributesLeft(TimesX(a), TimesX(d), Shift(b));
      TimesXAdd(a, d);
      SelectOfAdd(Low(b), a, d);
      AddExchange(Select(Low(b), a), Multiply(TimesX(a), Shift(b)), Select(Low(b), d), Multiply(TimesX(d), Shift(b)));
    }
  }

  lemma SelectOfAdd(c: bool, a: bv8, d: bv8)
    ensures Select(c, Add(a, d)) == Add(Select(c, a), Select(c, d))
  {
    hide Add;
    AddZero(0);
  }
}
