/** Two flipped bits: the powers of x modulo the generator repeat after 32767 steps. */
module CrcPeriod {
  import opened Arithmetic
  import opened Crc16
  import opened CrcErrors

  // ------------------------------------------------------- sums of powers of x

  // A polynomial over two elements, as the exponents of its terms. Two equal terms cancel.
  datatype Poly = Nil | Term(exponent: nat, rest: Poly)

  // The polynomial times a word.
  function Sum(p: Poly, w: Word): Word {
    match p case Nil => ZERO case Term(e, rest) => Xor(Shifts(w, e), Sum(rest, w))
  }

  function Append(p: Poly, q: Poly): Poly {
    match p case Nil => q case Term(e, rest) => Term(e, Append(rest, q))
  }

  function Raised(p: Poly, n: nat): Poly {
    match p case Nil => Nil case Term(e, rest) => Term(e + n, Raised(rest, n))
  }

  function Times(p: Poly, q: Poly): Poly {
    match p case Nil => Nil case Term(e, rest) => Append(Raised(q, e), Times(rest, q))
  }

  // The square has no mixed terms.
  function Square(p: Poly): Poly {
    match p case Nil => Nil case Term(e, rest) => Term(2 * e, Square(rest))
  }

  lemma XorLaws(a: Word, b: Word, c: Word, d: Word)
    ensures Xor(ZERO, a) == a && Xor(a, ZERO) == a && Xor(a, a) == ZERO
    ensures Xor(Xor(a, b), c) == Xor(a, Xor(b, c))
    ensures Xor(Xor(a, b), Xor(c, d)) == Xor(Xor(a, c), Xor(b, d))
  {
  }

  lemma {:induction false} SumXor(p: Poly, u: Word, v: Word)
    ensures Sum(p, Xor(u, v)) == Xor(Sum(p, u), Sum(p, v))
  {
    hide Xor, Shifts;
    match p
    case Nil => XorLaws(ZERO, ZERO, ZERO, ZERO);
    case Term(e, rest) =>
      SumXor(rest, u, v);
      ShiftsLinear(u, v, e);
      XorLaws(Shifts(u, e), Shifts(v, e), Sum(rest, u), Sum(rest, v));
  }

  lemma {:induction false} SumShifts(p: Poly, w: Word, n: nat)
    ensures Sum(p, Shifts(w, n)) == Shifts(Sum(p, w), n)
  {
    hide Xor, Shifts;
    match p
    case Nil => ShiftsZero(n);
    case Term(e, rest) =>
      SumShifts(rest, w, n);
      ShiftsAdd(w, n, e);
      ShiftsAdd(w, e, n);
      ShiftsLinear(Shifts(w, e), Sum(rest, w), n);
  }

  lemma {:induction false} SumAppend(p: Poly, q: Poly, w: Word)
    ensures Sum(Append(p, q), w) == Xor(Sum(p, w), Sum(q, w))
  {
    hide Xor, Shifts;
    match p
    case Nil => XorLaws(Sum(q, w), ZERO, ZERO, ZERO);
    case Term(e, rest) =>
      SumAppend(rest, q, w);
      XorLaws(Shifts(w, e), Sum(rest, w), Sum(q, w), ZERO);
  }

  lemma {:induction false} SumRaised(p: Poly, n: nat, w: Word)
    ensures Sum(Raised(p, n), w) == Shifts(Sum(p, w), n)
  {
    hide Xor, Shifts;
    match p
    case Nil => ShiftsZero(n);
    case Term(e, rest) =>
      SumRaised(rest, n, w);
      ShiftsAdd(w, e, n);
      ShiftsLinear(Shifts(w, e), Sum(rest, w), n);
  }

  lemma {:induction false} SumTimes(p: Poly, q: Poly, w: Word)
    ensures Sum(Times(p, q), w) == Sum(p, Sum(q, w))
  {
    hide Xor, Shifts;
    match p
    case Nil =>
    case Term(e, rest) =>
      SumTimes(rest, q, w);
      SumRaised(q, e, w);
      SumAppend(Raised(q, e), Times(rest, q), w);
  }

  lemma {:induction false} SumSquare(p: Poly, w: Word)
    ensures Sum(p, Sum(p, w)) == Sum(Square(p), w)
  {
    hide Xor, Shifts;
    match p
    case Nil =>
    case Term(e, rest) =>
      var a, s := Shifts(w, e), Sum(rest, w);
      SumSquare(rest, w);
      SumXor(rest, a, s);
      SumShifts(rest, w, e);
      ShiftsLinear(a, s, e);
      ShiftsAdd(w, e, e);
      XorLaws(Shifts(a, e), Shifts(s, e), Shifts(s, e), Sum(rest, s));
      Cancel(Shifts(a, e), Shifts(s, e), Sum(rest, s));
  }

  lemma Cancel(a: Word, b: Word, c: Word)
    ensures Xor(Xor(a, b), Xor(b, c)) == Xor(a, c)
  {
  }

  // -------------------------------------------- modulo x^15 + x + 1, that is, on x + 1

  const BASE: Word := Zeros(14) + [true, true]

  // x^n agrees with the polynomial.
  ghost predicate Power(n: nat, p: Poly) { Shifts(BASE, n) == Sum(p, BASE) }

  lemma BaseFifteen()
    ensures Shifts(BASE, 15) == Xor(Shifts(BASE, 1), BASE)
  {
    hide Shifts;
    ShiftsPlain(BASE, 14);
    ShiftsPlain(BASE, 1);
    var c: Word := BASE[14..] + Zeros(14);
    ShiftsAdd(BASE, 14, 1);
    OneShift(c);
    assert ShiftLeft(c) == [true] + Zeros(15);
  }

  lemma OneShift(c: Word)
    ensures Shifts(c, 1) == Shift(c)
  {
  }

  // Exponents from 15 on are replaced once.
  function Reduced(p: Poly): Poly {
    match p
    case Nil => Nil
    case Term(e, rest) =>
      if e < 15 then Term(e, Reduced(rest)) else Term(e - 14, Term(e - 15, Reduced(rest)))
  }

  lemma {:induction false} SumReduced(p: Poly)
    ensures Sum(Reduced(p), BASE) == Sum(p, BASE)
  {
    hide Xor, Shifts;
    match p
    case Nil =>
    case Term(e, rest) =>
      SumReduced(rest);
      if e >= 15 {
        var t := e - 15;
        BaseFifteen();
        ShiftsAdd(BASE, 15, t);
        ShiftsAdd(BASE, 1, t);
        ShiftsLinear(Shifts(BASE, 1), BASE, t);
        XorLaws(Shifts(BASE, t + 1), Shifts(BASE, t), Sum(rest, BASE), ZERO);
      }
  }

  // Whether an odd number of the terms has the exponent.
  function Coefficient(p: Poly, k: int): bool {
    match p case Nil => false case Term(e, rest) => (e == k) != Coefficient(rest, k)
  }

  predicate Low(p: Poly) { p.Term? ==> p.exponent < 15 && Low(p.rest) }

  lemma ShiftedBase(e: nat, i: nat)
    requires e < 15 && i < 16
    ensures Shifts(BASE, e)[i] <==> i == 15 - e || i == 14 - e
  {
    hide Shifts;
    ShiftsPlain(BASE, e);
  }

  lemma {:induction false} SumBit(p: Poly, i: nat)
    requires Low(p) && i < 16
    ensures Sum(p, BASE)[i] == (Coefficient(p, 15 - i) != Coefficient(p, 14 - i))
  {
    hide Shifts;
    match p
    case Nil =>
    case Term(e, rest) =>
      SumBit(rest, i);
      ShiftedBase(e, i);
  }

  predicate Agree(p: Poly, q: Poly, k: int) { Coefficient(p, k) == Coefficient(q, k) }

  // The terms up to x^14 are the same.
  predicate SameTerms(p: Poly, q: Poly) {
    && Agree(p, q, 0) && Agree(p, q, 1) && Agree(p, q, 2) && Agree(p, q, 3) && Agree(p, q, 4)
    && Agree(p, q, 5) && Agree(p, q, 6) && Agree(p, q, 7) && Agree(p, q, 8) && Agree(p, q, 9)
    && Agree(p, q, 10) && Agree(p, q, 11) && Agree(p, q, 12) && Agree(p, q, 13) && Agree(p, q, 14)
  }

  lemma {:induction false} NoHighTerms(p: Poly, k: int)
    requires Low(p) && (k < 0 || k >= 15)
    ensures !Coefficient(p, k)
  {
    if p.Term? { NoHighTerms(p.rest, k); }
  }

  lemma SameSum(p: Poly, q: Poly)
    requires Low(p) && Low(q) && SameTerms(p, q)
    ensures Sum(p, BASE) == Sum(q, BASE)
  {
    hide Sum, Coefficient, Low;
    forall k: int ensures Agree(p, q, k) {
      if k < 0 || k > 14 {
        NoHighTerms(p, k);
        NoHighTerms(q, k);
      }
    }
    hide SameTerms;
    forall i | 0 <= i < 16 ensures Sum(p, BASE)[i] == Sum(q, BASE)[i] {
      SumBit(p, i);
      SumBit(q, i);
      assert Agree(p, q, 15 - i) && Agree(p, q, 14 - i);
    }
  }

  // After replacing high exponents once, and cancelling, p has the terms of q.
  predicate Simplifies(p: Poly, q: Poly) { Low(Reduced(p)) && Low(q) && SameTerms(Reduced(p), q) }

  lemma SimplifiedSum(p: Poly, q: Poly)
    requires Simplifies(p, q)
    ensures Sum(p, BASE) == Sum(q, BASE)
  {
    hide Sum, Low, SameTerms, Reduced;
    SameSum(Reduced(p), q);
    SumReduced(p);
  }

  lemma PowerSquare(n: nat, p: Poly, q: Poly)
    requires Power(n, p) && Simplifies(Square(p), q)
    ensures Power(2 * n, q)
  {
    hide Sum, Shifts, Simplifies, Square;
    SimplifiedSum(Square(p), q);
    SumSquare(p, BASE);
    SumShifts(p, BASE, n);
    ShiftsAdd(BASE, n, n);
  }

  lemma PowerProduct(m: nat, p: Poly, n: nat, q: Poly)
    requires Power(m, p) && Power(n, q)
    ensures Power(m + n, Times(p, q))
  {
    hide Sum, Shifts, Times;
    SumTimes(p, q, BASE);
    SumShifts(p, BASE, n);
    ShiftsAdd(BASE, m, n);
  }

  lemma PowerTimes(m: nat, p: Poly, n: nat, q: Poly, r: Poly)
    requires Power(m, p) && Power(n, q) && Simplifies(Times(p, q), r)
    ensures Power(m + n, r)
  {
    hide Sum, Shifts, Simplifies, Times;
    PowerProduct(m, p, n, q);
    SimplifiedSum(Times(p, q), r);
  }

  lemma PowerOne(n: nat)
    ensures Power(n, Term(n, Nil))
  {
    hide Shifts, Xor;
    assert Sum(Nil, BASE) == ZERO;
    XorLaws(Shifts(BASE, n), ZERO, ZERO, ZERO);
  }

  // ------------------------------------------------------------ powers of x

  // What x to some powers is, modulo x^15 + x + 1.
  const X1: Poly := Term(1, Nil)
  const X2: Poly := Term(2, Nil)
  const X4: Poly := Term(4, Nil)
  const X8: Poly := Term(8, Nil)
  const X16: Poly := Term(2, Term(1, Nil))
  const X32: Poly := Term(4, Term(2, Nil))
  const X64: Poly := Term(8, Term(4, Nil))
  const X128: Poly := Term(8, Term(2, Term(1, Nil)))
  const X256: Poly := Term(4, Term(1, Nil))
  const X512: Poly := Term(8, Term(2, Nil))
  const X1024: Poly := Term(4, Term(2, Term(1, Nil)))
  const X2048: Poly := Term(8, Term(4, Term(2, Nil)))
  const X4096: Poly := Term(8, Term(4, Term(2, Term(1, Nil))))
  const X8192: Poly := Term(8, Term(4, Term(1, Nil)))
  const X16384: Poly := Term(8, Term(1, Nil))
  const X32768: Poly := Term(1, Nil)
  const X7: Poly := Term(7, Nil)
  const X5: Poly := Term(5, Nil)
  const X0: Poly := Term(0, Nil)
  const X39: Poly := Term(11, Term(9, Nil))
  const X33: Poly := Term(5, Term(3, Nil))
  const X1057: Poly := Term(9, Term(6, Term(5, Term(4, Nil))))
  const X2304: Poly := Term(12, Term(9, Term(8, Term(6, Term(5, Term(3, Nil))))))
  const X2309: Poly := Term(14, Term(13, Term(11, Term(10, Term(8, Term(3, Term(2, Nil)))))))

  lemma Squares64()
    ensures Simplifies(Square(X8), X16)
    ensures Simplifies(Square(X16), X32)
    ensures Simplifies(Square(X32), X64)
  {
    assert Square(X8) == Term(16, Nil);
    assert Square(X16) == Term(4, Term(2, Nil));
    assert Square(X32) == Term(8, Term(4, Nil));
  }

  lemma Squares256()
    ensures Simplifies(Square(X64), X128)
    ensures Simplifies(Square(X128), X256)
  {
    assert Square(X64) == Term(16, Term(8, Nil));
    assert Square(X128) == Term(16, Term(4, Term(2, Nil)));
  }

  lemma Squares512()
    ensures Simplifies(Square(X256), X512)
  {
    assert Square(X256) == Term(8, Term(2, Nil));
  }

  lemma Squares2048()
    ensures Simplifies(Square(X512), X1024)
    ensures Simplifies(Square(X1024), X2048)
  {
    assert Square(X512) == Term(16, Term(4, Nil));
    assert Square(X1024) == Term(8, Term(4, Term(2, Nil)));
  }

  lemma Squares4096()
    ensures Simplifies(Square(X2048), X4096)
  {
    assert Square(X2048) == Term(16, Term(8, Term(4, Nil)));
  }

  lemma Squares8192()
    ensures Simplifies(Square(X4096), X8192)
  {
    assert Square(X4096) == Term(16, Term(8, Term(4, Term(2, Nil))));
  }

  lemma Squares32768()
    ensures Simplifies(Square(X8192), X16384)
    ensures Simplifies(Square(X16384), X32768)
  {
    assert Square(X8192) == Term(16, Term(8, Term(2, Nil)));
    assert Square(X16384) == Term(16, Term(2, Nil));
  }

  lemma Powers()
    ensures Power(16, X16)
    ensures Power(32, X32)
    ensures Power(64, X64)
    ensures Power(128, X128)
    ensures Power(256, X256)
    ensures Power(512, X512)
    ensures Power(1024, X1024)
    ensures Power(2048, X2048)
    ensures Power(4096, X4096)
    ensures Power(8192, X8192)
    ensures Power(16384, X16384)
    ensures Power(32768, X32768)
  {
    hide *;
    PowerEight();
    Squares64();
    PowerSquare(8, X8, X16);
    PowerSquare(16, X16, X32);
    PowerSquare(32, X32, X64);
    Squares256();
    PowerSquare(64, X64, X128);
    PowerSquare(128, X128, X256);
    Squares512();
    PowerSquare(256, X256, X512);
    Squares2048();
    PowerSquare(512, X512, X1024);
    PowerSquare(1024, X1024, X2048);
    Squares4096();
    PowerSquare(2048, X2048, X4096);
    Squares8192();
    PowerSquare(4096, X4096, X8192);
    Squares32768();
    PowerSquare(8192, X8192, X16384);
    PowerSquare(16384, X16384, X32768);
  }

  lemma PowerEight()
    ensures Power(8, X8)
  {
    PowerOne(8);
    hide Power;
  }

  lemma Product39()
    ensures Simplifies(Times(X32, X7), X39)
  {
    assert Times(X32, X7) == Term(11, Term(9, Nil));
  }

  lemma Product33()
    ensures Simplifies(Times(X32, X1), X33)
  {
    assert Times(X32, X1) == Term(5, Term(3, Nil));
  }

  lemma Product1057()
    ensures Simplifies(Times(X1024, X33), X1057)
  {
    assert Times(X1024, X33) == Term(9, Term(7, Term(7, Term(5, Term(6, Term(4, Nil))))));
  }

  lemma Product2304()
    ensures Simplifies(Times(X2048, X256), X2304)
  {
    assert Times(X2048, X256) == Term(12, Term(9, Term(8, Term(5, Term(6, Term(3, Nil))))));
  }

  lemma Product2309()
    ensures Simplifies(Times(X5, X2304), X2309)
  {
    assert Times(X5, X2304) == Term(17, Term(14, Term(13, Term(11, Term(10, Term(8, Nil))))));
  }

  lemma {:induction false} CoefficientAppend(p: Poly, q: Poly, k: int)
    ensures Coefficient(Append(p, q), k) == (Coefficient(p, k) != Coefficient(q, k))
  {
    if p.Term? { CoefficientAppend(p.rest, q, k); }
  }

  lemma {:induction false} CoefficientRaised(p: Poly, n: nat, k: int)
    ensures Coefficient(Raised(p, n), k) == Coefficient(p, k - n)
  {
    if p.Term? { CoefficientRaised(p.rest, n, k); }
  }

  // The leading bit of x^2341 = x^32 x^2309: what x^4 and x^2 bring to x^14.
  lemma Product2341()
    ensures Below(Times(X32, X2309), 28) && Coefficient(Times(X32, X2309), 14)
  {
    BelowRaised(X2309, 15, 4);
    BelowRaised(X2309, 15, 2);
    CoefficientRaised(X2309, 4, 14);
    CoefficientRaised(X2309, 2, 14);
    assert Coefficient(X2309, 10) && !Coefficient(X2309, 12) && Below(X2309, 15);
    hide Coefficient, Below;
    var high, low := Raised(X2309, 4), Append(Raised(X2309, 2), Nil);
    assert Times(X32, X2309) == Append(high, low) by { assert Times(Nil, X2309) == Nil; }
    CoefficientAppend(Raised(X2309, 2), Nil, 14);
    CoefficientAppend(high, low, 14);
    BelowAppend(Raised(X2309, 2), Nil);
    BelowAppend(high, low);
    NothingInNil();
  }

  predicate Below(p: Poly, n: nat) { p.Term? ==> p.exponent < n && Below(p.rest, n) }

  lemma NothingInNil()
    ensures Below(Nil, 28) && !Coefficient(Nil, 14)
  {
  }

  lemma {:induction false} BelowRaised(p: Poly, n: nat, e: nat)
    requires Below(p, n) && n + e <= 28
    ensures Below(Raised(p, e), 28)
  {
    if p.Term? { BelowRaised(p.rest, n, e); }
  }

  lemma {:induction false} BelowAppend(p: Poly, q: Poly)
    requires Below(p, 28) && Below(q, 28)
    ensures Below(Append(p, q), 28)
  {
    if p.Term? { BelowAppend(p.rest, q); }
  }

  lemma {:induction false} ReducedOnce(p: Poly)
    requires Below(p, 28)
    ensures Low(Reduced(p)) && Coefficient(Reduced(p), 14) == Coefficient(p, 14)
  {
    if p.Term? { ReducedOnce(p.rest); }
  }

  lemma LeadingBit(p: Poly)
    requires Below(p, 28)
    ensures Sum(p, BASE)[0] == Coefficient(p, 14)
  {
    hide Sum, Coefficient, Low, Reduced;
    ReducedOnce(p);
    SumReduced(p);
    SumBit(Reduced(p), 0);
    NoHighTerms(Reduced(p), 15);
  }

  lemma Differ(m: nat, p: Poly, n: nat, q: Poly, i: nat)
    requires Power(m, p) && Power(n, q) && Low(p) && Low(q) && i < 16
    requires (Coefficient(p, 15 - i) != Coefficient(p, 14 - i)) != (Coefficient(q, 15 - i) != Coefficient(q, 14 - i))
    ensures Shifts(BASE, m) != Shifts(BASE, n)
  {
    hide Shifts, Sum, Low, Coefficient;
    SumBit(p, i);
    SumBit(q, i);
  }

  lemma Terms()
    ensures Low(X0) && Low(X39) && Low(X256) && Low(X1057)
    ensures !Coefficient(X256, 12) && !Coefficient(X256, 11) && !Coefficient(X39, 12) && Coefficient(X39, 11)
    ensures !Coefficient(X1057, 10) && Coefficient(X1057, 9) && !Coefficient(X0, 10) && !Coefficient(X0, 9)
    ensures Below(X16384, 28) && !Coefficient(X16384, 14)
  {
  }

  lemma DifferLeading(m: nat, p: Poly, n: nat, q: Poly)
    requires Power(m, p) && Power(n, q) && Below(p, 28) && Below(q, 28) && Coefficient(p, 14) != Coefficient(q, 14)
    ensures Shifts(BASE, m) != Shifts(BASE, n)
  {
    hide Shifts, Sum, Below, Coefficient;
    LeadingBit(p);
    LeadingBit(q);
  }

  lemma SomePowers()
    ensures Power(0, X0) && Power(1, X1) && Power(5, X5) && Power(7, X7)
  {
    PowerOne(0);
    PowerOne(1);
    PowerOne(5);
    PowerOne(7);
    hide Power;
  }

  lemma DifferentPowers()
    ensures Shifts(BASE, 256) != Shifts(BASE, 39)
    ensures Shifts(BASE, 1057) != Shifts(BASE, 0)
    ensures Shifts(BASE, 16384) != Shifts(BASE, 2341)
  {
    hide *;
    Powers();
    SomePowers();
    Product39();
    Product33();
    Product1057();
    Product2304();
    Product2309();
    Product2341();
    Terms();
    PowerTimes(32, X32, 7, X7, X39);
    Differ(256, X256, 39, X39, 3);
    PowerTimes(32, X32, 1, X1, X33);
    PowerTimes(1024, X1024, 33, X33, X1057);
    Differ(1057, X1057, 0, X0, 5);
    PowerTimes(2048, X2048, 256, X256, X2304);
    PowerTimes(5, X5, 2304, X2304, X2309);
    PowerProduct(32, X32, 2309, X2309);
    DifferLeading(16384, X16384, 2341, Times(X32, X2309));
  }

  // ------------------------------------------------------------------ the period

  // Multiplying by x^n changes nothing, modulo the generator.
  ghost predicate Period(n: nat) { Shifts(ONE, n) == ONE }

  lemma BaseIs()
    ensures BASE == Xor(Shift(ONE), ONE) && Shifts(ONE, 1) == Shift(ONE)
  {
    assert ShiftLeft(ONE) == Zeros(14) + [true, false];
    assert Shifts(Shift(ONE), 0) == Shift(ONE);
  }

  lemma ShiftedBaseIs(n: nat)
    ensures Shifts(BASE, n) == Xor(Shift(Shifts(ONE, n)), Shifts(ONE, n))
  {
    BaseIs();
    hide Shifts, Xor, Shift;
    ShiftsLinear(Shift(ONE), ONE, n);
    ShiftsAdd(ONE, 1, n);
    ShiftsAdd(ONE, n, 1);
    OneShiftMore(Shifts(ONE, n));
  }

  lemma OneShiftMore(c: Word)
    ensures Shifts(c, 1) == Shift(c)
  {
    hide Shift;
    assert Shifts(Shift(c), 0) == Shift(c);
  }

  lemma PeriodOfBase(n: nat, m: nat)
    requires Period(n)
    ensures Shifts(BASE, n + m) == Shifts(BASE, m)
  {
    ShiftedBaseIs(n);
    BaseIs();
    hide Shifts, Xor, Shift;
    ShiftsAdd(BASE, n, m);
  }

  lemma NoShortPeriod()
    ensures !Period(217) && !Period(1057) && !Period(4681)
  {
    hide *;
    DifferentPowers();
    if Period(217) { PeriodOfBase(217, 39); }
    if Period(1057) { PeriodOfBase(1057, 0); }
    if Period(4681) {
      PeriodOfBase(4681, 2341);
      PeriodOfBase(4681, 4681 + 2341);
      PeriodOfBase(4681, 2 * 4681 + 2341);
    }
  }

  // A word that a shift leaves alone is zero or x^15 + x + 1, which has three terms.
  lemma FixedIsZero(z: Word)
    requires Shift(z) == z && !Odd(z)
    ensures z == ZERO
  {
    if z[0] {
      OddFixed();
      FixedOnce(z);
    } else {
      FixedZero(z);
    }
  }

  lemma FixedZero(z: Word)
    requires Shift(z) == z && !z[0]
    ensures z == ZERO
  {
    var left := ShiftLeft(z);
    assert forall i | 0 <= i < 15 :: z[i] == left[i] == z[i + 1];
    assert !z[15] && !z[14] && !z[13] && !z[12] && !z[11] && !z[10] && !z[9] && !z[8];
    assert !z[7] && !z[6] && !z[5] && !z[4] && !z[3] && !z[2] && !z[1];
  }

  lemma FixedOnce(z: Word)
    requires Shift(z) == z && z[0]
    ensures z == [true] + Zeros(13) + [true, true]
  {
    var left := ShiftLeft(z);
    assert forall i | 0 <= i < 16 :: z[i] == (left[i] != POLYNOMIAL[i]);
    assert z[15] && z[14] && !z[13] && !z[12] && !z[11] && !z[10] && !z[9] && !z[8];
    assert !z[7] && !z[6] && !z[5] && !z[4] && !z[3] && !z[2] && !z[1];
  }

  lemma OddFixed()
    ensures Odd([true] + Zeros(13) + [true, true])
  {
    OddZeros(13);
    OddConcat([true], Zeros(13));
    OddConcat([true] + Zeros(13), [true, true]);
    assert [true][1..] == [] && [true, true][1..] == [true];
  }

  lemma {:induction false} ShiftsKeepParity(c: Word, n: nat)
    ensures Odd(Shifts(c, n)) == Odd(c)
    decreases n
  {
    if n > 0 {
      ShiftKeepsParity(c);
      ShiftsKeepParity(Shift(c), n - 1);
    }
  }

  lemma WholePeriod(n: nat)
    requires Shifts(BASE, n) == BASE
    ensures Period(n)
  {
    var f := Shifts(ONE, n);
    var z: Word := Xor(f, ONE);
    ShiftedBaseIs(n);
    BaseIs();
    ShiftsKeepParity(ONE, n);
    OddXor(f, ONE);
    ShiftLinear(f, ONE);
    hide Shifts, Shift, Odd;
    SameDifference(Shift(f), f, Shift(ONE), ONE);
    FixedIsZero(z);
    XorZero(f, ONE);
  }

  lemma SameDifference(a: Word, b: Word, c: Word, d: Word)
    requires Xor(a, b) == Xor(c, d)
    ensures Xor(a, c) == Xor(b, d)
  {
    forall i | 0 <= i < 16 ensures (a[i] != c[i]) == (b[i] != d[i]) {
      assert Xor(a, b)[i] == Xor(c, d)[i];
    }
  }

  lemma Period32767()
    ensures Period(32767)
  {
    SameOne();
    hide *;
    Powers();
    SomePowers();
    PowersAgree(32768, 1, X1);
    ShiftsAdd(BASE, 32767, 1);
    ShiftsAdd(BASE, 0, 1);
    NoShift(BASE);
    SameShift(Shifts(BASE, 32767), BASE, 1);
    WholePeriod(32767);
  }

  lemma SameOne()
    ensures X32768 == X1
  {
  }

  lemma PowersAgree(m: nat, n: nat, p: Poly)
    requires Power(m, p) && Power(n, p)
    ensures Shifts(BASE, m) == Shifts(BASE, n)
  {
    hide Shifts, Sum;
  }

  lemma NoShift(c: Word)
    ensures Shifts(c, 0) == c
  {
  }

  // ----------------------------------------------------- divisors of 32767

  // 32767 is 7 times 31 times 151: a divisor is all of it, or divides it without one of them.
  lemma Divisors(k: nat, j: nat) returns (d: nat)
    requires k * j == 32767
    ensures k == 32767 || k * d == 4681 || k * d == 1057 || k * d == 217
  {
    Factors(k, j);
    if k % 7 != 0 {
      d := Part(k, j, 7, 4681);
    } else if k % 31 != 0 {
      d := Part(k, j, 31, 1057);
    } else if k % 151 != 0 {
      d := Part(k, j, 151, 217);
    } else {
      Whole(k, j);
      d := 0;
    }
  }

  lemma Factors(k: nat, j: nat)
    requires k * j == 32767
    ensures k > 0 && j > 0
  {
  }

  lemma Part(k: nat, j: nat, p: nat, m: nat) returns (d: nat)
    requires k > 0 && j > 0 && k * j == p * m && p in {7, 31, 151} && k % p != 0
    ensures k * d == m
  {
    var e := Euclid(p, k, j, m);
    Without(k, j, e, p, m);
    d := e;
  }

  lemma Whole(k: nat, j: nat)
    requires k > 0 && j > 0 && k * j == 32767 && k % 7 == 0 && k % 31 == 0 && k % 151 == 0
    ensures k == 32767
  {
    var e := Euclid(31, 7, k / 7, k / 31);
    var g := Euclid(151, 217, e, k / 151);
    assert k == 32767 * g;
    if g > 1 { TooLarge(k, j); }
  }

  lemma TooLarge(k: nat, j: nat)
    requires k > 32767 && j > 0
    ensures k * j > 32767
  {
    MulAtLeast(k, j);
  }

  lemma Without(k: nat, j: nat, d: int, p: nat, m: nat)
    requires k * j == p * m && j == p * d && k > 0 && p > 0 && j > 0
    ensures d > 0 && k * d == m
  {
    assert k * (p * d) == p * (k * d);
    assert p * (k * d - m) == 0;
    assert d <= 0 ==> p * d <= 0;
  }

  // --------------------------------------------------------------- main results

  lemma {:induction false} PeriodTimes(k: nat, n: nat)
    requires Period(k)
    ensures Period(k * n)
  {
    hide Shifts;
    if n == 0 {
      NoShift(ONE);
    } else {
      PeriodTimes(k, n - 1);
      assert k * n == k * (n - 1) + k;
      ShiftsAdd(ONE, k * (n - 1), k);
    }
  }

  lemma PeriodLeft(k: nat, n: nat)
    requires Period(k) && Period(k + n)
    ensures Period(n)
  {
    hide Shifts;
    ShiftsAdd(ONE, k, n);
  }

  lemma {:induction false} LeastPeriod(n: nat) returns (k: nat)
    requires n > 0 && Period(n)
    ensures 0 < k <= n && Period(k) && forall j | 0 < j < k :: !Period(j)
  {
    hide Period;
    if j :| 0 < j < n && Period(j) {
      k := LeastPeriod(j);
    } else {
      k := n;
    }
  }

  // The powers of x repeat after 32767 steps, and not before.
  lemma PeriodExactly(n: nat)
    ensures Period(n) <==> n % 32767 == 0
  {
    hide *;
    Period32767();
    NoShortPeriod();
    var k := LeastPeriod(32767);
    PeriodDivides(k, 32767);
    var d := Divisors(k, 32767 / k);
    PeriodTimes(k, d);
    if Period(n) { PeriodDivides(32767, n); }
    PeriodTimes(32767, n / 32767);
  }

  lemma PeriodDivides(k: nat, n: nat)
    requires 0 < k && Period(k) && Period(n) && forall j | 0 < j < k :: !Period(j)
    ensures n % k == 0 && k * (n / k) == n
  {
    hide Period;
    PeriodTimes(k, n / k);
    assert n == k * (n / k) + n % k;
    PeriodLeft(k * (n / k), n % k);
  }

  // Two flipped bits go unnoticed exactly when their distance is a multiple of 32767.
  lemma PairUnnoticed(data: seq<Byte>, error: seq<Byte>, i: nat, j: nat)
    requires |error| == |data| && IsPair(Bits(error), i, j)
    ensures Crc(ZERO, XorBytes(data, error)) == Crc(ZERO, data) <==> (j - i) % 32767 == 0
  {
    hide *;
    ErrorUnnoticed(data, error);
    CrcIsBitSerial(ZERO, error);
    PairPeriod(Bits(error), i, j);
    PeriodExactly(j - i);
  }

  lemma PairPeriod(bits: seq<bool>, i: nat, j: nat)
    requires IsPair(bits, i, j)
    ensures i < j && (CrcBits(ZERO, bits) == ZERO <==> Period(j - i))
  {
    hide CrcBits, Shifts;
    PairChecksum(bits, i, j);
  }
}
