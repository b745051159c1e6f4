/** Exact complex arithmetic standing in for Go's complex128.
    Rounding, infinities and NaN are not modelled: every operation is exact
    over the reals, and division demands a nonzero divisor. */
module ComplexArith {

  datatype Complex = Complex(re: real, im: real)

  const Zero: Complex := Complex(0.0, 0.0)
  const One: Complex := Complex(1.0, 0.0)

  function Add(a: Complex, b: Complex): Complex
  {
    Complex(a.re + b.re, a.im + b.im)
  }

  function Sub(a: Complex, b: Complex): Complex
  {
    Complex(a.re - b.re, a.im - b.im)
  }

  function Neg(a: Complex): Complex
  {
    Complex(-a.re, -a.im)
  }

  function Mul(a: Complex, b: Complex): Complex
  {
    Complex(a.re * b.re - a.im * b.im, a.re * b.im + a.im * b.re)
  }

  /** The squared modulus |b|^2, positive for every nonzero b. */
  function Norm(b: Complex): (n: real)
    ensures n >= 0.0
    ensures n == 0.0 <==> b == Zero
  {
    SquarePositive(b.re);
    SquarePositive(b.im);
    Square(b.re) + Square(b.im)
  }

  function Square(x: real): real
  {
    x * x
  }

  lemma SquarePositive(x: real)
    ensures Square(x) >= 0.0
    ensures x != 0.0 ==> Square(x) > 0.0
    ensures x == 0.0 ==> Square(x) == 0.0
  {
    if x > 0.0 {
      calc { Square(x); x * x; > { assert x * x > 0.0 * x; } 0.0; }
    } else if x < 0.0 {
      calc { Square(x); x * x; (-x) * (-x); > { assert (-x) * (-x) > 0.0 * (-x); } 0.0; }
    }
  }

  /** Go's a / b; the quotient is the unique q with q * b == a. */
  function Div(a: Complex, b: Complex): (q: Complex)
    requires b != Zero
    ensures Mul(q, b) == a
  {
    var n := Norm(b);
    var q := Complex((a.re * b.re + a.im * b.im) / n, (a.im * b.re - a.re * b.im) / n);
    DivTimesDivisor(a, b, n);
    q
  }

  lemma DivTimesDivisor(a: Complex, b: Complex, n: real)
    requires n == Square(b.re) + Square(b.im) && n != 0.0
    ensures Mul(Complex((a.re * b.re + a.im * b.im) / n, (a.im * b.re - a.re * b.im) / n), b) == a
  {
    var x := (a.re * b.re + a.im * b.im) / n;
    var y := (a.im * b.re - a.re * b.im) / n;
    assert x * n == a.re * b.re + a.im * b.im;
    assert y * n == a.im * b.re - a.re * b.im;
    calc {
      (x * b.re - y * b.im) * n;
      (x * n) * b.re - (y * n) * b.im;
      (a.re * b.re + a.im * b.im) * b.re - (a.im * b.re - a.re * b.im) * b.im;
      a.re * n;
    }
    calc {
      (x * b.im + y * b.re) * n;
      (x * n) * b.im + (y * n) * b.re;
      (a.re * b.re + a.im * b.im) * b.im + (a.im * b.re - a.re * b.im) * b.re;
      a.im * n;
    }
    CancelNonzero(x * b.re - y * b.im, a.re, n);
    CancelNonzero(x * b.im + y * b.re, a.im, n);
  }

  lemma CancelNonzero(u: real, v: real, n: real)
    requires n != 0.0 && u * n == v * n
    ensures u == v
  {
    assert (u - v) * n == 0.0;
  }

  /** A quotient is determined by the product it must reproduce. */
  lemma DivUnique(a: Complex, b: Complex, q: Complex)
    requires b != Zero && Mul(q, b) == a
    ensures q == Div(a, b)
  {
    var p := Div(a, b);
    var n := Norm(b);
    // (q - p) * b == 0 and b != 0, hence q == p
    var d := Sub(q, p);
    assert Mul(d, b) == Zero;
    assert d.re * b.re - d.im * b.im == 0.0;
    assert d.re * b.im + d.im * b.re == 0.0;
    assert d.re * n == 0.0 by {
      calc {
        d.re * n;
        (d.re * b.re - d.im * b.im) * b.re + (d.re * b.im + d.im * b.re) * b.im;
        0.0;
      }
    }
    assert d.im * n == 0.0 by {
      calc {
        d.im * n;
        (d.re * b.im + d.im * b.re) * b.re - (d.re * b.re - d.im * b.im) * b.im;
        0.0;
      }
    }
    CancelNonzero(d.re, 0.0, n);
    CancelNonzero(d.im, 0.0, n);
  }

  /** A total that is s plus (y - s) is y; stated over named values so that
      callers need not expose the terms behind them to arithmetic. */
  lemma AddBack(total: Complex, prefix: Complex, last: Complex, s: Complex, y: Complex)
    requires total == Add(prefix, last) && prefix == s && last == Sub(y, s)
    ensures total == y
  {
  }

  lemma MulComm(a: Complex, b: Complex)
    ensures Mul(a, b) == Mul(b, a)
  {
  }

  lemma MulAssoc(a: Complex, b: Complex, c: Complex)
    ensures Mul(Mul(a, b), c) == Mul(a, Mul(b, c))
  {
    assert (a.re * b.re - a.im * b.im) * c.re - (a.re * b.im + a.im * b.re) * c.im
        == a.re * (b.re * c.re - b.im * c.im) - a.im * (b.re * c.im + b.im * c.re);
    assert (a.re * b.re - a.im * b.im) * c.im + (a.re * b.im + a.im * b.re) * c.re
        == a.re * (b.re * c.im + b.im * c.re) + a.im * (b.re * c.re - b.im * c.im);
  }

  /** (a * b) * c == (a * c) * b: the order in which three factors are taken. */
  lemma MulSwapLast(a: Complex, b: Complex, c: Complex)
    ensures Mul(Mul(a, b), c) == Mul(Mul(a, c), b)
  {
    MulAssoc(a, b, c);
    MulAssoc(a, c, b);
    MulComm(b, c);
  }

  lemma MulAddLeft(a: Complex, b: Complex, c: Complex)
    ensures Mul(Add(a, b), c) == Add(Mul(a, c), Mul(b, c))
  {
    assert (a.re + b.re) * c.re == a.re * c.re + b.re * c.re;
    assert (a.im + b.im) * c.im == a.im * c.im + b.im * c.im;
    assert (a.re + b.re) * c.im == a.re * c.im + b.re * c.im;
    assert (a.im + b.im) * c.re == a.im * c.re + b.im * c.re;
  }

  lemma MulAddRight(a: Complex, b: Complex, c: Complex)
    ensures Mul(a, Add(b, c)) == Add(Mul(a, b), Mul(a, c))
  {
    assert a.re * (b.re + c.re) == a.re * b.re + a.re * c.re;
    assert a.im * (b.im + c.im) == a.im * b.im + a.im * c.im;
    assert a.re * (b.im + c.im) == a.re * b.im + a.re * c.im;
    assert a.im * (b.re + c.re) == a.im * b.re + a.im * c.re;
  }

  lemma MulSubLeft(a: Complex, b: Complex, c: Complex)
    ensures Mul(Sub(a, b), c) == Sub(Mul(a, c), Mul(b, c))
  {
    assert (a.re - b.re) * c.re == a.re * c.re - b.re * c.re;
    assert (a.im - b.im) * c.im == a.im * c.im - b.im * c.im;
    assert (a.re - b.re) * c.im == a.re * c.im - b.re * c.im;
    assert (a.im - b.im) * c.re == a.im * c.re - b.im * c.re;
  }

  lemma MulZeroLeft(a: Complex)
    ensures Mul(Zero, a) == Zero && Mul(a, Zero) == Zero
  {
  }

  lemma MulOne(a: Complex)
    ensures Mul(One, a) == a && Mul(a, One) == a
  {
  }
}
