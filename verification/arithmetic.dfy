/** Facts about integer products and Euclidean division that the index
    arithmetic of the mesh needs. */
module Arithmetic {

  lemma MulNonNegative(a: int, b: int)
    requires a >= 0 && b >= 0
    ensures a * b >= 0
  {
  }

  lemma MulAtLeast(a: int, w: int)
    requires a >= 1 && w >= 1
    ensures a * w >= w
  {
    MulNonNegative(a - 1, w);
    assert a * w == (a - 1) * w + w;
  }

  lemma MulMonotone(a: int, b: int, w: int)
    requires a <= b && w >= 0
    ensures a * w <= b * w
  {
    MulNonNegative(b - a, w);
    assert b * w - a * w == (b - a) * w;
  }

  lemma DivModBasics(c: int, w: int)
    requires w >= 1
    ensures c == (c / w) * w + c % w && 0 <= c % w < w
  {
  }

  /** Quotient and remainder are the only pair with `c == q * w + m` and
      `m` in [0, w). */
  lemma DivModUnique(c: int, w: int, q: int, m: int)
    requires w >= 1 && 0 <= m < w && c == q * w + m
    ensures c / w == q && c % w == m
  {
    var q0, m0 := c / w, c % w;
    DivModBasics(c, w);
    assert q * w - q0 * w == (q - q0) * w;
    if q > q0 {
      MulAtLeast(q - q0, w);
    } else if q < q0 {
      MulAtLeast(q0 - q, w);
    }
  }

  lemma QuotientNonNegative(c: int, w: int)
    requires w >= 1 && c >= 0
    ensures c == (c / w) * w + c % w && 0 <= c % w < w && c / w >= 0
  {
    DivModBasics(c, w);
    if c / w < 0 {
      MulMonotone(c / w, -1, w);
    }
  }

  /** A non-negative number below `w * h` has a quotient below `h`. */
  lemma QuotientBelow(c: int, w: int, h: int)
    requires w >= 1 && 0 <= c < w * h
    ensures 0 <= c / w < h
  {
    DivModBasics(c, w);
    if c / w < 0 {
      MulMonotone(c / w, -1, w);
    }
    if c / w >= h {
      MulMonotone(h, c / w, w);
    }
  }
}
