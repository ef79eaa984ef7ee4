/**
 * Size correction of a PixelImage: the requested side length is raised one
 * step at a time until the image area is a multiple of the block area.
 * The model proves that this loop stops at the requested size rounded up
 * to a multiple of the block resolution.
 */
module Sizing {

  /** The test of the correction loop: the area is a multiple of the block area. */
  predicate Compatible(s: nat, r: nat)
    requires r >= 1
  {
    (s * s) % (r * r) == 0
  }

  /** Euclidean division is unique: `i*r + j` splits back into `i` and `j`. */
  lemma DivModOf(i: nat, j: nat, r: nat)
    requires j < r
    ensures (i * r + j) / r == i && (i * r + j) % r == j
  {
    var a := i * r + j;
    var q, m := a / r, a % r;
    assert a == q * r + m;
    assert (q - i) * r == j - m;
    SmallMultiple(q - i, r);
  }

  /** The only multiple of `r` strictly between `-r` and `r` is zero. */
  lemma SmallMultiple(k: int, r: int)
    requires r >= 1
    requires -r < k * r < r
    ensures k == 0
  {
  }

  /** A multiple of `r` leaves no remainder. */
  lemma MultipleMod(k: nat, r: nat)
    requires r >= 1
    ensures (k * r) % r == 0
  {
    DivModOf(k, 0, r);
  }

  /** Multiplication by a non-negative factor is monotone. */
  lemma MulLe(a: nat, b: nat, r: nat)
    requires a <= b
    ensures a * r <= b * r
  {
    assert b * r == a * r + (b - a) * r;
  }

  /** One more row of `r`. */
  lemma MulSucc(a: nat, r: nat)
    ensures (a + 1) * r == a * r + r
  {
  }

  /** Multiplication by a non-negative factor reflects strict order. */
  lemma MulLtCancel(a: nat, b: nat, r: nat)
    requires a * r < b * r
    ensures a < b
  {
    if a >= b {
      MulLe(b, a, r);
    }
  }

  /** An index `i*r + j` with `i, j < r` stays below `r*r`. */
  lemma IndexBound(i: nat, j: nat, r: nat)
    requires i < r && j < r
    ensures i * r + j < r * r
  {
    MulLe(i + 1, r, r);
    assert (i + 1) * r == i * r + r;
  }

  /** An index below `r*r` splits into a quotient below `r` and a remainder. */
  lemma IndexSplit(k: nat, r: nat)
    requires r >= 1 && k < r * r
    ensures k / r < r && k == (k / r) * r + k % r
  {
    if k / r >= r {
      MulLe(r, k / r, r);
    }
  }

  /** Multiplication by a positive factor is injective. */
  lemma CancelFactor(a: int, b: int, f: int)
    requires f >= 1
    requires a * f == b * f
    ensures a == b
  {
    assert (a - b) * f == a * f - b * f;
  }

  /**
   * The smallest multiple of `r` that is at least `n`; the corrected side
   * length that the correction loop arrives at.
   */
  function RoundUp(n: nat, r: nat): (m: nat)
    requires r >= 1
    ensures m % r == 0
    ensures n <= m < n + r
    ensures forall t :: n <= t < m ==> t % r != 0
  {
    var q := (n + r - 1) / r;
    var m := q * r;
    MultipleMod(q, r);
    assert n + r - 1 == m + (n + r - 1) % r;
    forall t | n <= t < m
      ensures t % r != 0
    {
      assert q >= 1;
      assert (q - 1) * r == m - r;
      DivModOf(q - 1, t - (m - r), r);
    }
    m
  }

  /** `r | s` implies `r^2 | s^2`: every multiple of `r` passes the loop's test. */
  lemma MultipleIsCompatible(s: nat, r: nat)
    requires r >= 1
    requires s % r == 0
    ensures Compatible(s, r)
  {
    var q := s / r;
    assert s == q * r;
    assert s * s == (q * q) * (r * r);
    MultipleMod(q * q, r * r);
  }

  /**
   * One step of the proof by contradiction in `SquareRatio`: if `s^2 == k * r^2`
   * and `r` did not divide `s`, then `(k*r - (s/r)*s, s % r)` would solve the
   * same equation with a smaller denominator. `SquareRatio` shows that no
   * input meets both preconditions; the step is what the descent uses.
   */
  lemma DescentStep(s: nat, r: nat, k: nat) returns (s': nat)
    requires r >= 1 && s % r != 0
    requires s * s == k * (r * r)
    ensures s' * r == s * (s % r)
    ensures s' * s' == k * ((s % r) * (s % r))
  {
    var m, t := s / r, s % r;
    var d: int := k * r - m * s;
    assert d * r == s * t by {
      assert s == m * r + t;
      assert d * r == k * (r * r) - m * s * r;
      assert d * r == s * (s - m * r);
    }
    assert d >= 0;
    s' := d;
    SquareScale(s', r, s, t, k);
  }

  /** From `a*r == s*t` and `s^2 == k*r^2` follows `a^2 == k*t^2`. */
  lemma SquareScale(a: nat, r: nat, s: nat, t: nat, k: nat)
    requires r >= 1
    requires a * r == s * t && s * s == k * (r * r)
    ensures a * a == k * (t * t)
  {
    assert (a * a) * (r * r) == (s * t) * (s * t) by {
      assert (a * a) * (r * r) == (a * r) * (a * r);
    }
    assert (s * t) * (s * t) == (k * (t * t)) * (r * r) by {
      assert (s * t) * (s * t) == (s * s) * (t * t);
    }
    CancelFactor(a * a, k * (t * t), r * r);
  }

  /**
   * `s^2 == k * r^2` implies `r | s`. Proved by descent on `r`: when `r`
   * does not divide `s`, `DescentStep` gives a solution with the smaller
   * denominator `s % r`.
   */
  lemma {:induction false} SquareRatio(s: nat, r: nat, k: nat)
    requires r >= 1
    requires s * s == k * (r * r)
    ensures s % r == 0
    decreases r
  {
    var t := s % r;
    if t != 0 {
      var s' := DescentStep(s, r, k);
      SquareRatio(s', t, k);
      var c := s' / t;
      assert s' == c * t;
      assert s * t == (c * r) * t;
      CancelFactor(s, c * r, t);
      MultipleMod(c, r);
    }
  }

  /** A side length passes the loop's test exactly when it is a multiple of `r`. */
  lemma CompatibleIffMultiple(s: nat, r: nat)
    requires r >= 1
    ensures Compatible(s, r) <==> s % r == 0
  {
    if Compatible(s, r) {
      var k := (s * s) / (r * r);
      assert s * s == k * (r * r);
      SquareRatio(s, r, k);
    } else if s % r == 0 {
      MultipleIsCompatible(s, r);
    }
  }

  /**
   * The closed form agrees with the search: a side length is the least
   * compatible one at or above `n` exactly when it is `n` rounded up to a
   * multiple of `r`.
   */
  lemma LeastCompatibleIsRoundUp(n: nat, r: nat, s: nat)
    requires r >= 1
    ensures (n <= s && Compatible(s, r) && forall t :: n <= t < s ==> !Compatible(t, r))
            <==> s == RoundUp(n, r)
  {
    var m := RoundUp(n, r);
    MultipleIsCompatible(m, r);
    if n <= s && Compatible(s, r) && forall t :: n <= t < s ==> !Compatible(t, r) {
      CompatibleIffMultiple(s, r);
      assert !(m < s);
    }
    if s == m {
      forall t | n <= t < s
        ensures !Compatible(t, r)
      {
        CompatibleIffMultiple(t, r);
      }
    }
  }

  /**
   * The loop of `PixelImage::new` that corrects the image size: starting
   * from the requested size it steps up by one until the area is a multiple
   * of the block area. It returns the least compatible size at or above
   * the request, which is the request rounded up to a multiple of `r`.
   */
  method CorrectSize(pixelResolution: nat, imageSize: nat) returns (size: nat)
    requires pixelResolution >= 1
    ensures imageSize <= size < imageSize + pixelResolution
    ensures Compatible(size, pixelResolution)
    ensures forall t :: imageSize <= t < size ==> !Compatible(t, pixelResolution)
    ensures size % pixelResolution == 0
    ensures size == RoundUp(imageSize, pixelResolution)
  {
    var pixelArea := pixelResolution * pixelResolution;
    size := imageSize;
    var imageArea := size * size;
    ghost var target := RoundUp(imageSize, pixelResolution);
    MultipleIsCompatible(target, pixelResolution);
    while imageArea % pixelArea != 0
      invariant imageSize <= size <= target
      invariant imageArea == size * size
      invariant forall t :: imageSize <= t < size ==> !Compatible(t, pixelResolution)
      decreases target - size
    {
      size := size + 1;
      imageArea := size * size;
    }
    CompatibleIffMultiple(size, pixelResolution);
  }

  /** The image of the crate's test (src/lib.rs:135): blocks of 10 keep a side of 800, giving 80 blocks a side. */
  lemma ExampleKeeps800()
    ensures RoundUp(800, 10) == 800 && RoundUp(800, 10) / 10 == 80
  {
  }

  /** Example: with blocks of 10, a requested side of 805 becomes 810. */
  lemma ExampleRaises805()
    ensures RoundUp(805, 10) == 810
  {
  }
}
