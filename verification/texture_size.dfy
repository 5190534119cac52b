/** Side length of the square state texture.

    The encoder stores one particle per texel of a square floating-point
    texture, so the side length is the ceiling of the square root of the
    particle count: the smallest square that holds every particle. The
    floating-point `Math.sqrt`/`Math.ceil` pair is modelled as the exact
    integer ceiling square root.
 */
module TextureSize {

  /** Ceiling square root of `count`: the least `size` with `size * size >= count`.
      Defined by stepping up from `count - 1`: one more particle either still
      fits in the previous square or needs a side one texel longer. */
  function TexSize(count: nat): (size: nat)
    ensures size * size >= count
    ensures size == 0 || (size - 1) * (size - 1) < count
    ensures size <= count
  {
    if count == 0 then 0
    else
      var s := TexSize(count - 1);
      if s * s >= count then s
      else
        GrowSide(s, count);
        s + 1
  }

  /** One more particle than a full square of side `s` needs side `s + 1`,
      and that side is still minimal. */
  lemma GrowSide(s: nat, count: nat)
    requires s * s == count - 1
    ensures (s + 1) * (s + 1) >= count
    ensures (s + 1 - 1) * (s + 1 - 1) < count
    ensures s + 1 <= count
  {
    assert (s + 1) * (s + 1) == s * s + 2 * s + 1;
    if s > 0 {
      assert s * s == s * (s - 1) + s;
    }
  }

  /** Squaring is monotone on naturals. */
  lemma SquareMonotone(a: nat, b: nat)
    requires a <= b
    ensures a * a <= b * b
  {
    assert a * a <= a * b by {
      assert a * (b - a) >= 0;
    }
    assert a * b <= b * b by {
      assert (b - a) * b >= 0;
    }
  }

  /** No smaller square holds every particle: any side `t` whose square
      holds `count` particles is at least `TexSize(count)`. */
  lemma TexSizeLeast(count: nat, t: nat)
    requires t * t >= count
    ensures TexSize(count) <= t
  {
    var size := TexSize(count);
    if t < size {
      SquareMonotone(t, size - 1);
      assert false;
    }
  }

  /** The two properties of `TexSize` determine it: a side that holds every
      particle and whose predecessor does not is the texture side. */
  lemma TexSizeUnique(count: nat, s: nat)
    requires s * s >= count
    requires s == 0 || (s - 1) * (s - 1) < count
    ensures TexSize(count) == s
  {
    var size := TexSize(count);
    TexSizeLeast(count, s);
    if size < s {
      SquareMonotone(size, s - 1);
      assert false;
    }
  }

  /** A perfect square is its own texture: `k * k` particles fill a `k`-sided
      texture with no padding texel. */
  lemma TexSizeOfSquare(k: nat)
    ensures TexSize(k * k) == k
  {
    if k > 0 {
      SquareMonotone(k - 1, k);
      assert (k - 1) * (k - 1) < k * k by {
        assert k * k == (k - 1) * (k - 1) + 2 * k - 1;
      }
    }
    TexSizeUnique(k * k, k);
  }

  /** Two concrete counts: 2562 particles need a 51-texel side
      (51 * 51 = 2601), and 561 particles a 24-texel side (24 * 24 = 576). */
  lemma TexSizeExamples()
    ensures TexSize(2562) == 51
    ensures TexSize(561) == 24
  {
    assert 51 * 51 == 2601 && 50 * 50 == 2500;
    TexSizeUnique(2562, 51);
    assert 24 * 24 == 576 && 23 * 23 == 529;
    TexSizeUnique(561, 24);
  }

  /** The padding is less than one extra row and column: a texture of side
      `TexSize(count)` wastes fewer than `2 * size - 1` texels. */
  lemma TexSizePadding(count: nat)
    requires count > 0
    ensures TexSize(count) * TexSize(count) - count < 2 * TexSize(count) - 1
  {
    var size := TexSize(count);
    assert size * size == (size - 1) * (size - 1) + 2 * size - 1;
  }
}
