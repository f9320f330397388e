/**
 * The numpy integer types a raster band is read as, and the wrap-around of a
 * value computed at such a type. Only the types of at least 16 bits are
 * modelled: they are the ones that hold the constant 10000 of the alert
 * encoding.
 */
module Dtypes {
  datatype IntType = Int16 | Int32 | Int64 | UInt16 | UInt32 | UInt64
  {
    /** `2 ** bits`: the number of values of the type. */
    function Modulus(): (m: nat)
      ensures m >= 0x1_0000
    {
      match this
      case Int16 | UInt16 => 0x1_0000
      case Int32 | UInt32 => 0x1_0000_0000
      case Int64 | UInt64 => 0x1_0000_0000_0000_0000
    }

    predicate Signed()
    {
      Int16? || Int32? || Int64?
    }

    /** `np.iinfo(t).min` */
    function Min(): int
    {
      if Signed() then -(Modulus() / 2) else 0
    }

    /** `x` is a value of the type. */
    predicate InRange(x: int)
    {
      Min() <= x < Min() + Modulus()
    }
  }

  /** `a` and `b` have the same bits at type `t`: they differ by a multiple of its modulus. */
  predicate SameBits(t: IntType, a: int, b: int)
  {
    (a - b) % t.Modulus() == 0
  }

  /** The value `x` becomes when numpy computes it at type `t`: two's-complement wrap-around. */
  function Wrap(t: IntType, x: int): (y: int)
    ensures t.InRange(y)
    ensures SameBits(t, x, y)
  {
    var m := t.Modulus();
    var y := t.Min() + (x - t.Min()) % m;
    DivModUnique(x - y, m, (x - t.Min()) / m, 0);
    y
  }

  /** A value of the type is kept as it is. */
  lemma WrapInRange(t: IntType, x: int)
    requires t.InRange(x)
    ensures Wrap(t, x) == x
  {
    DivModUnique(x - t.Min(), t.Modulus(), 0, x - t.Min());
  }

  /** The wrapped value is the only value of the type with the same bits. */
  lemma WrapUnique(t: IntType, x: int, y: int)
    requires t.InRange(y) && SameBits(t, x, y)
    ensures Wrap(t, x) == y
  {
    var m := t.Modulus();
    var z := Wrap(t, x);
    var q1 := (x - y) / m;
    var q2 := (x - z) / m;
    assert x - y == q1 * m;
    assert x - z == q2 * m;
    assert y - t.Min() == (q2 - q1) * m + (z - t.Min());
    DivModUnique(y - t.Min(), m, q2 - q1, z - t.Min());
    DivModUnique(y - t.Min(), m, 0, y - t.Min());
  }

  /** Having the same bits is symmetric. */
  lemma SameBitsSymmetric(t: IntType, a: int, b: int)
    requires SameBits(t, a, b)
    ensures SameBits(t, b, a)
  {
    var m := t.Modulus();
    var q := (a - b) / m;
    assert a - b == q * m;
    DivModUnique(b - a, m, -q, 0);
  }

  /** At uint16, `0 - 2000` is 63536. */
  lemma UInt16Example()
    ensures Wrap(UInt16, -2000) == 63536
  {
    assert SameBits(UInt16, -2000, 63536) by {
      DivModUnique(-2000 - 63536, 0x1_0000, -1, 0);
    }
    WrapUnique(UInt16, -2000, 63536);
  }

  lemma MulAtLeast(k: int, m: int)
    requires m > 0 && k >= 1
    ensures k * m >= m
  {
  }

  lemma MulAtMost(k: int, m: int)
    requires m > 0 && k <= -1
    ensures k * m <= -m
  {
  }

  /** Euclidean division is unique: `q * m + r` with `0 <= r < m` has quotient `q` and remainder `r`. */
  lemma DivModUnique(d: int, m: int, q: int, r: int)
    requires m > 0 && 0 <= r < m && d == q * m + r
    ensures d / m == q && d % m == r
  {
    var k := q - d / m;
    assert k * m == d % m - r by {
      assert d == (d / m) * m + d % m;
    }
    if k >= 1 {
      MulAtLeast(k, m);
    } else if k <= -1 {
      MulAtMost(k, m);
    }
  }
}
