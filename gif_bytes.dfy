/** Shared vocabulary of the GIF decoder model: bytes, the error kinds the
    bounds-checked decoder reports, and the integer helpers that stand for the
    C shifts and bit masks. */
module GifBytes {

  /** One octet of the input buffer or of an RGBA output buffer. */
  type byte = x: int | 0 <= x < 256

  /** Why a decode call fails.  The C code has no error values besides the
      two messages of its native wrapper; every unchecked read of the source
      becomes an explicit error here. */
  datatype Error =
    | InvalidHeader      // the buffer does not start with GIF87 / GIF89
    | TruncatedStream    // a read would cross the end of the buffer
    | BadCodeSize        // LZW minimum code size larger than the 4096-slot tables allow
    | BadColorIndex      // a pixel index outside the active colour table (or no table at all)
    | EmptyResult        // no image block was found

  datatype Result<T> = Ok(value: T) | Err(error: Error)

  datatype Option<T> = None | Some(value: T)

  /** `1 << n` */
  function Pow2(n: nat): (r: nat)
    ensures r >= 1
  {
    if n == 0 then 1 else 2 * Pow2(n - 1)
  }

  lemma {:induction false} Pow2Monotone(m: nat, n: nat)
    requires m <= n
    ensures Pow2(m) <= Pow2(n)
  {
    if m < n {
      Pow2Monotone(m, n - 1);
    }
  }

  /** `a >> n` */
  function Shr(a: nat, n: nat): nat
  {
    if n == 0 then a else Shr(a / 2, n - 1)
  }

  /** `a << n` on unbounded integers */
  function Shl(a: nat, n: nat): nat
    decreases n
  {
    if n == 0 then a else Shl(2 * a, n - 1)
  }

  /** The C `&` on non-negative integers, one bit at a time. */
  function BitAnd(a: nat, b: nat): (r: nat)
    ensures r <= a && r <= b
    decreases a
  {
    if a == 0 || b == 0 then 0
    else 2 * BitAnd(a / 2, b / 2) + (if a % 2 == 1 && b % 2 == 1 then 1 else 0)
  }

  lemma {:induction false} MulAtLeast(d: nat, k: nat)
    requires k >= 1
    ensures d * k >= d
  {
    if k > 1 {
      MulAtLeast(d, k - 1);
      assert d * k == d * (k - 1) + d;
    }
  }

  /** Euclidean division is unique: `a == d*t + r` with `0 <= r < d` fixes both. */
  lemma DivModUnique(a: int, d: int, t: int, r: int)
    requires d > 0 && 0 <= r < d && a == d * t + r
    ensures a / d == t && a % d == r
  {
    var q, s := a / d, a % d;
    assert d * q + s == d * t + r;
    if q > t {
      MulAtLeast(d, q - t);
      MulSub(d, q, t);
    } else if q < t {
      MulAtLeast(d, t - q);
      MulSub(d, t, q);
    }
  }

  lemma MulSub(d: int, x: int, y: int)
    ensures d * (x - y) == d * x - d * y
  {
  }

  lemma ModOfDouble(a: nat, m: nat)
    requires m >= 1
    ensures a % (2 * m) == 2 * ((a / 2) % m) + a % 2
  {
    var q := a / 2;
    var t := q / m;
    var s := q % m;
    assert q == m * t + s;
    assert a == 2 * q + a % 2;
    assert a == (2 * m) * t + (2 * s + a % 2);
    DivModUnique(a, 2 * m, t, 2 * s + a % 2);
  }

  /** Masking with `2^k - 1` keeps the low k bits: `a & (2^k - 1) == a % 2^k`. */
  lemma {:induction false} BitAndLowMask(a: nat, k: nat)
    ensures BitAnd(a, Pow2(k) - 1) == a % Pow2(k)
  {
    var mask := Pow2(k) - 1;
    if k == 0 {
      assert mask == 0;
    } else if a == 0 {
      DivModUnique(0, Pow2(k), 0, 0);
    } else {
      var m := Pow2(k - 1);
      assert mask == 2 * (m - 1) + 1;
      DivModUnique(mask, 2, m - 1, 1);
      assert BitAnd(a, mask) == 2 * BitAnd(a / 2, m - 1) + a % 2;
      BitAndLowMask(a / 2, k - 1);
      ModOfDouble(a, m);
    }
  }

  /** `1 << (a + b) == (1 << a) << b` */
  lemma {:induction false} Pow2Add(a: nat, b: nat)
    ensures Pow2(a + b) == Pow2(a) * Pow2(b)
    decreases a
  {
    if a > 0 {
      Pow2Add(a - 1, b);
      assert Pow2(a + b) == 2 * Pow2(a - 1 + b);
      assert 2 * (Pow2(a - 1) * Pow2(b)) == (2 * Pow2(a - 1)) * Pow2(b);
    }
  }

  lemma DivOfHalf(a: nat, m: nat)
    requires m >= 1
    ensures (a / 2) / m == a / (2 * m)
  {
    var q := a / 2;
    var t := q / m;
    var s := q % m;
    assert q == m * t + s;
    assert a == (2 * m) * t + (2 * s + a % 2);
    DivModUnique(a, 2 * m, t, 2 * s + a % 2);
  }

  /** `a >> n == a / 2^n` */
  lemma {:induction false} ShrIsDiv(a: nat, n: nat)
    ensures Shr(a, n) == a / Pow2(n)
    decreases n
  {
    if n > 0 {
      ShrIsDiv(a / 2, n - 1);
      DivOfHalf(a, Pow2(n - 1));
    }
  }

  /** `a << n == a * 2^n` */
  lemma {:induction false} ShlIsMul(a: nat, n: nat)
    ensures Shl(a, n) == a * Pow2(n)
    decreases n
  {
    if n > 0 {
      ShlIsMul(2 * a, n - 1);
      assert 2 * a * Pow2(n - 1) == a * (2 * Pow2(n - 1));
    }
  }

  /** A 16-bit little-endian field, `(hi << 8) | lo`. */
  function Le16(lo: byte, hi: byte): (r: nat)
    ensures r < 0x1_0000 && r % 256 == lo && r / 256 == hi
  {
    hi * 256 + lo
  }
}
