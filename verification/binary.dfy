/**
  Bytes, fixed-width two's-complement integers and the big-endian layout of
  an unsigned number.  Integers are unbounded here, so every width and every
  wrap-around is written out.
 */
module Binary {

  /** One octet of a byte stream. */
  type byte = b: int | 0 <= b < 0x100

  /** The C++ fixed-width signed integer types. */
  type int8 = x: int | -0x80 <= x < 0x80
  type int16 = x: int | -0x8000 <= x < 0x8000
  type int32 = x: int | -0x8000_0000 <= x < 0x8000_0000
  type int64 = x: int | -0x8000_0000_0000_0000 <= x < 0x8000_0000_0000_0000

  /**
    One C char of a std::string: a byte, written as the characters 0 to 255.
    std::string compares chars as unsigned char, which is this order.
   */
  type cchar = c: char | c as int < 0x100

  /** A std::string: a sequence of bytes, not of Unicode scalar values. */
  type cstring = seq<cchar>

  /** 256 to the power n: the number of patterns n bytes can hold. */
  function Pow256(n: nat): (r: nat)
    ensures r >= 1
  {
    if n == 0 then 1 else 0x100 * Pow256(n - 1)
  }

  lemma Pow256Values()
    ensures Pow256(1) == 0x100
    ensures Pow256(2) == 0x1_0000
    ensures Pow256(4) == 0x1_0000_0000
    ensures Pow256(8) == 0x1_0000_0000_0000_0000
  {
    assert Pow256(3) == 0x100_0000;
    assert Pow256(5) == 0x100_0000_0000;
    assert Pow256(6) == 0x1_0000_0000_0000;
    assert Pow256(7) == 0x100_0000_0000_0000;
  }

  /** The n low-order bytes of u, most significant first. */
  function BigEndian(u: nat, n: nat): (r: seq<byte>)
    ensures |r| == n
  {
    if n == 0 then [] else BigEndian(u / 0x100, n - 1) + [u % 0x100]
  }

  /** The number a byte string denotes when read most significant byte first. */
  function FromBigEndian(s: seq<byte>): (r: nat)
    ensures r < Pow256(|s|)
  {
    if s == [] then 0 else FromBigEndian(s[..|s| - 1]) * 0x100 + s[|s| - 1]
  }

  /** Reading back the bytes BigEndian emits yields u modulo the width. */
  lemma {:induction false} FromBigEndianOfBigEndian(u: nat, n: nat)
    ensures FromBigEndian(BigEndian(u, n)) == u % Pow256(n)
  {
    if n == 0 {
    } else {
      var s := BigEndian(u, n);
      assert s[..|s| - 1] == BigEndian(u / 0x100, n - 1);
      FromBigEndianOfBigEndian(u / 0x100, n - 1);
      ModOfQuotient(u, Pow256(n - 1));
    }
  }

  /** Every byte string is the big-endian layout of the number it denotes. */
  lemma {:induction false} BigEndianOfFromBigEndian(s: seq<byte>)
    ensures BigEndian(FromBigEndian(s), |s|) == s
  {
    if s != [] {
      var init := s[..|s| - 1];
      var v := FromBigEndian(s);
      assert v / 0x100 == FromBigEndian(init);
      assert v % 0x100 == s[|s| - 1];
      BigEndianOfFromBigEndian(init);
      assert s == init + [s[|s| - 1]];
    }
  }

  /** The unique remainder: x is u modulo m whenever u == q * m + x with 0 <= x < m. */
  lemma ModUnique(u: int, m: int, q: int, x: int)
    requires m > 0 && 0 <= x < m && u == q * m + x
    ensures u % m == x && u / m == q
  {
    var d := u / m - q;
    assert m * d == x - u % m;
  }

  /** Splitting off the low byte: (u / 256) mod P, shifted back, plus the low byte is u mod 256 P. */
  lemma ModOfQuotient(u: nat, p: nat)
    requires p >= 1
    ensures (u / 0x100 % p) * 0x100 + u % 0x100 == u % (0x100 * p)
  {
    var q := u / 0x100;
    var r := u % 0x100;
    var a := q / p;
    var b := q % p;
    assert q == a * p + b;
    assert u == q * 0x100 + r;
    assert u == a * (0x100 * p) + (b * 0x100 + r);
    assert b * 0x100 + r < 0x100 * p by {
      assert b <= p - 1;
      assert b * 0x100 <= (p - 1) * 0x100;
    }
    ModUnique(u, 0x100 * p, a, b * 0x100 + r);
  }

  /** Whether v fits an n-byte two's-complement integer. */
  predicate InSigned(v: int, n: nat)
  {
    -(Pow256(n) / 2) <= v < Pow256(n) / 2
  }

  /** The n-byte two's-complement bit pattern of v, read as an unsigned number. */
  function Unsigned(v: int, n: nat): (r: nat)
    ensures r < Pow256(n)
  {
    v % Pow256(n)
  }

  /** The value an n-byte two's-complement bit pattern u denotes. */
  function Signed(u: nat, n: nat): int
    requires 1 <= n && u < Pow256(n)
  {
    if u < Pow256(n) / 2 then u else u - Pow256(n)
  }

  /**
    A conversion to an n-byte signed type (static_cast in C++20 terms): the
    unique value of the narrow type congruent to x modulo 256^n.
   */
  function Wrap(x: int, n: nat): (r: int)
    requires n >= 1
    ensures InSigned(r, n)
    ensures (x - r) % Pow256(n) == 0
    ensures InSigned(x, n) ==> r == x
  {
    WrapCongruent(x, n);
    Signed(Unsigned(x, n), n)
  }

  lemma WrapCongruent(x: int, n: nat)
    requires n >= 1
    ensures InSigned(Signed(Unsigned(x, n), n), n)
    ensures (x - Signed(Unsigned(x, n), n)) % Pow256(n) == 0
    ensures InSigned(x, n) ==> Signed(Unsigned(x, n), n) == x
  {
    var m := Pow256(n);
    EvenWidth(n);
    var u := Unsigned(x, n);
    var q := x / m;
    QuotientRemainder(x, m);
    ModUnique(x - u, m, q, 0);
    if u >= m / 2 {
      MulSucc(q, m);
      ModUnique(x - (u as int - m), m, q + 1, 0);
    }
    if InSigned(x, n) {
      FitsUnchanged(x, n);
    }
  }

  lemma QuotientRemainder(x: int, m: int)
    requires m > 0
    ensures x - x % m == (x / m) * m
  {
  }

  lemma MulSucc(q: int, m: int)
    ensures (q + 1) * m == q * m + m
  {
  }

  lemma EvenWidth(n: nat)
    requires n >= 1
    ensures Pow256(n) % 2 == 0 && Pow256(n) >= 2
  {
  }

  /** A value that fits n bytes is its own n-byte pattern read back. */
  lemma FitsUnchanged(x: int, n: nat)
    requires n >= 1 && InSigned(x, n)
    ensures Signed(Unsigned(x, n), n) == x
  {
    var m := Pow256(n);
    EvenWidth(n);
    if x >= 0 {
      ModUnique(x, m, 0, x);
    } else {
      ModUnique(x, m, -1, x + m);
    }
  }

  /** Taking the bit pattern of a value that fits and reading it back gives the value. */
  lemma SignedOfUnsigned(v: int, n: nat)
    requires n >= 1 && InSigned(v, n)
    ensures Signed(Unsigned(v, n), n) == v
  {
    assert Wrap(v, n) == v;
  }

  /** Two values of the same width with the same bit pattern are equal. */
  lemma UnsignedInjective(a: int, b: int, n: nat)
    requires n >= 1 && InSigned(a, n) && InSigned(b, n)
    requires Unsigned(a, n) == Unsigned(b, n)
    ensures a == b
  {
    SignedOfUnsigned(a, n);
    SignedOfUnsigned(b, n);
  }

  /** Every pattern is the pattern of the value it denotes. */
  lemma UnsignedOfSigned(u: nat, n: nat)
    requires 1 <= n && u < Pow256(n)
    ensures InSigned(Signed(u, n), n)
    ensures Unsigned(Signed(u, n), n) == u
  {
    var m := Pow256(n);
    assert m % 2 == 0;
    if u < m / 2 {
      ModUnique(u, m, 0, u);
    } else {
      ModUnique(u - m, m, -1, u);
    }
  }
}
