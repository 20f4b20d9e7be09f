/** JavaScript big integers: truncated remainders, modular exponentiation, and buffers. */
module BigIntegers {
  import opened Bytes
  import opened Wrappers

  datatype RangeError = ZeroModulus | NegativeExponent | NegativeValue | TooLarge | EmptyBuffer

  // ----- the truncated remainder `a % m` -----

  function Abs(a: int): nat {
    if a < 0 then -a else a
  }

  function Sign(a: int): int {
    if a < 0 then -1 else if a > 0 then 1 else 0
  }

  /** The remainder takes the sign of the dividend. */
  function TruncRem(a: int, m: int): (r: int)
    requires m != 0
    ensures Abs(r) == Abs(a) % Abs(m) && (r == 0 || Sign(r) == Sign(a))
    ensures Abs(r) < Abs(m)
  {
    if a < 0 then -(Abs(a) % Abs(m)) else Abs(a) % Abs(m)
  }

  lemma AbsProduct(a: int, b: int)
    ensures Abs(a * b) == Abs(a) * Abs(b)
  {
    if a == 0 || b == 0 {
    } else if (a > 0) == (b > 0) {
      assert a * b > 0;
    } else {
      assert a * b < 0;
    }
  }

  lemma SameSign(a: int, b: int, c: int)
    requires Sign(a) == Sign(b)
    ensures Sign(a * c) == Sign(b * c)
  {
    if a != 0 && c != 0 {
      if (a > 0) == (c > 0) {
        assert a * c > 0 && b * c > 0;
      } else {
        assert a * c < 0 && b * c < 0;
      }
    }
  }

  lemma SameNumber(x: int, y: int)
    requires Abs(x) == Abs(y) && (x == 0 || y == 0 || Sign(x) == Sign(y))
    ensures x == y
  {
  }

  lemma Reorder(a: int, b: int, p: int, q: int)
    ensures (a * b) * (p * q) == (a * p) * (b * q)
  {
    Regroup(a, b, p * q);
    Regroup(a, p, b * q);
    Regroup(b, p, q);
    Regroup(p, b, q);
    assert b * p == p * b;
  }

  lemma Regroup(a: int, b: int, c: int)
    ensures (a * b) * c == a * (b * c) == b * (a * c)
  {
  }

  /** A factor of a remainder's argument may be reduced first. */
  lemma ModFactor(a: nat, b: nat, m: int)
    requires m > 0
    ensures ((a % m) * b) % m == (a * b) % m
  {
    var q, r := a / m, a % m;
    assert a == q * m + r;
    calc {
      a * b;
      (q * m + r) * b;
      (q * b) * m + r * b;
    }
    AddMultiple(r * b, q * b, m);
  }

  lemma AddMultiple(n: int, q: int, m: int)
    requires m > 0
    ensures (q * m + n) % m == n % m
  {
    var d, r := n / m, n % m;
    assert n == d * m + r;
    assert q * m + n == (q + d) * m + r;
    ModUnique(q * m + n, m, q + d, r);
  }

  lemma TruncFactor(a: int, b: int, m: int)
    requires m != 0
    ensures TruncRem(TruncRem(a, m) * b, m) == TruncRem(a * b, m)
  {
    hide TruncRem, Abs, Sign;
    var r := TruncRem(a, m);
    var x, y := TruncRem(r * b, m), TruncRem(a * b, m);
    assert Abs(x) == Abs(y) by {
      AbsProduct(r, b);
      AbsProduct(a, b);
      NonZeroAbs(m);
      ModFactor(Abs(a), Abs(b), Abs(m));
    }
    if r == 0 {
      assert r * b == 0;
      ZeroRem(m);
      ZeroAbs(y);
    } else {
      SameSign(r, a, b);
      SameNumber(x, y);
    }
  }

  lemma NonZeroAbs(m: int)
    requires m != 0
    ensures Abs(m) > 0
  {
  }

  lemma ZeroAbs(y: int)
    ensures Abs(y) == Abs(0) ==> y == 0
  {
  }

  lemma ZeroRem(m: int)
    requires m != 0
    ensures TruncRem(0, m) == 0
  {
  }

  // ----- powers -----

  function Pow(b: int, e: nat): int {
    if e == 0 then 1 else b * Pow(b, e - 1)
  }

  lemma {:induction false} PowAdd(b: int, d: nat, e: nat)
    ensures Pow(b, d + e) == Pow(b, d) * Pow(b, e)
  {
    if d > 0 {
      PowAdd(b, d - 1, e);
      Regroup(b, Pow(b, d - 1), Pow(b, e));
    }
  }

  lemma {:induction false} PowOfProduct(a: int, b: int, e: nat)
    ensures Pow(a * b, e) == Pow(a, e) * Pow(b, e)
  {
    if e > 0 {
      PowOfProduct(a, b, e - 1);
      Reorder(a, b, Pow(a, e - 1), Pow(b, e - 1));
    }
  }

  lemma {:induction false} PowOfPow(b: int, d: nat, e: nat)
    ensures d * e >= 0 && Pow(Pow(b, d), e) == Pow(b, d * e)
  {
    if e == 0 {
      assert d * e == 0;
    } else {
      PowOfPow(b, d, e - 1);
      assert d * e == d + d * (e - 1);
      PowAdd(b, d, d * (e - 1));
    }
  }

  lemma PowNonNegative(b: int, e: nat)
    requires b >= 0
    ensures Pow(b, e) >= 0
  {
    if e > 0 {
      PowNonNegative(b, e - 1);
      assert b * Pow(b, e - 1) >= 0;
    }
  }

  /** Squaring the base and halving the exponent. */
  lemma SquareStep(b: int, e: nat)
    ensures Pow(b, e) == (if e % 2 == 1 then b else 1) * Pow(b * b, e / 2)
  {
    PowOfProduct(b, b, e / 2);
    PowAdd(b, e / 2, e / 2);
    if e % 2 == 1 {
      assert e == 1 + (e / 2 + e / 2);
      assert Pow(b, e) == b * Pow(b, e / 2 + e / 2);
    } else {
      assert e == e / 2 + e / 2;
    }
  }

  lemma {:induction false} TruncPow(r: int, b: int, e: nat, m: int)
    requires m != 0
    ensures TruncRem(r * Pow(TruncRem(b, m), e), m) == TruncRem(r * Pow(b, e), m)
    decreases e
  {
    hide TruncRem, Pow;
    if e > 0 {
      var t := TruncRem(b, m);
      var p, p' := Pow(t, e - 1), Pow(b, e - 1);
      calc {
        TruncRem(r * Pow(t, e), m);
        { PowStep(t, e); Regroup(r, t, p); }
        TruncRem(t * (r * p), m);
        { TruncFactor(b, r * p, m); }
        TruncRem(b * (r * p), m);
        { Regroup(b, r, p); }
        TruncRem((b * r) * p, m);
        { TruncPow(b * r, b, e - 1, m); }
        TruncRem((b * r) * p', m);
        { PowStep(b, e); Regroup(b, r, p'); }
        TruncRem(r * Pow(b, e), m);
      }
    } else {
      PowZero(TruncRem(b, m));
      PowZero(b);
    }
  }

  lemma PowStep(b: int, e: nat)
    requires e > 0
    ensures Pow(b, e) == b * Pow(b, e - 1)
  {
  }

  lemma PowZero(b: int)
    ensures Pow(b, 0) == 1
  {
  }

  // ----- modular exponentiation -----

  /** What `modPow` returns: the loop leaves 1 unreduced when the exponent is 0. */
  function PowerMod(base: int, exponent: int, modulus: int): Result<int, RangeError> {
    if modulus == 0 then Err(ZeroModulus)
    else if exponent < 0 then Err(NegativeExponent)
    else if exponent == 0 then Ok(1)
    else Ok(TruncRem(Pow(base, exponent), modulus))
  }

  /** It is the remainder of the power for every exponent, except for exponent 0 and modulus 1 or -1. */
  lemma PowerModExactlyWhen(base: int, exponent: int, modulus: int)
    requires modulus != 0 && exponent >= 0
    ensures PowerMod(base, exponent, modulus) == Ok(TruncRem(Pow(base, exponent), modulus))
            <==> !(exponent == 0 && Abs(modulus) == 1)
  {
    if exponent == 0 && Abs(modulus) > 1 {
      SmallMod(1, Abs(modulus));
    }
  }

  /** Square and multiply. */
  method ModPow(base: int, exponent: int, modulus: int) returns (r: Result<int, RangeError>)
    ensures r == PowerMod(base, exponent, modulus)
  {
    hide TruncRem, Pow;
    if modulus == 0 {
      return Err(ZeroModulus);
    }
    if exponent < 0 {
      return Err(NegativeExponent);
    }
    var result := 1;
    var b := TruncRem(base, modulus);
    var e := exponent;
    ghost var goal := TruncRem(Pow(base, exponent), modulus);
    TruncPow(1, base, exponent, modulus);
    while e > 0
      invariant 0 <= e
      invariant TruncRem(result * Pow(b, e), modulus) == goal
      invariant Abs(result) < Abs(modulus) || e > 0 || exponent == 0
      invariant exponent == 0 ==> e == 0 && result == 1
    {
      RoundKeeps(result, b, e, modulus);
      if e % 2 == 1 {
        result := TruncRem(result * b, modulus);
      }
      e := e / 2;
      b := TruncRem(b * b, modulus);
    }
    if exponent > 0 {
      assert e == 0;
      Reduced(result, b, modulus);
      assert result == goal;
    }
    r := Ok(result);
  }

  /** One round of the loop keeps the remainder of `result * b^e`. */
  lemma RoundKeeps(result: int, b: int, e: nat, m: int)
    requires m != 0 && e > 0
    ensures var result' := if e % 2 == 1 then TruncRem(result * b, m) else result;
            TruncRem(result' * Pow(TruncRem(b * b, m), e / 2), m) == TruncRem(result * Pow(b, e), m)
  {
    hide TruncRem, Pow;
    SquareStep(b, e);
    var f := e / 2;
    if e % 2 == 1 {
      TruncFactor(result * b, Pow(TruncRem(b * b, m), f), m);
      TruncPow(result * b, b * b, f, m);
      Regroup(result, b, Pow(b * b, f));
    } else {
      TruncPow(result, b * b, f, m);
    }
  }

  lemma Reduced(r: int, b: int, m: int)
    requires m != 0 && Abs(r) < Abs(m)
    ensures TruncRem(r * Pow(b, 0), m) == r
  {
    SmallMod(Abs(r), Abs(m));
  }

  // ----- buffers -----

  /** Hexadecimal digits of `value.toString(16)`. */
  function HexDigits(value: nat): (n: nat)
    ensures n > 0
  {
    if value < 16 then 1 else 1 + HexDigits(value / 16)
  }

  function ByteLength(value: nat): (n: nat)
    ensures n > 0
  {
    (HexDigits(value) + 1) / 2
  }

  function BigIntToBuffer(value: int, length: nat): Result<Bytes, RangeError> {
    if value < 0 then Err(NegativeValue)
    else if ByteLength(value) > length then Err(TooLarge)
    else Ok(BE(value, length))
  }

  function BigIntToMinimalBuffer(value: int): Result<Bytes, RangeError> {
    if value < 0 then Err(NegativeValue) else Ok(BE(value, ByteLength(value)))
  }

  /** `BigInt("0x" + hex)`: there is no digit to parse in an empty buffer. */
  function BufferToBigInt(buffer: Bytes): Result<nat, RangeError> {
    if buffer == [] then Err(EmptyBuffer) else Ok(FromBE(buffer))
  }

  lemma {:induction false} ByteLengthFits(value: nat, length: nat)
    requires length > 0
    ensures ByteLength(value) <= length <==> value < Pow256(length)
  {
    if value < 256 {
      Pow256Mono(1, length);
      assert Pow256(1) == 256 * Pow256(0);
      if value >= 16 {
        assert HexDigits(value / 16) == 1;
      }
    } else {
      assert value / 16 / 16 == value / 256;
      assert HexDigits(value) == 2 + HexDigits(value / 256);
      if length == 1 {
        assert Pow256(1) == 256 * Pow256(0);
      } else {
        ByteLengthFits(value / 256, length - 1);
      }
    }
  }

  /** Fixed-length buffers hold exactly the values below 256^length, and give them back. */
  lemma BufferRoundTrip(value: int, length: nat)
    ensures BigIntToBuffer(value, length).Ok? <==> length > 0 && 0 <= value < Pow256(length)
    ensures BigIntToBuffer(value, length).Ok? ==>
              && |BigIntToBuffer(value, length).value| == length
              && BufferToBigInt(BigIntToBuffer(value, length).value) == Ok(value)
  {
    if value >= 0 && length > 0 {
      ByteLengthFits(value, length);
      if value < Pow256(length) {
        BERoundTrip(value, length);
      }
    }
  }

  lemma {:induction false} BEOfFromBE(s: Bytes)
    ensures BE(FromBE(s), |s|) == s
  {
    if s != [] {
      BEOfFromBE(s[..|s| - 1]);
    }
  }

  /** And back: reading a buffer and writing it at the same length restores it. */
  lemma BufferRestored(buffer: Bytes)
    requires buffer != []
    ensures BufferToBigInt(buffer).Ok?
    ensures BigIntToBuffer(BufferToBigInt(buffer).value, |buffer|) == Ok(buffer)
  {
    FromBEBound(buffer);
    ByteLengthFits(FromBE(buffer), |buffer|);
    BEOfFromBE(buffer);
  }

  /** Minimal buffers round-trip and have no leading zero byte, except for the value 0. */
  lemma MinimalRoundTrip(value: nat)
    ensures BigIntToMinimalBuffer(value).Ok?
    ensures var b := BigIntToMinimalBuffer(value).value;
            b != [] && BufferToBigInt(b) == Ok(value) && (value > 0 ==> b[0] > 0)
  {
    hide ByteLength, Pow256, BE, FromBE;
    var n := ByteLength(value);
    ByteLengthFits(value, n);
    BERoundTrip(value, n);
    LeadingByte(value, n);
    if value > 0 && n == 1 {
      Pow256Zero();
    } else if value > 0 {
      ByteLengthFits(value, n - 1);
    }
  }

  lemma Pow256Zero()
    ensures Pow256(0) == 1
  {
  }

  /** The first byte is zero exactly when the value fits in one byte less. */
  lemma {:induction false} LeadingByte(value: nat, n: nat)
    requires n > 0 && value < Pow256(n)
    ensures BE(value, n)[0] == 0 <==> value < Pow256(n - 1)
  {
    if n == 1 {
      assert BE(value, 1) == BE(value / 256, 0) + [value % 256];
      assert Pow256(1) == 256 * Pow256(0);
    } else {
      LeadingByte(value / 256, n - 1);
      assert BE(value, n)[0] == BE(value / 256, n - 1)[0];
    }
  }
}
