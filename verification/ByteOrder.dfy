/** What the fixed-width integers mean, byte by byte. */
module ByteOrder {
  import opened Bytes

  lemma OneByte(s: Bytes)
    requires |s| == 1
    ensures FromBE(s) == s[0] && FromLE(s) == s[0]
  {
    assert FromBE(s[..0]) == 0 && FromLE(s[1..]) == 0;
  }

  lemma TwoBytes(s: Bytes)
    requires |s| == 2
    ensures FromBE(s) == 0x100 * s[0] as int + s[1] as int
    ensures FromLE(s) == s[0] as int + 0x100 * s[1] as int
  {
    OneByte(s[..1]);
    OneByte(s[1..]);
  }

  lemma ThreeBytes(s: Bytes)
    requires |s| == 3
    ensures FromBE(s) == 0x1_0000 * s[0] as int + 0x100 * s[1] as int + s[2] as int
  {
    TwoBytes(s[..2]);
  }

  lemma FourBytes(s: Bytes)
    requires |s| == 4
    ensures FromBE(s) == 0x100_0000 * s[0] as int + 0x1_0000 * s[1] as int + 0x100 * s[2] as int + s[3] as int
    ensures FromLE(s) == s[0] as int + 0x100 * s[1] as int + 0x1_0000 * s[2] as int + 0x100_0000 * s[3] as int
  {
    ThreeBytes(s[..3]);
    TwoBytes(s[2..]);
    assert s[1..][1..] == s[2..] && s[1..][0] == s[1];
    assert FromLE(s[1..]) == s[1] as int + 256 * FromLE(s[2..]);
  }

  /** Big-endian: the bytes in front count 256 to the number of bytes behind them. */
  lemma {:induction false} HighBytes(a: Bytes, b: Bytes)
    ensures FromBE(a + b) == FromBE(a) * Pow256(|b|) + FromBE(b)
  {
    if b == [] {
      assert a + b == a;
    } else {
      var n := |b| - 1;
      assert (a + b)[..|a + b| - 1] == a + b[..n];
      HighBytes(a, b[..n]);
      Distribute(FromBE(a), Pow256(n), FromBE(b[..n]));
    }
  }

  /** Little-endian: the bytes behind count 256 to the number of bytes in front. */
  lemma {:induction false} LowBytes(a: Bytes, b: Bytes)
    ensures FromLE(a + b) == FromLE(a) + Pow256(|a|) * FromLE(b)
  {
    if a == [] {
      assert a + b == b;
    } else {
      assert (a + b)[1..] == a[1..] + b;
      LowBytes(a[1..], b);
      Distribute(FromLE(b), Pow256(|a| - 1), FromLE(a[1..]));
    }
  }

  lemma Distribute(x: int, p: int, y: int)
    ensures 256 * (x * p + y) == x * (256 * p) + 256 * y && 256 * (y + p * x) == 256 * y + (256 * p) * x
  {
    assert 256 * (x * p) == x * (256 * p);
  }

  lemma EightBytes(s: Bytes)
    requires |s| == 8
    ensures FromBE(s) == TWO32 * FromBE(s[..4]) + FromBE(s[4..])
    ensures FromLE(s) == FromLE(s[..4]) + TWO32 * FromLE(s[4..])
  {
    assert s == s[..4] + s[4..];
    Pow256Values();
    HighBytes(s[..4], s[4..]);
    LowBytes(s[..4], s[4..]);
  }

  /** A number is written as the bytes that read as it, and as no others. */
  lemma OneWriting(s: Bytes)
    ensures BE(FromBE(s), |s|) == s && LE(FromLE(s), |s|) == s
  {
    OneWritingBE(s);
    OneWritingLE(s);
  }

  lemma {:induction false} OneWritingBE(s: Bytes)
    ensures BE(FromBE(s), |s|) == s
  {
    if s != [] {
      var init, last := s[..|s| - 1], s[|s| - 1];
      OneWritingBE(init);
      assert s == init + [last];
      ModUnique(FromBE(s), 256, FromBE(init), last);
    }
  }

  lemma {:induction false} OneWritingLE(s: Bytes)
    ensures LE(FromLE(s), |s|) == s
  {
    if s != [] {
      var first, rest := s[0], s[1..];
      OneWritingLE(rest);
      assert s == [first] + rest;
      ModUnique(FromLE(s), 256, FromLE(rest), first);
    }
  }

  /** The constants the widths stand for. */
  lemma Widths()
    ensures Pow256(0) == 1 && forall w: nat :: Pow256(w + 1) == 256 * Pow256(w)
    ensures TWO31 == 2147483648 && TWO32 == 4294967296 && TWO63 == 9223372036854775808 && TWO64 == 18446744073709551616
  {
  }
}
