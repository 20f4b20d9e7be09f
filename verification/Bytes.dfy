/** Bytes, fixed-width integers and the slicing rules of Node.js buffers. */
module Bytes {

  type Byte = b: int | 0 <= b < 256
  type Bytes = seq<Byte>

  /** One UTF-16 code unit; JavaScript strings are sequences of these. */
  type CodeUnit = u: int | 0 <= u < 0x1_0000
  type Text = seq<CodeUnit>

  const TWO31: int := 0x8000_0000
  const TWO32: int := 0x1_0000_0000
  const TWO63: int := 0x8000_0000_0000_0000
  const TWO64: int := 0x1_0000_0000_0000_0000
  const MAX_SAFE_INTEGER: int := 0x1F_FFFF_FFFF_FFFF

  function Pow256(w: nat): (p: int)
    ensures p > 0
  {
    if w == 0 then 1 else 256 * Pow256(w - 1)
  }

  lemma Pow256Values()
    ensures Pow256(1) == 0x100 && Pow256(2) == 0x1_0000
    ensures Pow256(4) == TWO32 && Pow256(8) == TWO64
  {
    assert Pow256(3) == 0x100_0000;
    assert Pow256(5) == 256 * TWO32;
    assert Pow256(6) == 0x1_0000 * TWO32;
  }

  lemma {:induction false} Pow256Mono(v: nat, w: nat)
    requires v <= w
    ensures Pow256(v) <= Pow256(w)
  {
    if v < w {
      Pow256Mono(v, w - 1);
    }
  }

  /** The low `w` bytes of `n`, most significant first. */
  function BE(n: nat, w: nat): (s: Bytes)
    ensures |s| == w
  {
    if w == 0 then [] else BE(n / 256, w - 1) + [n % 256]
  }

  function FromBE(s: Bytes): nat {
    if s == [] then 0 else 256 * FromBE(s[..|s| - 1]) + s[|s| - 1]
  }

  lemma {:induction false} BERoundTrip(n: nat, w: nat)
    requires n < Pow256(w)
    ensures FromBE(BE(n, w)) == n
  {
    if w > 0 {
      BERoundTrip(n / 256, w - 1);
      assert BE(n, w)[..w - 1] == BE(n / 256, w - 1);
    }
  }

  lemma {:induction false} FromBEBound(s: Bytes)
    ensures FromBE(s) < Pow256(|s|)
  {
    if s != [] {
      FromBEBound(s[..|s| - 1]);
    }
  }

  /** The low `w` bytes of `n`, least significant first. */
  function LE(n: nat, w: nat): (s: Bytes)
    ensures |s| == w
  {
    if w == 0 then [] else [n % 256] + LE(n / 256, w - 1)
  }

  function FromLE(s: Bytes): nat {
    if s == [] then 0 else s[0] + 256 * FromLE(s[1..])
  }

  lemma {:induction false} LERoundTrip(n: nat, w: nat)
    requires n < Pow256(w)
    ensures FromLE(LE(n, w)) == n
  {
    if w > 0 {
      LERoundTrip(n / 256, w - 1);
      assert LE(n, w)[1..] == LE(n / 256, w - 1);
    }
  }

  lemma {:induction false} FromLEBound(s: Bytes)
    ensures FromLE(s) < Pow256(|s|)
  {
    if s != [] {
      FromLEBound(s[1..]);
    }
  }

  /** Two's-complement reading of `n` in `w` bytes. */
  function Signed(n: int, w: nat): int {
    var m := n % Pow256(w);
    if 2 * m >= Pow256(w) then m - Pow256(w) else m
  }

  /** The representative of `n` modulo 256^w that a two's-complement writer stores. */
  function Unsigned(n: int, w: nat): nat {
    n % Pow256(w)
  }

  lemma SignedUnsigned(n: int, w: nat)
    requires -Pow256(w) <= 2 * n < Pow256(w)
    ensures Unsigned(n, w) < Pow256(w)
    ensures Signed(Unsigned(n, w), w) == n
  {
    var p := Pow256(w);
    if n >= 0 {
      assert n % p == n by { SmallMod(n, p); }
    } else {
      assert (n + p) % p == n + p by { SmallMod(n + p, p); }
      assert n % p == n + p by { ShiftMod(n, p); }
      SmallMod(n + p, p);
    }
  }

  lemma SmallMod(n: int, p: int)
    requires 0 <= n < p
    ensures n % p == n
  {
  }

  lemma ShiftMod(n: int, p: int)
    requires p > 0
    ensures (n + p) % p == n % p
  {
    var q, r := n / p, n % p;
    assert n + p == (q + 1) * p + r;
    ModUnique(n + p, p, q + 1, r);
  }

  /** Quotient and remainder are determined by their defining equation. */
  lemma ModUnique(n: int, p: int, q: int, r: int)
    requires p > 0 && 0 <= r < p && n == q * p + r
    ensures n / p == q && n % p == r
  {
    var q', r' := n / p, n % p;
    assert n == q' * p + r';
    assert (q - q') * p == r' - r;
    if q > q' {
      MulMono(1, q - q', p);
      assert false;
    } else if q < q' {
      assert (q' - q) * p == r - r';
      MulMono(1, q' - q, p);
      assert false;
    }
  }

  lemma MulMono(a: int, b: int, p: int)
    requires a <= b && p >= 0
    ensures a * p <= b * p
  {
  }

  /** `s.slice(start, end)`: negative positions count from the end, everything is clamped. */
  function JsSlice<T>(s: seq<T>, start: int, end: int): (r: seq<T>)
    ensures 0 <= start <= end <= |s| ==> r == s[start..end]
    ensures |r| <= |s|
  {
    var lo := JsClamp(start, |s|);
    var hi := JsClamp(end, |s|);
    if lo < hi then s[lo..hi] else []
  }

  function JsClamp(i: int, n: nat): (c: nat)
    ensures c <= n
    ensures 0 <= i <= n ==> c == i
  {
    if i < 0 then (if i + n < 0 then 0 else i + n)
    else if i > n then n else i
  }

  /** Concatenation of a list of buffers. */
  function Flatten<T>(parts: seq<seq<T>>): seq<T> {
    if parts == [] then [] else Flatten(parts[..|parts| - 1]) + parts[|parts| - 1]
  }

  lemma {:induction false} FlattenAppend<T>(a: seq<seq<T>>, b: seq<seq<T>>)
    ensures Flatten(a + b) == Flatten(a) + Flatten(b)
  {
    if b == [] {
      assert a + b == a;
    } else {
      FlattenAppend(a, b[..|b| - 1]);
      assert (a + b)[..|a + b| - 1] == a + b[..|b| - 1];
    }
  }
}
