/**
 * The SRP-6a client as a state machine on values: what each call stores, returns or throws.  The hash,
 * the UTF-8 encoder and the random draws are parameters; the group is any modulus that fits the keys.
 */
module SrpProtocol {
  import opened Bytes
  import opened Wrappers
  import opened BigIntegers

  const KEY_LENGTH: nat := 384
  const GENERATOR: nat := 5
  const PRIVATE_KEY_BYTES: nat := 32
  const MAX_ATTEMPTS: nat := 100
  const SRP_USERNAME: Text := [80, 97, 105, 114, 45, 83, 101, 116, 117, 112]
  const COLON: CodeUnit := 58

  /** A SHA-512 digest. */
  type Digest = b: Bytes | |b| == 64 witness seq(64, i => 0)

  /** One draw of `randomBytes`. */
  type Draw = b: Bytes | |b| == PRIVATE_KEY_BYTES witness seq(PRIVATE_KEY_BYTES, i => 0)

  datatype Suite = Suite(N: nat, hash: Bytes -> Digest, utf8: Text -> Bytes)

  /** The modulus is a positive number that fits a key, as the 3072-bit prime does. */
  predicate Sound(s: Suite) {
    4 < s.N < Pow256(KEY_LENGTH)
  }

  datatype Error =
    | Disposed | EmptyUsername | EmptyPassword | EmptySalt | BadKeyLength | BadServerKey
    | NoKeys | NoPassword | NotReady | KeyGenerationFailed | ZeroScramble | InvalidParameter | Range(e: RangeError)

  function Lift<T>(r: Result<T, RangeError>): Result<T, Error> {
    match r
    case Ok(v) => Ok(v)
    case Err(e) => Err(Range(e))
  }

  // ----- formulas over the hash -----

  function CalculateK(s: Suite, N: int, g: int, keyLength: nat): Result<nat, Error> {
    if N <= 0 || g <= 0 || keyLength == 0 then Err(InvalidParameter)
    else
      var n :- Lift(BigIntToBuffer(N, keyLength));
      var gen :- Lift(BigIntToBuffer(g, keyLength));
      Lift(BufferToBigInt(s.hash(n + gen)))
  }

  function CalculateX(s: Suite, salt: Bytes, username: Text, password: Text): Result<nat, Error> {
    if salt == [] || username == [] || password == [] then Err(InvalidParameter)
    else Lift(BufferToBigInt(s.hash(salt + s.hash(s.utf8(username + [COLON] + password)))))
  }

  function CalculateU(s: Suite, A: int, B: int, keyLength: nat): Result<nat, Error> {
    if A <= 0 || B <= 0 || keyLength == 0 then Err(InvalidParameter)
    else
      var a :- Lift(BigIntToBuffer(A, keyLength));
      var b :- Lift(BigIntToBuffer(B, keyLength));
      var u :- Lift(BufferToBigInt(s.hash(a + b)));
      if u == 0 then Err(ZeroScramble) else Ok(u)
  }

  function Xor(a: Byte, b: Byte): Byte {
    ((a as bv8) ^ (b as bv8)) as int
  }

  function XorBytes(a: Bytes, b: Bytes): (r: Bytes)
    requires |a| == |b|
    ensures |r| == |a| && forall i :: 0 <= i < |r| ==> r[i] == Xor(a[i], b[i])
  {
    seq(|a|, i requires 0 <= i < |a| => Xor(a[i], b[i]))
  }

  function CalculateM1(s: Suite, N: int, g: int, username: Text, salt: Bytes, A: int, B: int, K: Bytes)
    : Result<Bytes, Error>
  {
    if N <= 0 || g <= 0 || A <= 0 || B <= 0 || username == [] || salt == [] || K == [] then Err(InvalidParameter)
    else
      var n :- Lift(BigIntToMinimalBuffer(N));
      var gen :- Lift(BigIntToMinimalBuffer(g));
      var a :- Lift(BigIntToMinimalBuffer(A));
      var b :- Lift(BigIntToMinimalBuffer(B));
      Ok(s.hash(XorBytes(s.hash(n), s.hash(gen)) + s.hash(s.utf8(username)) + salt + a + b + K))
  }

  // ----- state -----

  datatype Client = Client(username: Text, password: Text, salt: Option<Bytes>, a: nat, A: int, B: Option<nat>,
                           S: Option<int>, K: Option<Bytes>, keysGenerated: bool, disposed: bool)

  const NEW_CLIENT := Client(SRP_USERNAME, [], None, 0, 0, None, None, None, false, false)

  /** The state after a call, and what it returned or threw. */
  datatype Step<T> = Step(client: Client, result: Result<T, Error>)

  predicate IsSpace(u: CodeUnit) {
    9 <= u <= 13 || u == 32 || u == 0xA0 || u == 0x1680 || 0x2000 <= u <= 0x200A || u == 0x2028 || u == 0x2029
    || u == 0x202F || u == 0x205F || u == 0x3000 || u == 0xFEFF
  }

  function Trim(t: Text): Text {
    if t == [] then []
    else if IsSpace(t[0]) then Trim(t[1..])
    else if IsSpace(t[|t| - 1]) then Trim(t[..|t| - 1])
    else t
  }

  /** A stored big integer counts as present only when it is not zero. */
  predicate Truthy(b: Option<nat>) {
    b.Some? && b.value != 0
  }

  function SetIdentity(c: Client, username: Text, password: Text): Step<()> {
    if c.disposed then Step(c, Err(Disposed))
    else if Trim(username) == [] then Step(c, Err(EmptyUsername))
    else if password == [] then Step(c, Err(EmptyPassword))
    else Step(c.(username := Trim(username), password := password), Ok(()))
  }

  /** The key-generation loop from attempt number `attempts`; `draws(i)` is the i-th random draw. */
  function GenerateKeys(s: Suite, c: Client, draws: nat -> Draw, attempts: nat): Step<()>
    requires s.N != 0
    decreases MAX_ATTEMPTS - attempts
  {
    if attempts >= MAX_ATTEMPTS then Step(c, Err(KeyGenerationFailed))
    else
      var a := FromBE(draws(attempts));
      if a >= s.N || a == 0 then GenerateKeys(s, c.(a := a), draws, attempts + 1)
      else
        var A := PowerMod(GENERATOR, a, s.N).value;
        if A <= 1 || A >= s.N - 1 then GenerateKeys(s, c.(a := a, A := A), draws, attempts + 1)
        else Step(c.(a := a, A := A), Ok(()))
  }

  function GenerateIfReady(s: Suite, c: Client, draws: nat -> Draw): Step<()>
    requires s.N != 0
  {
    if c.salt.Some? && Truthy(c.B) && !c.keysGenerated then
      if c.password == [] then Step(c, Err(NoPassword))
      else
        var r := GenerateKeys(s, c, draws, 0);
        if r.result.Ok? then Step(r.client.(keysGenerated := true), r.result) else r
    else Step(c, Ok(()))
  }

  function SetSalt(s: Suite, c: Client, value: Bytes, draws: nat -> Draw): Step<()>
    requires s.N != 0
  {
    if c.disposed then Step(c, Err(Disposed))
    else if value == [] then Step(c, Err(EmptySalt))
    else GenerateIfReady(s, c.(salt := Some(value)), draws)
  }

  /** B is stored before it is checked. */
  function SetServerPublicKey(s: Suite, c: Client, value: Bytes, draws: nat -> Draw): Step<()>
    requires s.N != 0
  {
    if c.disposed then Step(c, Err(Disposed))
    else if |value| != KEY_LENGTH then Step(c, Err(BadKeyLength))
    else
      var B := FromBE(value);
      var c1 := c.(B := Some(B));
      if B <= 1 || B >= s.N - 1 then Step(c1, Err(BadServerKey))
      else if TruncRem(B, s.N) == 0 then Step(c1, Err(BadServerKey))
      else GenerateIfReady(s, c1, draws)
  }

  /** (B - k·g^x) with the sign of the truncated remainder corrected. */
  function SharedBase(N: int, k: int, gx: int, B: int): int
    requires N != 0
  {
    TruncRem(TruncRem(B - TruncRem(k * gx, N), N) + N, N)
  }

  function SharedSecret(N: int, k: int, x: nat, u: nat, a: nat, B: int): int
    requires N != 0
  {
    PowerMod(SharedBase(N, k, PowerMod(GENERATOR, x, N).value, B), a + u * x, N).value
  }

  function ComputeSharedSecret(s: Suite, k: nat, c: Client): Step<()>
    requires s.N != 0
  {
    if c.password == [] then Step(c, Err(NoPassword))
    else if c.salt.None? || !Truthy(c.B) then Step(c, Err(NotReady))
    else if c.A == 0 then Step(c, Err(NoKeys))
    else
      match CalculateU(s, c.A, c.B.value, KEY_LENGTH)
      case Err(e) => Step(c, Err(e))
      case Ok(u) =>
        match CalculateX(s, c.salt.value, c.username, c.password)
        case Err(e) => Step(c, Err(e))
        case Ok(x) =>
          var S := SharedSecret(s.N, k, x, u, c.a, c.B.value);
          match Lift(BigIntToBuffer(S, KEY_LENGTH))
          case Err(e) => Step(c.(S := Some(S)), Err(e))
          case Ok(b) => Step(c.(S := Some(S), K := Some(s.hash(b))), Ok(()))
  }

  /** The shared secret is computed when no key is stored. */
  function EnsureKey(s: Suite, k: nat, c: Client): Step<()>
    requires s.N != 0
  {
    if c.disposed then Step(c, Err(Disposed))
    else if c.password == [] then Step(c, Err(NoPassword))
    else if c.K.None? then ComputeSharedSecret(s, k, c)
    else Step(c, Ok(()))
  }

  function ComputeProof(s: Suite, k: nat, c: Client): Step<Bytes>
    requires s.N != 0
  {
    var r := EnsureKey(s, k, c);
    var d := r.client;
    if r.result.Err? then Step(d, Err(r.result.error))
    else if d.salt.None? || d.K.None? || !Truthy(d.B) then Step(d, Err(NotReady))
    else Step(d, CalculateM1(s, s.N, GENERATOR, d.username, d.salt.value, d.A, d.B.value, d.K.value))
  }

  function SessionKey(s: Suite, k: nat, c: Client): Step<Bytes>
    requires s.N != 0
  {
    var r := EnsureKey(s, k, c);
    if r.result.Err? then Step(r.client, Err(r.result.error))
    else if r.client.K.None? then Step(r.client, Err(NotReady))
    else Step(r.client, Ok(r.client.K.value))
  }

  predicate IsReady(c: Client) {
    !c.disposed && c.salt.Some? && Truthy(c.B) && c.keysGenerated
  }

  function Zeros(n: nat): (r: Bytes)
    ensures |r| == n && forall i :: 0 <= i < n ==> r[i] == 0
  {
    seq(n, i => 0)
  }

  function Dispose(c: Client): Client {
    if c.disposed then c
    else
      c.(password := [], a := 0, K := if c.K.Some? then Some(Zeros(|c.K.value|)) else None,
         salt := None, S := None, B := None, disposed := true)
  }
}

module SRPClient {
  import opened Bytes
  import opened Wrappers
  import opened BigIntegers
  import opened SrpProtocol

  class SRPClient {
    const suite: Suite
    const k: nat
    var username: Text
    var password: Text
    var saltValue: Option<Bytes>
    var a: nat
    var A: int
    var B: Option<nat>
    var S: Option<int>
    var K: Option<Bytes>
    var keysGenerated: bool
    var disposed: bool

    ghost function Current(): Client
      reads this
    {
      Client(username, password, saltValue, a, A, B, S, K, keysGenerated, disposed)
    }

    constructor (s: Suite)
      requires Sound(s)
      ensures suite == s && Ok(k) == CalculateK(s, s.N, GENERATOR, KEY_LENGTH) && Current() == NEW_CLIENT
    {
      suite := s;
      KDefined(s);
      k := CalculateK(s, s.N, GENERATOR, KEY_LENGTH).value;
      username, password := SRP_USERNAME, [];
      saltValue, B, S, K := None, None, None, None;
      a, A := 0, 0;
      keysGenerated, disposed := false, false;
    }

    method SetIdentity(user: Text, pass: Text) returns (r: Result<(), Error>)
      modifies this
      ensures Step(Current(), r) == SrpProtocol.SetIdentity(old(Current()), user, pass)
    {
      if disposed {
        return Err(Disposed);
      }
      if Trim(user) == [] {
        return Err(EmptyUsername);
      }
      if pass == [] {
        return Err(EmptyPassword);
      }
      username := Trim(user);
      password := pass;
      r := Ok(());
    }

    method SetSalt(value: Bytes, draws: nat -> Draw) returns (r: Result<(), Error>)
      requires Sound(suite)
      modifies this
      ensures Step(Current(), r) == SrpProtocol.SetSalt(suite, old(Current()), value, draws)
    {
      if disposed {
        return Err(Disposed);
      }
      if value == [] {
        return Err(EmptySalt);
      }
      saltValue := Some(value);
      r := GenerateClientKeysIfReady(draws);
    }

    method SetServerPublicKey(value: Bytes, draws: nat -> Draw) returns (r: Result<(), Error>)
      requires Sound(suite)
      modifies this
      ensures Step(Current(), r) == SrpProtocol.SetServerPublicKey(suite, old(Current()), value, draws)
    {
      if disposed {
        return Err(Disposed);
      }
      if |value| != KEY_LENGTH {
        return Err(BadKeyLength);
      }
      B := Some(FromBE(value));
      if B.value <= 1 || B.value >= suite.N - 1 {
        return Err(BadServerKey);
      }
      if TruncRem(B.value, suite.N) == 0 {
        return Err(BadServerKey);
      }
      r := GenerateClientKeysIfReady(draws);
    }

    method GenerateClientKeysIfReady(draws: nat -> Draw) returns (r: Result<(), Error>)
      requires Sound(suite)
      modifies this
      ensures Step(Current(), r) == GenerateIfReady(suite, old(Current()), draws)
    {
      hide GenerateKeys, Sound;
      SoundModulus(suite);
      r := Ok(());
      if saltValue.Some? && Truthy(B) && !keysGenerated {
        r := GenerateClientKeys(draws);
        if r.Ok? {
          keysGenerated := true;
        }
      }
    }

    method GenerateClientKeys(draws: nat -> Draw) returns (r: Result<(), Error>)
      requires Sound(suite)
      modifies this`a, this`A
      ensures 1 < suite.N
      ensures old(password) == [] ==> r == Err(NoPassword) && Current() == old(Current())
      ensures old(password) != [] ==> Step(Current(), r) == GenerateKeys(suite, old(Current()), draws, 0)
    {
      hide PowerMod, GenerateKeys, Sound;
      SoundModulus(suite);
      if password == [] {
        return Err(NoPassword);
      }
      var attempts := 0;
      while attempts < MAX_ATTEMPTS
        invariant attempts <= MAX_ATTEMPTS
        invariant GenerateKeys(suite, Current(), draws, attempts) == GenerateKeys(suite, old(Current()), draws, 0)
      {
        GenerateStep(suite, Current(), draws, attempts);
        a := FromBE(draws(attempts));
        if a >= suite.N {
          attempts := attempts + 1;
          continue;
        }
        if a == 0 {
          attempts := attempts + 1;
          continue;
        }
        var power := ModPow(GENERATOR, a, suite.N);
        PowerModReturns(GENERATOR, a, suite.N);
        A := power.value;
        if A <= 1 || A >= suite.N - 1 {
          attempts := attempts + 1;
          continue;
        }
        return Ok(());
      }
      GenerateEnds(suite, Current(), draws);
      r := Err(KeyGenerationFailed);
    }

    method ComputeSharedSecret() returns (r: Result<(), Error>)
      requires Sound(suite)
      modifies this
      ensures Step(Current(), r) == SrpProtocol.ComputeSharedSecret(suite, k, old(Current()))
    {
      hide PowerMod, CalculateU, CalculateX, BigIntToBuffer, Sound, TruncRem, Lift;
      SoundModulus(suite);
      if password == [] {
        return Err(NoPassword);
      }
      if saltValue.None? || !Truthy(B) {
        return Err(NotReady);
      }
      if A == 0 {
        return Err(NoKeys);
      }
      var u :- CalculateU(suite, A, B.value, KEY_LENGTH);
      var x :- CalculateX(suite, saltValue.value, username, password);
      var gx := ModPow(GENERATOR, x, suite.N);
      PowerModReturns(GENERATOR, x, suite.N);
      var kgx := TruncRem(k * gx.value, suite.N);
      var base := B.value - kgx;
      base := TruncRem(TruncRem(base, suite.N) + suite.N, suite.N);
      assert u * x >= 0;
      var power := ModPow(base, a + u * x, suite.N);
      PowerModReturns(base, a + u * x, suite.N);
      S := Some(power.value);
      var buffer :- Lift(BigIntToBuffer(S.value, KEY_LENGTH));
      K := Some(suite.hash(buffer));
      r := Ok(());
    }

    method ComputeProof() returns (r: Result<Bytes, Error>)
      requires Sound(suite)
      modifies this
      ensures Step(Current(), r) == SrpProtocol.ComputeProof(suite, k, old(Current()))
    {
      hide SrpProtocol.ComputeSharedSecret, SrpProtocol.CalculateM1;
      if disposed {
        return Err(Disposed);
      }
      if password == [] {
        return Err(NoPassword);
      }
      if K.None? {
        var done :- ComputeSharedSecret();
      }
      if saltValue.None? || K.None? || !Truthy(B) {
        return Err(NotReady);
      }
      r := CalculateM1InPlace(suite, suite.N, GENERATOR, username, saltValue.value, A, B.value, K.value);
    }

    method SessionKey() returns (r: Result<Bytes, Error>)
      requires Sound(suite)
      modifies this
      ensures Step(Current(), r) == SrpProtocol.SessionKey(suite, k, old(Current()))
    {
      hide SrpProtocol.ComputeSharedSecret;
      if disposed {
        return Err(Disposed);
      }
      if password == [] {
        return Err(NoPassword);
      }
      if K.None? {
        var done :- ComputeSharedSecret();
      }
      if K.None? {
        return Err(NotReady);
      }
      r := Ok(K.value);
    }

    method Dispose()
      modifies this
      ensures Current() == SrpProtocol.Dispose(old(Current()))
    {
      if disposed {
        return;
      }
      password := [];
      a := 0;
      if K.Some? {
        K := Some(Zeros(|K.value|));
      }
      saltValue, S, B := None, None, None;
      disposed := true;
    }
  }

  lemma SoundModulus(s: Suite)
    requires Sound(s)
    ensures s.N > 4
  {
  }

  lemma PowerModReturns(base: int, exponent: int, modulus: int)
    requires modulus != 0 && exponent >= 0
    ensures PowerMod(base, exponent, modulus).Ok?
  {
  }

  lemma GenerateStep(s: Suite, c: Client, draws: nat -> Draw, n: nat)
    requires s.N != 0 && n < MAX_ATTEMPTS
    ensures var a := FromBE(draws(n));
            GenerateKeys(s, c, draws, n) ==
            if a >= s.N || a == 0 then GenerateKeys(s, c.(a := a), draws, n + 1)
            else
              var A := PowerMod(GENERATOR, a, s.N).value;
              if A <= 1 || A >= s.N - 1 then GenerateKeys(s, c.(a := a, A := A), draws, n + 1)
              else Step(c.(a := a, A := A), Ok(()))
  {
  }

  lemma GenerateEnds(s: Suite, c: Client, draws: nat -> Draw)
    requires s.N != 0
    ensures GenerateKeys(s, c, draws, MAX_ATTEMPTS) == Step(c, Err(KeyGenerationFailed))
  {
  }

  lemma KDefined(s: Suite)
    requires Sound(s)
    ensures CalculateK(s, s.N, GENERATOR, KEY_LENGTH).Ok?
  {
    BufferRoundTrip(s.N, KEY_LENGTH);
    BufferRoundTrip(GENERATOR, KEY_LENGTH);
  }

  /** The evidence M1; the exclusive or of two digests is built in place, byte by byte. */
  method CalculateM1InPlace(s: Suite, N: int, g: int, username: Text, salt: Bytes, A: int, B: int, K: Bytes)
    returns (r: Result<Bytes, Error>)
    ensures r == SrpProtocol.CalculateM1(s, N, g, username, salt, A, B, K)
  {
    hide Xor, BigIntToMinimalBuffer;
    if N <= 0 || g <= 0 || A <= 0 || B <= 0 || username == [] || salt == [] || K == [] {
      return Err(InvalidParameter);
    }
    var n :- Lift(BigIntToMinimalBuffer(N));
    var gen :- Lift(BigIntToMinimalBuffer(g));
    var nHash := s.hash(n);
    var gHash := s.hash(gen);
    var xored := new Byte[|nHash|];
    for i := 0 to |nHash|
      invariant forall j :: 0 <= j < i ==> xored[j] == Xor(nHash[j], gHash[j])
    {
      xored[i] := Xor(nHash[i], gHash[i]);
    }
    assert xored[..] == XorBytes(nHash, gHash);
    var a :- Lift(BigIntToMinimalBuffer(A));
    var b :- Lift(BigIntToMinimalBuffer(B));
    r := Ok(s.hash(xored[..] + s.hash(s.utf8(username)) + salt + a + b + K));
  }
}
