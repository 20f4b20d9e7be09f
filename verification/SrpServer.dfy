/** The other side of SRP-6a: what a server with the verifier computes, and that the client agrees with it. */
module SrpServer {
  import opened Bytes
  import opened Wrappers
  import opened BigIntegers
  import opened SrpProtocol
  import opened SrpAgreement
  import opened SRPClient

  // ----- the server, from sections 2.5.3 and 2.6 of RFC 5054 -----

  /** A number in the 384 bytes of the 3072-bit group, and in as few bytes as it needs. */
  function Wide(n: nat): Bytes {
    BE(n, 384)
  }

  function Short(n: nat): Bytes {
    if n == 0 then [] else Short(n / 256) + [n % 256]
  }

  function DigestXor(a: Digest, b: Digest): Bytes {
    seq(64, i requires 0 <= i < 64 => ((a[i] as bv8) ^ (b[i] as bv8)) as int)
  }

  /** k = H(N | PAD(g)), with g = 5. */
  function Multiplier(s: Suite): nat {
    FromBE(s.hash(Wide(s.N) + Wide(5)))
  }

  /** x = H(salt | H(username | ":" | password)). */
  function PasswordHash(s: Suite, username: Text, password: Text, salt: Bytes): nat {
    FromBE(s.hash(salt + s.hash(s.utf8(username + [58] + password))))
  }

  /** What the server keeps for a user, and its private key for this session. */
  datatype Server = Server(username: Text, salt: Bytes, verifier: nat, b: nat)

  function Enrolled(s: Suite, username: Text, password: Text, salt: Bytes, b: nat): Server
    requires s.N > 0
  {
    Server(username, salt, Pow(5, PasswordHash(s, username, password, salt)) % s.N, b)
  }

  function PublicKey(s: Suite, v: Server): nat
    requires s.N > 0
  {
    PowNonNegative(5, v.b);
    (Multiplier(s) * v.verifier + Pow(5, v.b)) % s.N
  }

  /** u = H(PAD(A) | PAD(B)). */
  function Scramble(s: Suite, A: nat, B: nat): nat {
    FromBE(s.hash(Wide(A) + Wide(B)))
  }

  /** K = H(PAD(S)), with S = (A * v^u) ^ b mod N. */
  function ServerKeyFor(s: Suite, v: Server, A: nat): Bytes
    requires s.N > 0
  {
    var S := Pow(A * Pow(v.verifier, Scramble(s, A, PublicKey(s, v))), v.b) % s.N;
    s.hash(Wide(S))
  }

  /** M1 = H(H(N) xor H(g) | H(username) | salt | A | B | K). */
  function ExpectedProof(s: Suite, v: Server, A: nat): Bytes
    requires s.N > 0
  {
    s.hash(DigestXor(s.hash(Short(s.N)), s.hash(Short(5))) + s.hash(s.utf8(v.username)) + v.salt
           + Short(A) + Short(PublicKey(s, v)) + ServerKeyFor(s, v, A))
  }

  // ----- the client's hash inputs are the server's -----

  lemma {:induction false} ShortIsMinimal(n: nat)
    requires n > 0
    ensures BigIntToMinimalBuffer(n) == Ok(Short(n))
  {
    hide ByteLength;
    MinimalRoundTrip(n);
    var b := BigIntToMinimalBuffer(n).value;
    ShortRead(b);
  }

  /** Bytes without a leading zero are the shortest form of their number. */
  lemma {:induction false} ShortRead(b: Bytes)
    requires b != [] && b[0] > 0
    ensures FromBE(b) > 0 && Short(FromBE(b)) == b
  {
    var init, last := b[..|b| - 1], b[|b| - 1];
    var n := FromBE(init);
    assert FromBE(b) == 256 * n + last;
    ModUnique(256 * n + last, 256, n, last);
    if init == [] {
      assert b == [last] && n == 0;
    } else {
      ShortRead(init);
    }
  }

  lemma WideWritten(n: nat)
    requires n < Pow256(KEY_LENGTH)
    ensures BigIntToBuffer(n, KEY_LENGTH) == Ok(Wide(n))
  {
    hide BE, Pow256, ByteLength;
    ByteLengthFits(n, KEY_LENGTH);
  }

  lemma MultiplierAgrees(s: Suite)
    requires Sound(s)
    ensures CalculateK(s, s.N, GENERATOR, KEY_LENGTH) == Ok(Multiplier(s))
  {
    hide FromBE, BigIntToBuffer, Wide;
    WideWritten(s.N);
    FiveFits();
    WideWritten(5);
  }

  lemma FiveFits()
    ensures 5 < Pow256(KEY_LENGTH)
  {
    Pow256Mono(1, KEY_LENGTH);
    Pow256Values();
  }

  lemma PasswordHashAgrees(s: Suite, username: Text, password: Text, salt: Bytes)
    requires username != [] && password != [] && salt != []
    ensures CalculateX(s, salt, username, password) == Ok(PasswordHash(s, username, password, salt))
  {
    hide FromBE;
  }

  lemma ScrambleAgrees(s: Suite, A: nat, B: nat)
    requires 0 < A < Pow256(KEY_LENGTH) && 0 < B < Pow256(KEY_LENGTH)
    ensures CalculateU(s, A, B, KEY_LENGTH) ==
            if Scramble(s, A, B) == 0 then Err(ZeroScramble) else Ok(Scramble(s, A, B))
  {
    hide FromBE, BigIntToBuffer, Wide, Pow256;
    WideWritten(A);
    WideWritten(B);
  }

  lemma ProofAgrees(s: Suite, username: Text, salt: Bytes, A: nat, B: nat, K: Bytes)
    requires s.N > 0 && username != [] && salt != [] && A > 0 && B > 0 && K != []
    ensures CalculateM1(s, s.N, GENERATOR, username, salt, A, B, K)
            == Ok(s.hash(DigestXor(s.hash(Short(s.N)), s.hash(Short(5))) + s.hash(s.utf8(username)) + salt
                         + Short(A) + Short(B) + K))
  {
    hide BigIntToMinimalBuffer, Short;
    ShortIsMinimal(s.N);
    ShortIsMinimal(5);
    ShortIsMinimal(A);
    ShortIsMinimal(B);
    XorAgrees(s.hash(Short(s.N)), s.hash(Short(5)));
  }

  lemma XorAgrees(a: Digest, b: Digest)
    ensures XorBytes(a, b) == DigestXor(a, b)
  {
  }

  // ----- the whole handshake -----

  /** The client that has done everything but compute the proof, salt and B arriving in either order. */
  function Prepared(s: Suite, username: Text, password: Text, salt: Bytes, B: nat, draws: nat -> Draw, saltFirst: bool)
    : Step<()>
    requires s.N != 0
  {
    var c1 := SetIdentity(NEW_CLIENT, username, password).client;
    if saltFirst then SetServerPublicKey(s, SetSalt(s, c1, salt, draws).client, Wide(B), draws)
    else SetSalt(s, SetServerPublicKey(s, c1, Wide(B), draws).client, salt, draws)
  }

  /**
   * Client and server agree: with the same password, the client returns the server's session key and sends
   * the proof the server expects; both calls throw instead only when the scrambling parameter is zero.
   */
  lemma ProofIsAccepted(s: Suite, username: Text, password: Text, salt: Bytes, b: nat, draws: nat -> Draw,
                        saltFirst: bool)
    requires Sound(s) && Trim(username) != [] && password != [] && salt != []
    requires 1 < PublicKey(s, Enrolled(s, Trim(username), password, salt, b)) < s.N - 1
    ensures var v := Enrolled(s, Trim(username), password, salt, b);
            var last := Prepared(s, username, password, salt, PublicKey(s, v), draws, saltFirst);
            last.result.Ok? ==>
              var c, k := last.client, Multiplier(s);
              && c.A == Pow(5, c.a) % s.N && CalculateK(s, s.N, GENERATOR, KEY_LENGTH) == Ok(k)
              && if Scramble(s, c.A, PublicKey(s, v)) == 0 then
                   ComputeProof(s, k, c).result == Err(ZeroScramble) && SessionKey(s, k, c).result == Err(ZeroScramble)
                 else
                   && SessionKey(s, k, c).result == Ok(ServerKeyFor(s, v, c.A))
                   && ComputeProof(s, k, c).result == Ok(ExpectedProof(s, v, c.A))
  {
    hide GenerateKeys, CalculateX, CalculateU, CalculateM1, SessionKey, ComputeProof, Trim, Pow, TruncRem, Pow256,
        Sound;
    hide PublicKey, ServerKeyFor, ExpectedProof, PasswordHash, Scramble, Multiplier, ServerDigest, SetSalt,
        SetServerPublicKey;
    hide CalculateK;
    SoundModulus(s);
    var v := Enrolled(s, Trim(username), password, salt, b);
    var x, k, B := PasswordHash(s, Trim(username), password, salt), Multiplier(s), PublicKey(s, v);
    MultiplierAgrees(s);
    PasswordHashAgrees(s, Trim(username), password, salt);
    PublicKeyIs(s, Trim(username), password, salt, b);
    HandshakeAgrees(s, k, username, password, salt, b, x, draws, saltFirst);
    var last := Prepared(s, username, password, salt, B, draws, saltFirst);
    if last.result.Ok? {
      PreparedFacts(s, username, password, salt, B, draws, saltFirst);
      ReadyAgrees(s, last.client, v, x);
    }
  }

  lemma PublicKeyIs(s: Suite, username: Text, password: Text, salt: Bytes, b: nat)
    requires s.N > 0
    ensures PublicKey(s, Enrolled(s, username, password, salt, b))
            == ServerKey(s.N, Multiplier(s), PasswordHash(s, username, password, salt), b)
  {
    hide Pow, Multiplier, PasswordHash;
  }

  /** What the calls leave in the client. */
  lemma PreparedFacts(s: Suite, username: Text, password: Text, salt: Bytes, B: nat, draws: nat -> Draw,
                      saltFirst: bool)
    requires Sound(s) && Trim(username) != [] && password != [] && salt != [] && 1 < B < s.N - 1
    requires Prepared(s, username, password, salt, B, draws, saltFirst).result.Ok?
    ensures var c := Prepared(s, username, password, salt, B, draws, saltFirst).client;
            && Inv(s, c) && !c.disposed && c.keysGenerated && c.K.None? && c.A > 0
            && c.username == Trim(username) && c.password == password && c.salt == Some(salt) && c.B == Some(B)
  {
    hide GenerateKeys, Trim, Pow, TruncRem, Pow256, Sound;
    SoundModulus(s);
    FitsKey(s, B);
    BERoundTrip(B, KEY_LENGTH);
    RemOfNat(B, s.N);
    SmallMod(B, s.N);
    var c1 := SetIdentity(NEW_CLIENT, username, password).client;
    var ready := c1.(salt := Some(salt), B := Some(B));
    NewClientInv(s);
    IdentityFacts(s, NEW_CLIENT, username, password);
    SaltFacts(s, c1, Some(salt), Some(B));
    GenerateFacts(s, ready, draws, 0);
    ReadyFacts(s, ready, draws);
  }

  /** The handshake gets that far exactly when one of the hundred draws is acceptable. */
  lemma PreparedExactlyWhen(s: Suite, username: Text, password: Text, salt: Bytes, B: nat, draws: nat -> Draw,
                            saltFirst: bool)
    requires Sound(s) && Trim(username) != [] && password != [] && salt != [] && 1 < B < s.N - 1
    ensures Prepared(s, username, password, salt, B, draws, saltFirst).result.Ok?
            <==> exists i: nat :: i < 100 && Acceptable(s, draws(i))
  {
    hide GenerateKeys, Trim, Pow, TruncRem, Pow256, Sound, Acceptable;
    SoundModulus(s);
    FitsKey(s, B);
    BERoundTrip(B, KEY_LENGTH);
    RemOfNat(B, s.N);
    SmallMod(B, s.N);
    var c1 := SetIdentity(NEW_CLIENT, username, password).client;
    GeneratesExactlyWhen(s, c1.(salt := Some(salt), B := Some(B)), draws, 0);
  }

  lemma FitsKey(s: Suite, n: nat)
    requires Sound(s) && n < s.N
    ensures n < Pow256(KEY_LENGTH)
  {
  }

  /** A ready client and the server it talks to. */
  lemma ReadyAgrees(s: Suite, c: Client, v: Server, x: nat)
    requires Sound(s) && Inv(s, c) && !c.disposed && c.keysGenerated && c.K.None? && c.A > 0
    requires c.username != [] && c.password != [] && v.salt != [] && v.username == c.username
    requires x == PasswordHash(s, c.username, c.password, v.salt) && v.verifier == Pow(5, x) % s.N
    requires c.salt == Some(v.salt) && c.B == Some(PublicKey(s, v)) && 1 < PublicKey(s, v) < s.N - 1
    ensures var k := Multiplier(s);
            if Scramble(s, c.A, PublicKey(s, v)) == 0 then
              ComputeProof(s, k, c).result == Err(ZeroScramble) && SessionKey(s, k, c).result == Err(ZeroScramble)
            else
              && SessionKey(s, k, c).result == Ok(ServerKeyFor(s, v, c.A))
              && ComputeProof(s, k, c).result == Ok(ExpectedProof(s, v, c.A))
  {
    hide CalculateX, CalculateU, CalculateM1, ComputeSharedSecret, Pow, TruncRem, Pow256, Sound, Inv;
    hide PublicKey, PasswordHash, Scramble, Multiplier, ServerKeyFor, ExpectedProof;
    SoundModulus(s);
    var k, B := Multiplier(s), PublicKey(s, v);
    PasswordHashAgrees(s, c.username, c.password, v.salt);
    assert B == ServerKey(s.N, k, x, v.b) by {
      ServerKeyIs(s, v, x);
    }
    SessionKeyAgrees(s, k, c, v.b);
    AInRange(s, c);
    ScrambleAgrees(s, c.A, B);
    EnsureFacts(s, k, c);
    if Scramble(s, c.A, B) != 0 {
      DigestIs(s, k, c, v, x);
      ProofFromKey(s, k, c, v);
    }
  }

  lemma AInRange(s: Suite, c: Client)
    requires Sound(s) && Inv(s, c)
    ensures c.A < s.N < Pow256(KEY_LENGTH)
  {
  }

  lemma ServerKeyIs(s: Suite, v: Server, x: nat)
    requires s.N > 0 && v.verifier == Pow(5, x) % s.N
    ensures PublicKey(s, v) == ServerKey(s.N, Multiplier(s), x, v.b)
  {
    hide Pow, Multiplier;
  }

  lemma DigestIs(s: Suite, k: nat, c: Client, v: Server, x: nat)
    requires Sound(s) && c.A >= 0 && c.salt == Some(v.salt) && c.B == Some(PublicKey(s, v))
    requires v.verifier == Pow(5, x) % s.N
    requires CalculateX(s, v.salt, c.username, c.password) == Ok(x)
    requires CalculateU(s, c.A, PublicKey(s, v), KEY_LENGTH) == Ok(Scramble(s, c.A, PublicKey(s, v)))
    ensures ServerDigest(s, k, c, v.b) == ServerKeyFor(s, v, c.A)
  {
    hide CalculateX, CalculateU, Pow, Scramble, PublicKey;
  }

  /** Once the key is derived the proof is computed from it. */
  lemma ProofFromKey(s: Suite, k: nat, c: Client, v: Server)
    requires Sound(s) && Inv(s, c) && !c.disposed && c.A > 0 && c.username != [] && c.salt == Some(v.salt)
             && v.salt != []
    requires v.username == c.username && c.B == Some(PublicKey(s, v)) && PublicKey(s, v) > 0
    requires SessionKey(s, k, c).result == Ok(ServerKeyFor(s, v, c.A))
    ensures ComputeProof(s, k, c).result == Ok(ExpectedProof(s, v, c.A))
  {
    hide CalculateM1, EnsureKey, PublicKey, Inv, Sound, Short, DigestXor;
    SoundModulus(s);
    EnsureFacts(s, k, c);
    DigestNotEmpty(s, v, c.A);
    ProofAgrees(s, c.username, v.salt, c.A, PublicKey(s, v), ServerKeyFor(s, v, c.A));
  }

  lemma DigestNotEmpty(s: Suite, v: Server, A: nat)
    requires s.N > 0
    ensures |ServerKeyFor(s, v, A)| == 64
  {
  }

  // ----- when keys are generated -----

  /** A draw the client accepts: a in 1..N-1, with a public key in 2..N-2. */
  predicate Acceptable(s: Suite, draw: Draw)
    requires s.N > 0
  {
    var a := FromBE(draw);
    0 < a < s.N && 1 < Pow(5, a) % s.N < s.N - 1
  }

  /** Key generation succeeds exactly when one of the hundred draws is acceptable, and then takes the first. */
  lemma {:induction false} GeneratesExactlyWhen(s: Suite, c: Client, draws: nat -> Draw, n: nat)
    requires Sound(s) && n <= 100
    ensures s.N > 0
    ensures GenerateKeys(s, c, draws, n).result.Ok? <==> exists i: nat :: n <= i < 100 && Acceptable(s, draws(i))
    ensures GenerateKeys(s, c, draws, n).result.Ok? ==>
              exists i: nat :: n <= i < 100 && Acceptable(s, draws(i))
                  && (forall j: nat :: n <= j < i ==> !Acceptable(s, draws(j)))
                               && GenerateKeys(s, c, draws, n).client.a == FromBE(draws(i))
                               && GenerateKeys(s, c, draws, n).client.A == Pow(5, FromBE(draws(i))) % s.N
    decreases 100 - n
  {
    hide GenerateKeys, PowerMod, Pow, TruncRem, Sound, FromBE;
    SoundModulus(s);
    if n == 100 {
      GenerateEnds(s, c, draws);
    } else {
      GenerateStep(s, c, draws, n);
      var a := FromBE(draws(n));
      PowerInRange(a, s.N);
      PowNonNegative(5, a);
      RemOfNat(Pow(5, a), s.N);
      var A := PowerMod(GENERATOR, a, s.N).value;
      if !Acceptable(s, draws(n)) {
        var d := if a >= s.N || a == 0 then c.(a := a) else c.(a := a, A := A);
        GeneratesExactlyWhen(s, d, draws, n + 1);
      }
    }
  }

  // ----- the user name -----

  /** White space and line ends, as `trim` of ECMAScript takes them off. */
  predicate White(u: CodeUnit) {
    u in {9, 10, 11, 12, 13, 32, 0xA0, 0x1680, 0x2028, 0x2029, 0x202F, 0x205F, 0x3000, 0xFEFF} || 0x2000 <= u <= 0x200A
  }

  /** `w` is `t` without the white space at both ends: `front` of it and all behind. */
  predicate TrimmedTo(t: Text, front: nat, w: Text) {
    && front + |w| <= |t| && t[front..front + |w|] == w && (w != [] ==> !White(w[0]) && !White(w[|w| - 1]))
    && (forall i :: 0 <= i < front ==> White(t[i])) && (forall i :: front + |w| <= i < |t| ==> White(t[i]))
  }

  lemma SpaceIs(u: CodeUnit)
    ensures IsSpace(u) <==> White(u)
  {
  }

  lemma WhiteFront(t: Text, n: nat, w: Text)
    requires t != [] && White(t[0]) && TrimmedTo(t[1..], n, w)
    ensures TrimmedTo(t, n + 1, w)
  {
    hide White;
    assert t[1..][n..n + |w|] == t[n + 1..n + 1 + |w|];
    assert forall i :: 0 < i < |t| ==> t[1..][i - 1] == t[i];
  }

  lemma WhiteBack(t: Text, n: nat, w: Text)
    requires t != [] && White(t[|t| - 1]) && TrimmedTo(t[..|t| - 1], n, w)
    ensures TrimmedTo(t, n, w)
  {
    hide White;
  }

  lemma NotWhite(t: Text)
    requires t != [] ==> !White(t[0]) && !White(t[|t| - 1])
    ensures TrimmedTo(t, 0, t)
  {
  }

  lemma {:induction false} TrimIs(t: Text) returns (front: nat)
    ensures TrimmedTo(t, front, Trim(t))
    decreases |t|
  {
    hide White, IsSpace, TrimmedTo;
    front := 0;
    if t == [] {
      NotWhite(t);
    } else {
      SpaceIs(t[0]);
      SpaceIs(t[|t| - 1]);
      if IsSpace(t[0]) {
        front := TrimIs(t[1..]);
        WhiteFront(t, front, Trim(t));
        front := front + 1;
      } else if IsSpace(t[|t| - 1]) {
        front := TrimIs(t[..|t| - 1]);
        WhiteBack(t, front, Trim(t));
      } else {
        NotWhite(t);
      }
    }
  }

  /** A user name with anything but white space, and a password, are taken; the name is stored trimmed. */
  lemma IdentityTakenExactlyWhen(c: Client, username: Text, password: Text) returns (front: nat)
    ensures var r := SetIdentity(c, username, password);
            && (r.result.Ok? <==> !c.disposed && (exists u :: u in username && !White(u)) && password != [])
            && (if r.result.Ok? then
                  TrimmedTo(username, front, r.client.username)
                  && r.client == c.(username := r.client.username, password := password)
                else r.client == c)
  {
    hide Trim;
    front := TrimIs(username);
    var w := Trim(username);
    if w != [] {
      assert username[front] == w[0] && w[0] in username;
    }
  }

  // ----- after disposal -----

  /** The password, the private key and the shared secret are gone, and of the session key only zeros are left. */
  predicate Forgotten(c: Client) {
    && c.disposed && c.password == [] && c.a == 0 && c.salt.None? && c.B.None? && c.S.None?
    && (c.K.Some? ==> forall i :: 0 <= i < |c.K.value| ==> c.K.value[i] == 0)
  }

  /** Disposal forgets every secret, and every later call is refused and changes nothing. */
  lemma DisposedForgets(s: Suite, k: nat, c: Client, text: Text, value: Bytes, draws: nat -> Draw)
    requires s.N != 0 && !c.disposed
    ensures var d := Dispose(c);
            && Forgotten(d) && d.username == c.username && Dispose(d) == d
            && SetIdentity(d, text, text) == SrpProtocol.Step(d, Err(Disposed))
            && SetSalt(s, d, value, draws) == SetServerPublicKey(s, d, value, draws)
                == SrpProtocol.Step(d, Err(Disposed))
            && ComputeProof(s, k, d) == SessionKey(s, k, d) == SrpProtocol.Step(d, Err(Disposed)) && !IsReady(d)
  {
    hide Trim, CalculateM1;
  }
}
