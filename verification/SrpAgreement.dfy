/** What the SRP client guarantees: agreement with the server, and invariants over every run. */
module SrpAgreement {
  import opened Bytes
  import opened Wrappers
  import opened BigIntegers
  import opened SrpProtocol
  import opened SRPClient

  // ----- the arithmetic of section 2.6 of RFC 5054 -----

  /** The server's premaster secret (A * v^u) ^ b mod N. */
  function ServerSecret(N: nat, A: nat, v: nat, u: nat, b: nat): int
    requires N > 0
  {
    Pow(A * Pow(v, u), b) % N
  }

  /** The verifier v = g^x mod N. */
  function Verifier(N: nat, x: nat): nat
    requires N > 0
  {
    Pow(GENERATOR, x) % N
  }

  /** The server's public key B = (k*v + g^b) mod N. */
  function ServerKey(N: nat, k: nat, x: nat, b: nat): nat
    requires N > 0
  {
    (k * Verifier(N, x) + Pow(GENERATOR, b)) % N
  }

  lemma RemOfNat(n: int, m: int)
    requires n >= 0 && m > 0
    ensures TruncRem(n, m) == n % m
  {
  }

  lemma PowerModIsRem(base: int, exponent: nat, N: int)
    requires N > 1
    ensures PowerMod(base, exponent, N) == Ok(TruncRem(Pow(base, exponent), N))
  {
    PowerModExactlyWhen(base, exponent, N);
  }

  lemma RemKept(d: int, N: int)
    requires N > 0
    ensures TruncRem(d, N) % N == d % N
  {
    if d < 0 {
      var n := -d;
      var q, r := n / N, n % N;
      assert n == q * N + r && TruncRem(d, N) == -r;
      assert (-q) * N + (-r) == d;
      AddMultiple(-r, -q, N);
    } else {
      SmallMod(d % N, N);
    }
  }

  /** The truncated remainder, shifted and reduced again, is the remainder of the difference. */
  lemma CorrectedRemainder(d: int, N: int)
    requires N > 0
    ensures TruncRem(TruncRem(d, N) + N, N) == d % N
  {
    var t := TruncRem(d, N);
    assert t + N > 0;
    hide TruncRem, Abs;
    RemOfNat(t + N, N);
    ShiftMod(t, N);
    RemKept(d, N);
  }

  lemma SharedBaseIsRemainder(N: nat, k: int, gx: int, B: int)
    requires N > 0
    ensures 0 <= SharedBase(N, k, gx, B) < N && SharedBase(N, k, gx, B) == (B - TruncRem(k * gx, N)) % N
  {
    hide TruncRem;
    CorrectedRemainder(B - TruncRem(k * gx, N), N);
  }

  /** Subtracting k*v from B leaves g^b, whatever the sign of the difference. */
  lemma BaseIsServerPower(N: nat, k: nat, x: nat, b: nat)
    requires N > 1
    ensures SharedBase(N, k, PowerMod(GENERATOR, x, N).value, ServerKey(N, k, x, b)) == TruncRem(Pow(GENERATOR, b), N)
  {
    hide TruncRem, Pow, PowerMod;
    var v := Verifier(N, x);
    PowNonNegative(GENERATOR, x);
    PowNonNegative(GENERATOR, b);
    PowerModIsRem(GENERATOR, x, N);
    RemOfNat(Pow(GENERATOR, x), N);
    RemOfNat(Pow(GENERATOR, b), N);
    assert k * v >= 0;
    RemOfNat(k * v, N);
    SharedBaseIsRemainder(N, k, v, ServerKey(N, k, x, b));
    DifferenceMod(k * v, Pow(GENERATOR, b), N);
  }

  lemma DifferenceMod(c: int, p: int, N: int)
    requires N > 0
    ensures ((c + p) % N - c % N) % N == p % N
  {
    var q, r := (c + p) / N, c / N;
    assert c + p == q * N + (c + p) % N && c == r * N + c % N;
    assert (c + p) % N - c % N == p - q * N + r * N;
    assert p - q * N + r * N == (r - q) * N + p;
    AddMultiple(p, r - q, N);
  }

  /** (g^a * (g^x)^u)^b == (g^b)^(a + u*x), both reduced. */
  lemma ExponentsAgree(N: nat, a: nat, x: nat, u: nat, b: nat)
    requires N > 1
    ensures u * x >= 0
    ensures TruncRem(Pow(TruncRem(Pow(GENERATOR, a), N) * Pow(TruncRem(Pow(GENERATOR, x), N), u), b), N)
            == TruncRem(Pow(TruncRem(Pow(GENERATOR, b), N), a + u * x), N)
  {
    hide TruncRem, Pow;
    var g, ga, gx, gb := GENERATOR, Pow(GENERATOR, a), Pow(GENERATOR, x), Pow(GENERATOR, b);
    var product := TruncRem(ga, N) * Pow(TruncRem(gx, N), u);
    calc {
      TruncRem(product, N);
      { TruncFactor(ga, Pow(TruncRem(gx, N), u), N); }
      TruncRem(ga * Pow(TruncRem(gx, N), u), N);
      { TruncPow(ga, gx, u, N); }
      TruncRem(ga * Pow(gx, u), N);
      { PowOfPow(g, x, u); PowAdd(g, a, x * u); }
      TruncRem(Pow(g, a + x * u), N);
    }
    assert x * u == u * x;
    var e := a + u * x;
    calc {
      TruncRem(Pow(product, b), N);
      { PowReduced(product, b, N); }
      TruncRem(Pow(TruncRem(product, N), b), N);
      { PowReduced(Pow(g, e), b, N); }
      TruncRem(Pow(Pow(g, e), b), N);
      { PowOfPow(g, e, b); PowOfPow(g, b, e); assert e * b == b * e; }
      TruncRem(Pow(gb, e), N);
      { PowReduced(gb, e, N); }
      TruncRem(Pow(TruncRem(gb, N), e), N);
    }
  }

  lemma PowReduced(p: int, e: nat, N: int)
    requires N != 0
    ensures TruncRem(Pow(TruncRem(p, N), e), N) == TruncRem(Pow(p, e), N)
  {
    TruncPow(1, p, e, N);
  }

  /**
   * Client and server compute the same secret, for every private key on both sides, every password
   * hash and every scrambling parameter.
   */
  lemma SecretsAgree(N: nat, k: nat, x: nat, u: nat, a: nat, b: nat)
    requires N > 1
    ensures SharedSecret(N, k, x, u, a, ServerKey(N, k, x, b))
            == ServerSecret(N, Pow(GENERATOR, a) % N, Verifier(N, x), u, b)
  {
    hide TruncRem, Pow, PowerMod, SharedBase;
    PowerModIsRem(GENERATOR, x, N);
    var base := SharedBase(N, k, PowerMod(GENERATOR, x, N).value, ServerKey(N, k, x, b));
    BaseIsServerPower(N, k, x, b);
    ExponentsAgree(N, a, x, u, b);
    PowerModIsRem(base, a + u * x, N);
    PowNonNegative(GENERATOR, a);
    PowNonNegative(GENERATOR, x);
    RemOfNat(Pow(GENERATOR, a), N);
    RemOfNat(Pow(GENERATOR, x), N);
    var A, v := Pow(GENERATOR, a) % N, Verifier(N, x);
    PowNonNegative(v, u);
    assert A * Pow(v, u) >= 0;
    PowNonNegative(A * Pow(v, u), b);
    RemOfNat(Pow(A * Pow(v, u), b), N);
  }

  // ----- invariants over every run -----

  datatype Op =
    | IdentityOp(username: Text, password: Text)
    | SaltOp(salt: Bytes, draws: nat -> Draw)
    | ServerKeyOp(key: Bytes, draws: nat -> Draw)
    | ProofOp
    | SessionKeyOp
    | DisposeOp

  function Apply(s: Suite, k: nat, c: Client, op: Op): Client
    requires s.N != 0
  {
    match op
    case IdentityOp(username, password) => SetIdentity(c, username, password).client
    case SaltOp(salt, draws) => SetSalt(s, c, salt, draws).client
    case ServerKeyOp(key, draws) => SetServerPublicKey(s, c, key, draws).client
    case ProofOp => ComputeProof(s, k, c).client
    case SessionKeyOp => SessionKey(s, k, c).client
    case DisposeOp => Dispose(c)
  }

  function Run(s: Suite, k: nat, c: Client, ops: seq<Op>): Client
    requires s.N != 0
  {
    if ops == [] then c else Apply(s, k, Run(s, k, c, ops[..|ops| - 1]), ops[|ops| - 1])
  }

  /** The private and public keys match and are in range. */
  predicate GoodKeys(s: Suite, c: Client)
    requires s.N != 0
  {
    0 < c.a < s.N && 1 < c.A < s.N - 1 && c.A == TruncRem(Pow(GENERATOR, c.a), s.N)
  }

  /** The session key is the hash of the stored secret. */
  predicate KeyMatches(s: Suite, c: Client) {
    c.S.Some? && c.K.Some? && 0 <= c.S.value < s.N && c.K.value == s.hash(BE(c.S.value, KEY_LENGTH))
  }

  predicate Wiped(c: Client) {
    && c.password == [] && c.a == 0 && c.salt.None? && c.S.None? && c.B.None?
    && (c.K.Some? ==> forall i :: 0 <= i < |c.K.value| ==> c.K.value[i] == 0)
  }

  predicate Inv(s: Suite, c: Client)
    requires s.N != 0
  {
    && 0 <= c.A < s.N
    && (c.disposed ==> Wiped(c))
    && (!c.disposed && c.keysGenerated ==> GoodKeys(s, c))
    && (!c.disposed && c.K.Some? ==> KeyMatches(s, c))
  }

  lemma PowerInRange(a: nat, N: int)
    requires N > 1
    ensures PowerMod(GENERATOR, a, N).Ok? && 0 <= PowerMod(GENERATOR, a, N).value < N
    ensures PowerMod(GENERATOR, a, N).value == TruncRem(Pow(GENERATOR, a), N)
  {
    PowerModIsRem(GENERATOR, a, N);
    PowNonNegative(GENERATOR, a);
    RemOfNat(Pow(GENERATOR, a), N);
  }

  lemma {:induction false} GenerateFacts(s: Suite, c: Client, draws: nat -> Draw, attempts: nat)
    requires Sound(s) && 0 <= c.A < s.N
    ensures var r := GenerateKeys(s, c, draws, attempts);
            && r.client == c.(a := r.client.a, A := r.client.A) && 0 <= r.client.A < s.N
            && (r.result.Ok? ==> GoodKeys(s, r.client))
    decreases MAX_ATTEMPTS - attempts
  {
    hide PowerMod, TruncRem, Pow, Sound, GenerateKeys;
    SoundModulus(s);
    if attempts < MAX_ATTEMPTS {
      GenerateStep(s, c, draws, attempts);
      var a := FromBE(draws(attempts));
      if a >= s.N || a == 0 {
        GenerateFacts(s, c.(a := a), draws, attempts + 1);
      } else {
        PowerInRange(a, s.N);
        var A := PowerMod(GENERATOR, a, s.N).value;
        if A <= 1 || A >= s.N - 1 {
          GenerateFacts(s, c.(a := a, A := A), draws, attempts + 1);
        }
      }
    } else {
      GenerateStops(s, c, draws, attempts);
    }
  }

  lemma GenerateStops(s: Suite, c: Client, draws: nat -> Draw, attempts: nat)
    requires s.N != 0 && attempts >= MAX_ATTEMPTS
    ensures GenerateKeys(s, c, draws, attempts) == Step(c, Err(KeyGenerationFailed))
  {
  }

  /** Key generation touches the keys only, at most once, and leaves them good. */
  lemma ReadyFacts(s: Suite, c: Client, draws: nat -> Draw)
    requires Sound(s) && Inv(s, c) && !c.disposed
    ensures var d := GenerateIfReady(s, c, draws).client;
            Inv(s, d) && d == c.(a := d.a, A := d.A, keysGenerated := d.keysGenerated)
            && (c.keysGenerated ==> d == c)
  {
    hide GenerateKeys, Sound, Pow, TruncRem, Pow256, Wiped;
    SoundModulus(s);
    GenerateFacts(s, c, draws, 0);
  }

  lemma SecretFacts(s: Suite, k: nat, c: Client)
    requires Sound(s) && Inv(s, c) && !c.disposed && c.K.None?
    ensures var r := ComputeSharedSecret(s, k, c);
            Inv(s, r.client) && r.client == c.(S := r.client.S, K := r.client.K)
            && (r.result.Ok? <==> r.client.K.Some?)
  {
    hide CalculateU, CalculateX, Sound, SharedBase, PowerMod, Pow256;
    SoundModulus(s);
    if ComputeSharedSecret(s, k, c).client != c {
      var u := CalculateU(s, c.A, c.B.value, KEY_LENGTH).value;
      var x := CalculateX(s, c.salt.value, c.username, c.password).value;
      SecretInRange(s, k, x, u, c.a, c.B.value);
      BufferRoundTrip(SharedSecret(s.N, k, x, u, c.a, c.B.value), KEY_LENGTH);
    }
  }

  lemma SecretInRange(s: Suite, k: nat, x: nat, u: nat, a: nat, B: int)
    requires Sound(s)
    ensures 0 <= SharedSecret(s.N, k, x, u, a, B) < s.N < Pow256(KEY_LENGTH)
  {
    hide TruncRem, Pow, PowerMod, Pow256, SharedBase;
    PowerModIsRem(GENERATOR, x, s.N);
    var gx := PowerMod(GENERATOR, x, s.N).value;
    SharedBaseIsRemainder(s.N, k, gx, B);
    var base := SharedBase(s.N, k, gx, B);
    assert u * x >= 0;
    PowerModIsRem(base, a + u * x, s.N);
    PowNonNegative(base, a + u * x);
    RemOfNat(Pow(base, a + u * x), s.N);
  }

  lemma EnsureFacts(s: Suite, k: nat, c: Client)
    requires Sound(s) && Inv(s, c)
    ensures var d := EnsureKey(s, k, c).client;
            Inv(s, d) && d == c.(S := d.S, K := d.K) && (c.disposed || c.K.Some? ==> d == c)
  {
    hide ComputeSharedSecret, Sound, GoodKeys;
    SoundModulus(s);
    if !c.disposed && c.K.None? {
      SecretFacts(s, k, c);
    }
  }

  /** Every call keeps the invariant, the keys once generated, the session key once derived, and disposal. */
  lemma StepFacts(s: Suite, k: nat, c: Client, op: Op)
    requires Sound(s) && Inv(s, c)
    ensures var d := Apply(s, k, c, op);
            && Inv(s, d)
            && (c.disposed ==> d == c)
            && (!d.disposed && c.keysGenerated ==> d.keysGenerated && d.a == c.a && d.A == c.A)
            && (!d.disposed && c.K.Some? ==> d.K == c.K && d.S == c.S)
  {
    hide GenerateIfReady, EnsureKey, Sound, GoodKeys, KeyMatches, CalculateM1, Trim;
    SoundModulus(s);
    match op
    case IdentityOp(username, password) => IdentityFacts(s, c, username, password);
    case SaltOp(salt, draws) =>
      if !c.disposed && salt != [] {
        SaltFacts(s, c, Some(salt), c.B);
        ReadyFacts(s, c.(salt := Some(salt)), draws);
      }
    case ServerKeyOp(key, draws) =>
      if !c.disposed && |key| == KEY_LENGTH {
        SaltFacts(s, c, c.salt, Some(FromBE(key)));
        ReadyFacts(s, c.(B := Some(FromBE(key))), draws);
      }
    case ProofOp => EnsureFacts(s, k, c);
    case SessionKeyOp => EnsureFacts(s, k, c);
    case DisposeOp =>
  }

  lemma IdentityFacts(s: Suite, c: Client, username: Text, password: Text)
    requires Sound(s) && Inv(s, c)
    ensures var d := SetIdentity(c, username, password).client;
            Inv(s, d) && d == c.(username := d.username, password := d.password) && (c.disposed ==> d == c)
  {
    hide Sound, Trim, Pow, TruncRem;
  }

  lemma SaltFacts(s: Suite, c: Client, salt: Option<Bytes>, B: Option<nat>)
    requires Sound(s) && Inv(s, c) && !c.disposed
    ensures Inv(s, c.(salt := salt, B := B)) && c.(salt := salt) == c.(salt := salt, B := c.B)
  {
    hide Sound, Pow, TruncRem;
  }

  /** In every reachable state. */
  lemma {:induction false} InvariantHolds(s: Suite, k: nat, ops: seq<Op>)
    requires Sound(s)
    ensures Inv(s, Run(s, k, NEW_CLIENT, ops))
  {
    hide Inv, Apply;
    if ops == [] {
      NewClientInv(s);
    } else {
      InvariantHolds(s, k, ops[..|ops| - 1]);
      StepFacts(s, k, Run(s, k, NEW_CLIENT, ops[..|ops| - 1]), ops[|ops| - 1]);
    }
  }

  lemma NewClientInv(s: Suite)
    requires Sound(s)
    ensures Inv(s, NEW_CLIENT)
  {
  }

  /** Keys are generated once, the session key is derived once, and nothing survives disposal. */
  lemma {:induction false} KeysArePermanent(s: Suite, k: nat, c: Client, ops: seq<Op>)
    requires Sound(s) && Inv(s, c)
    ensures var d := Run(s, k, c, ops);
            && Inv(s, d)
            && (c.disposed ==> d == c)
            && (!d.disposed && c.keysGenerated ==> d.keysGenerated && d.a == c.a && d.A == c.A)
            && (!d.disposed && c.K.Some? ==> d.K == c.K && d.S == c.S)
  {
    hide Inv, Apply;
    if ops != [] {
      KeysArePermanent(s, k, c, ops[..|ops| - 1]);
      StepFacts(s, k, Run(s, k, c, ops[..|ops| - 1]), ops[|ops| - 1]);
    }
  }

  // ----- the handshake -----

  /** What the client derives for a server that knows the verifier of the same password. */
  function ServerDigest(s: Suite, k: nat, c: Client, b: nat): Bytes
    requires s.N > 0 && c.salt.Some? && c.B.Some? && c.A >= 0
    requires CalculateX(s, c.salt.value, c.username, c.password).Ok? && CalculateU(s, c.A, c.B.value, KEY_LENGTH).Ok?
  {
    var x := CalculateX(s, c.salt.value, c.username, c.password).value;
    var u := CalculateU(s, c.A, c.B.value, KEY_LENGTH).value;
    s.hash(BE(ServerSecret(s.N, c.A, Verifier(s.N, x), u, b), KEY_LENGTH))
  }

  /**
   * A client with keys, identity, salt and the server's B returns the server's session key; it throws
   * instead only when the scrambling parameter hashes to zero.
   */
  lemma SessionKeyAgrees(s: Suite, k: nat, c: Client, b: nat)
    requires Sound(s) && Inv(s, c) && !c.disposed && c.keysGenerated && c.K.None?
    requires c.username != [] && c.password != [] && c.salt.Some? && c.salt.value != [] && Truthy(c.B)
    requires CalculateX(s, c.salt.value, c.username, c.password).Ok?
    requires c.B.value == ServerKey(s.N, k, CalculateX(s, c.salt.value, c.username, c.password).value, b)
    ensures var u := CalculateU(s, c.A, c.B.value, KEY_LENGTH);
            if u.Ok? then SessionKey(s, k, c).result == Ok(ServerDigest(s, k, c, b))
            else u.error == ZeroScramble && SessionKey(s, k, c).result == Err(ZeroScramble)
  {
    hide CalculateX, SharedBase, PowerMod, Pow, TruncRem, Pow256, Sound, ServerKey, SharedSecret, ServerSecret,
        Verifier, CalculateU;
    SoundModulus(s);
    var x := CalculateX(s, c.salt.value, c.username, c.password).value;
    KeyBelow(s, k, x, b);
    ScrambleDefined(s, c.A, c.B.value);
    if CalculateU(s, c.A, c.B.value, KEY_LENGTH).Ok? {
      var u := CalculateU(s, c.A, c.B.value, KEY_LENGTH).value;
      SecretsAgree(s.N, k, x, u, c.a, b);
      PowNonNegative(GENERATOR, c.a);
      RemOfNat(Pow(GENERATOR, c.a), s.N);
      SecretInRange(s, k, x, u, c.a, c.B.value);
      BufferRoundTrip(SharedSecret(s.N, k, x, u, c.a, c.B.value), KEY_LENGTH);
      WrittenSecret(SharedSecret(s.N, k, x, u, c.a, c.B.value));
    }
  }

  lemma KeyBelow(s: Suite, k: nat, x: nat, b: nat)
    requires Sound(s)
    ensures ServerKey(s.N, k, x, b) < s.N < Pow256(KEY_LENGTH)
  {
  }

  lemma WrittenSecret(S: int)
    requires BigIntToBuffer(S, KEY_LENGTH).Ok?
    ensures S >= 0 && BigIntToBuffer(S, KEY_LENGTH).value == BE(S, KEY_LENGTH)
  {
  }

  lemma ScrambleDefined(s: Suite, A: int, B: int)
    requires 0 < A < Pow256(KEY_LENGTH) && 0 < B < Pow256(KEY_LENGTH)
    ensures var u := CalculateU(s, A, B, KEY_LENGTH); u.Err? ==> u.error == ZeroScramble
  {
    BufferRoundTrip(A, KEY_LENGTH);
    BufferRoundTrip(B, KEY_LENGTH);
  }

  /**
   * The whole handshake, salt and B arriving in either order: whenever key generation succeeds, the
   * session key is the server's.
   */
  lemma HandshakeAgrees(s: Suite, k: nat, username: Text, password: Text, salt: Bytes, b: nat, x: nat,
                        draws: nat -> Draw, saltFirst: bool)
    requires Sound(s) && Trim(username) != [] && password != [] && salt != []
    requires CalculateX(s, salt, Trim(username), password) == Ok(x)
    requires 1 < ServerKey(s.N, k, x, b) < s.N - 1
    ensures var c1 := SetIdentity(NEW_CLIENT, username, password).client;
            var key := BE(ServerKey(s.N, k, x, b), KEY_LENGTH);
            var c2 := if saltFirst then SetSalt(s, c1, salt, draws).client
                else SetServerPublicKey(s, c1, key, draws).client;
            var last := if saltFirst then SetServerPublicKey(s, c2, key, draws) else SetSalt(s, c2, salt, draws);
            var c := last.client;
            last.result.Ok? ==>
              && c.salt == Some(salt) && c.B == Some(ServerKey(s.N, k, x, b)) && c.A == Pow(GENERATOR, c.a) % s.N
              && CalculateX(s, c.salt.value, c.username, c.password).Ok?
              && var u := CalculateU(s, c.A, c.B.value, KEY_LENGTH);
                 if u.Ok? then SessionKey(s, k, c).result == Ok(ServerDigest(s, k, c, b))
                 else SessionKey(s, k, c).result == Err(ZeroScramble)
  {
    hide GenerateKeys, CalculateX, CalculateU, SessionKey, Trim, ServerKey, Pow, TruncRem, Pow256, Sound, ServerDigest;
    SoundModulus(s);
    var c1 := SetIdentity(NEW_CLIENT, username, password).client;
    var B := ServerKey(s.N, k, x, b);
    KeyBelow(s, k, x, b);
    BERoundTrip(B, KEY_LENGTH);
    RemOfNat(B, s.N);
    SmallMod(B, s.N);
    var ready := c1.(salt := Some(salt), B := Some(B));
    NewClientInv(s);
    IdentityFacts(s, NEW_CLIENT, username, password);
    SaltFacts(s, c1, Some(salt), Some(B));
    GenerateFacts(s, ready, draws, 0);
    var last := GenerateIfReady(s, ready, draws);
    if last.result.Ok? {
      ReadyFacts(s, ready, draws);
      PowNonNegative(GENERATOR, last.client.a);
      RemOfNat(Pow(GENERATOR, last.client.a), s.N);
      SessionKeyAgrees(s, k, last.client, b);
    }
  }

  // ----- the range of B -----

  /** The stored key, if any, is in the range the setter checks. */
  predicate KeyInRange(s: Suite, c: Client) {
    c.B.Some? ==> 1 < c.B.value < s.N - 1
  }

  /** A call that stores a key: a `serverPublicKey` of the right length, given to a client not disposed. */
  predicate StoresKey(c: Client, op: Op) {
    op.ServerKeyOp? && !c.disposed && |op.key| == KEY_LENGTH
  }

  /**
   * When B is in range after a call: a key just stored decides alone, accepted by the setter or not;
   * disposal clears B; any other call leaves B as it was.
   */
  lemma KeyStaysInRange(s: Suite, k: nat, c: Client, op: Op)
    requires Sound(s) && Inv(s, c)
    ensures KeyInRange(s, Apply(s, k, c, op)) <==>
            if StoresKey(c, op) then 1 < FromBE(op.key) < s.N - 1 else op.DisposeOp? || KeyInRange(s, c)
  {
    hide GenerateKeys, EnsureKey, Sound, GoodKeys, KeyMatches, CalculateM1, Trim, TruncRem;
    SoundModulus(s);
    match op
    case IdentityOp(_, _) =>
    case SaltOp(salt, draws) =>
      if !c.disposed && salt != [] {
        SaltFacts(s, c, Some(salt), c.B);
        ReadyFacts(s, c.(salt := Some(salt)), draws);
      }
    case ServerKeyOp(key, draws) =>
      if StoresKey(c, op) {
        SaltFacts(s, c, c.salt, Some(FromBE(key)));
        ReadyFacts(s, c.(B := Some(FromBE(key))), draws);
      }
    case ProofOp => EnsureFacts(s, k, c);
    case SessionKeyOp => EnsureFacts(s, k, c);
    case DisposeOp =>
  }

  /** The last call of a run that stored a key or disposed of the client decides; before any there is no key. */
  predicate LastKeyInRange(s: Suite, k: nat, ops: seq<Op>)
    requires s.N != 0
  {
    if ops == [] then true
    else
      var op := ops[|ops| - 1];
      if StoresKey(Run(s, k, NEW_CLIENT, ops[..|ops| - 1]), op) then 1 < FromBE(op.key) < s.N - 1
      else op.DisposeOp? || LastKeyInRange(s, k, ops[..|ops| - 1])
  }

  /** Over every run of a new client. */
  lemma {:induction false} KeyInRangeExactlyWhen(s: Suite, k: nat, ops: seq<Op>)
    requires Sound(s)
    ensures KeyInRange(s, Run(s, k, NEW_CLIENT, ops)) <==> LastKeyInRange(s, k, ops)
  {
    hide Apply, Sound, Inv, KeyInRange, StoresKey;
    SoundModulus(s);
    if ops == [] {
      NoKeyYet(s);
    } else {
      var before := Run(s, k, NEW_CLIENT, ops[..|ops| - 1]);
      InvariantHolds(s, k, ops[..|ops| - 1]);
      KeyInRangeExactlyWhen(s, k, ops[..|ops| - 1]);
      KeyStaysInRange(s, k, before, ops[|ops| - 1]);
    }
  }

  lemma NoKeyYet(s: Suite)
    ensures KeyInRange(s, NEW_CLIENT)
  {
  }

  /** Draws that always give the private key 1. */
  function DrawsOfOne(): nat -> Draw {
    i => BE(1, PRIVATE_KEY_BYTES)
  }

  lemma OneInBuffer(length: nat)
    requires length > 0
    ensures FromBE(BE(1, length)) == 1
  {
    hide Pow256;
    Pow256Values();
    Pow256Mono(1, length);
    BERoundTrip(1, length);
  }

  /** With private key 1 the first attempt succeeds, and the public key is the generator. */
  lemma FirstDrawSucceeds(s: Suite, c: Client)
    requires Sound(s) && s.N > 6
    ensures GenerateKeys(s, c, DrawsOfOne(), 0) == Step(c.(a := 1, A := GENERATOR), Ok(()))
  {
    hide Pow256, PowerMod, BE, FromBE;
    OneInBuffer(PRIVATE_KEY_BYTES);
    PowerModIsRem(GENERATOR, 1, s.N);
    assert Pow(GENERATOR, 1) == GENERATOR * Pow(GENERATOR, 0) == GENERATOR;
    RemOfNat(GENERATOR, s.N);
    SmallMod(GENERATOR, s.N);
  }

  /**
   * A run that ends ready with B = 1, in every group above 6: a new client gets an identity and the key 1,
   * which is stored and makes the setter throw; the next salt generates keys all the same.
   */
  lemma ReadyWithBadKey(s: Suite, salt: Bytes)
    requires Sound(s) && s.N > 6 && salt != []
    ensures var c1 := SetIdentity(NEW_CLIENT, [97], [98]);
            var c2 := SetServerPublicKey(s, c1.client, BE(1, KEY_LENGTH), DrawsOfOne());
            var c3 := SetSalt(s, c2.client, salt, DrawsOfOne());
            && c1.result == Ok(()) && c2.result == Err(BadServerKey) && c3.result == Ok(())
            && IsReady(c3.client) && c3.client.B == Some(1) && c3.client.A == GENERATOR
  {
    hide GenerateKeys, Pow256, Sound, BE, FromBE;
    OneInBuffer(KEY_LENGTH);
    assert Trim([97]) == [97];
    var c := SetIdentity(NEW_CLIENT, [97], [98]).client;
    FirstDrawSucceeds(s, c.(B := Some(1), salt := Some(salt)));
  }
}
