/** Names allocated during a pull never collide. */
module AllocationTheorems {
  import opened Bytes
  import opened Wrappers
  import opened FilenameSanitizer
  import opened FilenameTheorems
  import opened NameAllocation

  /** One call: the directory, the remote name, and what the random source and the disk answer. */
  datatype Request = Request(dir: Dir, remote: Text, suffixes: nat -> Text, onDisk: nat -> bool)

  function Run(h: Host, rs: seq<Request>): State {
    if rs == [] then INITIAL
    else
      var r := rs[|rs| - 1];
      Allocate(h, Run(h, rs[..|rs| - 1]), r.dir, r.remote, r.suffixes, r.onDisk).0
  }

  /** Suffixes leave room for a base, as eight hexadecimal digits do. */
  ghost predicate ShortSuffixes(r: Request) {
    forall i :: ByteLength(r.suffixes(i)) <= MAX_FILENAME_BYTES - 2
  }

  /**
   * Names used in one directory do not collide under its case rule, and every one is usable.
   */
  ghost predicate Apart(h: Host, s: State) {
    && (forall d, x, y ::
          d in s.used && x in s.used[d] && y in s.used[d] && x != y ==> !Collide(h, CaseRule(h, s, d), x, y))
    && (forall d, x :: d in s.used && x in s.used[d] ==> Usable(x))
  }

  lemma AskedSameRule(h: Host, s: State, d: Dir, c: Dir)
    ensures CaseRule(h, Asked(h, s, d), c) == CaseRule(h, s, c) && Asked(h, s, d).used == s.used
  {
  }

  lemma AskedApart(h: Host, s: State, d: Dir)
    requires Apart(h, s)
    ensures Apart(h, Asked(h, s, d))
  {
    hide CaseRule, Asked;
    forall c, x, y | c in s.used && x in s.used[c] && y in s.used[c] && x != y
      ensures !Collide(h, CaseRule(h, Asked(h, s, d), c), x, y)
    {
      AskedSameRule(h, s, d, c);
    }
    AskedSameRule(h, s, d, d);
  }

  lemma RegisterApart(h: Host, s: State, d: Dir, name: Text)
    requires Apart(h, s) && Usable(name) && !UsedInPull(h, s, d, name)
    ensures Apart(h, Register(s, d, name))
  {
    var t := Register(s, d, name);
    forall c, x, y | c in t.used && x in t.used[c] && y in t.used[c] && x != y
      ensures !Collide(h, CaseRule(h, t, c), x, y)
    {
      if c == d && (x == name || y == name) {
        var other := if x == name then y else x;
        assert other in UsedIn(s, d);
      }
    }
  }

  lemma CandidateUsable(h: Host, r: Request, attempt: nat)
    requires ShortSuffixes(r)
    ensures Usable(Candidate(h, r.remote, r.suffixes, attempt))
  {
    SanitizeIsUsable(h.platform, r.remote);
    SuffixKept(Sanitize(h.platform, r.remote), r.suffixes(attempt));
  }

  lemma {:induction false} AttemptsApart(h: Host, s: State, r: Request, attempt: nat)
    requires Apart(h, s) && ShortSuffixes(r)
    ensures var (t, name) := Attempts(h, s, r.dir, r.remote, r.suffixes, r.onDisk, attempt);
            && Apart(h, t)
            && (forall d :: UsedIn(s, d) <= UsedIn(t, d))
            && (name.Some? ==> Usable(name.value) && name.value in UsedIn(t, r.dir)
                               && !UsedInPull(h, s, r.dir, name.value)
                               && UsedIn(t, r.dir) == UsedIn(s, r.dir) + {name.value})
            && (name.None? ==> t.used == s.used)
    decreases MAX_ATTEMPTS - attempt
  {
    hide Apart, Usable, Candidate, CaseRule, Collide;
    if attempt < MAX_ATTEMPTS {
      var name := Candidate(h, r.remote, r.suffixes, attempt);
      CandidateUsable(h, r, attempt);
      AskedApart(h, s, r.dir);
      AskedSameRule(h, s, r.dir, r.dir);
      var t := Asked(h, s, r.dir);
      assert forall d :: UsedIn(t, d) == UsedIn(s, d);
      AskedPull(h, s, r.dir);
      if UsedInPull(h, s, r.dir, name) || (!h.overwrite && r.onDisk(attempt)) {
        AttemptsApart(h, t, r, attempt + 1);
      } else {
        RegisterApart(h, t, r.dir, name);
      }
    }
  }

  lemma AskedPull(h: Host, s: State, d: Dir)
    ensures forall name :: UsedInPull(h, Asked(h, s, d), d, name) <==> UsedInPull(h, s, d, name)
  {
    AskedSameRule(h, s, d, d);
  }

  /** After any sequence of allocations, on any host: no two names of a directory collide, and all are usable. */
  lemma {:induction false} NeverCollide(h: Host, rs: seq<Request>)
    requires forall r :: r in rs ==> ShortSuffixes(r)
    ensures Apart(h, Run(h, rs))
  {
    hide Apart, ShortSuffixes;
    if rs == [] {
      StartsApart(h);
    } else {
      var r := rs[|rs| - 1];
      assert r in rs;
      NeverCollide(h, rs[..|rs| - 1]);
      AttemptsApart(h, Run(h, rs[..|rs| - 1]), r, 0);
    }
  }

  lemma StartsApart(h: Host)
    ensures Apart(h, INITIAL)
  {
  }

  /** The name an allocation returns is new in its directory under the case rule, non-empty and at most 255 bytes. */
  lemma AllocatedIsFresh(h: Host, rs: seq<Request>, r: Request)
    requires (forall q :: q in rs ==> ShortSuffixes(q)) && ShortSuffixes(r)
    ensures var s := Run(h, rs);
            var name := Allocate(h, s, r.dir, r.remote, r.suffixes, r.onDisk).1;
            name.Some? ==>
              && name.value != [] && ByteLength(name.value) <= 255
              && forall x :: x in UsedIn(s, r.dir) ==> !Collide(h, CaseRule(h, s, r.dir), x, name.value)
  {
    NeverCollide(h, rs);
    AttemptsApart(h, Run(h, rs), r, 0);
  }

  /** Without a file on disk in the way, the first name in a fresh directory is the sanitised name itself. */
  lemma FirstNameIsSanitized(h: Host, s: State, r: Request)
    requires UsedIn(s, r.dir) == {} && (h.overwrite || !r.onDisk(0))
    ensures Allocate(h, s, r.dir, r.remote, r.suffixes, r.onDisk).1 == Some(Sanitize(h.platform, r.remote))
  {
    hide Sanitize;
  }
}
