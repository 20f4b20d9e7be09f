/** Which name an allocation gives, over every sequence of allocations: the first free one of a hundred. */
module AllocationRules {
  import opened Bytes
  import opened Wrappers
  import opened FilenameSanitizer
  import opened NameAllocation
  import opened AllocationTheorems

  // ----- the rules -----

  /** Two names are one file: letter for letter, or but for case where the directory does not tell case apart. */
  predicate OneFile(h: Host, d: Dir, a: Text, b: Text) {
    if h.caseSensitive(d) then a == b else h.lower(a) == h.lower(b)
  }

  /** What the i-th attempt tries: the sanitised name, then that name with a suffix of its own. */
  function Proposal(h: Host, r: Request, i: nat): Text {
    var name := Sanitize(h.platform, r.remote);
    if i == 0 then name else AppendUniqueSuffix(name, r.suffixes(i))
  }

  /** No name given before is the same file, and without leave to overwrite there is no such file on disk. */
  ghost predicate Free(h: Host, given: set<Text>, r: Request, i: nat) {
    (h.overwrite || !r.onDisk(i)) && forall x :: x in given ==> !OneFile(h, r.dir, x, Proposal(h, r, i))
  }

  /** `name` is the first free proposal from number `from` on, or there is none among the first hundred. */
  ghost predicate FirstFree(h: Host, given: set<Text>, r: Request, from: nat, name: Option<Text>) {
    if name.Some? then
      exists i :: from <= i < 100 && Free(h, given, r, i) && name.value == Proposal(h, r, i)
                  && forall j :: from <= j < i ==> !Free(h, given, r, j)
    else forall i :: from <= i < 100 ==> !Free(h, given, r, i)
  }

  /** The names given in directory `d` by a sequence of allocations. */
  function Given(h: Host, rs: seq<Request>, d: Dir): set<Text> {
    if rs == [] then {}
    else
      var init, r := rs[..|rs| - 1], rs[|rs| - 1];
      var name := Allocate(h, Run(h, init), r.dir, r.remote, r.suffixes, r.onDisk).1;
      Given(h, init, d) + if r.dir == d && name.Some? then {name.value} else {}
  }

  // ----- one allocation -----

  /** Every remembered case rule is the directory's own. */
  predicate RulesTrue(h: Host, s: State) {
    forall d :: d in s.cases ==> s.cases[d] == h.caseSensitive(d)
  }

  lemma AskedTrue(h: Host, s: State, d: Dir)
    requires RulesTrue(h, s)
    ensures RulesTrue(h, Asked(h, s, d)) && Asked(h, s, d).used == s.used
  {
  }

  lemma FreeIs(h: Host, s: State, r: Request, i: nat)
    requires RulesTrue(h, s)
    ensures Proposal(h, r, i) == Candidate(h, r.remote, r.suffixes, i)
    ensures Free(h, UsedIn(s, r.dir), r, i)
            <==> !(UsedInPull(h, s, r.dir, Proposal(h, r, i)) || (!h.overwrite && r.onDisk(i)))
  {
    hide Sanitize, AppendUniqueSuffix;
    assert CaseRule(h, s, r.dir) == h.caseSensitive(r.dir);
    var name := Proposal(h, r, i);
    assert forall x :: Collide(h, CaseRule(h, s, r.dir), x, name) <==> OneFile(h, r.dir, x, name);
  }

  lemma {:induction false} AttemptsFirstFree(h: Host, s: State, r: Request, from: nat)
    requires RulesTrue(h, s)
    ensures var (t, name) := Attempts(h, s, r.dir, r.remote, r.suffixes, r.onDisk, from);
            && RulesTrue(h, t) && FirstFree(h, UsedIn(s, r.dir), r, from, name)
            && forall d :: UsedIn(t, d) == UsedIn(s, d) + if d == r.dir && name.Some? then {name.value} else {}
    decreases 100 - from
  {
    hide Candidate, Proposal, UsedInPull, Free, CaseRule;
    if from < MAX_ATTEMPTS {
      FreeIs(h, s, r, from);
      AskedTrue(h, s, r.dir);
      if !Free(h, UsedIn(s, r.dir), r, from) {
        AttemptsFirstFree(h, Asked(h, s, r.dir), r, from + 1);
      }
    }
  }

  // ----- every sequence -----

  lemma {:induction false} RunGives(h: Host, rs: seq<Request>)
    ensures RulesTrue(h, Run(h, rs)) && forall d :: UsedIn(Run(h, rs), d) == Given(h, rs, d)
  {
    hide Attempts;
    if rs != [] {
      RunGives(h, rs[..|rs| - 1]);
      AttemptsFirstFree(h, Run(h, rs[..|rs| - 1]), rs[|rs| - 1], 0);
    }
  }

  /**
   * After any sequence of allocations, the next gives the first of its hundred proposals that is free of the
   * names given before and, without leave to overwrite, of the disk; it fails when none is.
   */
  lemma GivesFirstFree(h: Host, rs: seq<Request>, r: Request)
    ensures var name := Allocate(h, Run(h, rs), r.dir, r.remote, r.suffixes, r.onDisk).1;
            FirstFree(h, Given(h, rs, r.dir), r, 0, name)
  {
    hide Attempts, Given, FirstFree;
    RunGives(h, rs);
    AttemptsFirstFree(h, Run(h, rs), r, 0);
  }

  /** Without leave to overwrite, no name is given for which a file is on disk. */
  lemma NeverOverwrites(h: Host, rs: seq<Request>, r: Request)
    requires !h.overwrite
    ensures var name := Allocate(h, Run(h, rs), r.dir, r.remote, r.suffixes, r.onDisk).1;
            name.Some? ==> exists i :: 0 <= i < 100 && name.value == Proposal(h, r, i) && !r.onDisk(i)
  {
    hide Attempts, Given, Proposal;
    GivesFirstFree(h, rs, r);
    var name := Allocate(h, Run(h, rs), r.dir, r.remote, r.suffixes, r.onDisk).1;
    if name.Some? {
      var i: nat :| i < 100 && Free(h, Given(h, rs, r.dir), r, i) && name.value == Proposal(h, r, i);
    }
  }
}
