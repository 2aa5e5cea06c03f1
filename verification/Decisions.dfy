/** What the routing decision guarantees: the best permitted host, what is withheld, and what widening and retrying do. */
module Decisions {
  import opened Basics
  import opened Order
  import opened Provenance
  import opened Hosts
  import opened Catalogue
  import opened Snapshots
  import opened Routing

  /** No two hosts share a name. */
  predicate DistinctNames(hosts: seq<Host>) {
    forall i, j :: 0 <= i < j < |hosts| ==> hosts[i].name != hosts[j].name
  }

  // ---- Who the candidates are ----

  /** A host that could serve the family is a candidate, under its name and class; nothing else is. */
  lemma CandidateExact(s: Snapshot, hosts: seq<Host>, fam: string, profile: string, c: Candidate)
    ensures c in Candidates(s, hosts, fam, profile) <==>
            && c.host in hosts && ClassOf(s, fam, profile, c.host).Some?
            && c == Candidate(c.host, NameFor(s, fam, profile, c.host), ClassOf(s, fam, profile, c.host).value == 0)
  {
    hide ClassOf, NameFor;
    RankedCandidate(s, hosts, fam, profile, 0, c);
    RankedCandidate(s, hosts, fam, profile, 1, c);
    RankedCandidate(s, hosts, fam, profile, 2, c);
    ClassBounded(s, fam, profile, c.host);
  }

  lemma ClassBounded(s: Snapshot, fam: string, profile: string, h: Host)
    ensures ClassOf(s, fam, profile, h).Some? ==> ClassOf(s, fam, profile, h).value <= 2
  {
  }

  lemma RankedCandidate(s: Snapshot, hosts: seq<Host>, fam: string, profile: string, rank: nat, c: Candidate)
    ensures c in Flat(hosts, CandidateOf(s, fam, profile, rank)) <==>
            c.host in hosts && ClassOf(s, fam, profile, c.host) == Some(rank) && c == Candidate(c.host, NameFor(s, fam, profile, c.host), rank == 0)
  {
    hide ClassOf, NameFor;
    FlatMember(hosts, CandidateOf(s, fam, profile, rank), c);
    if c.host in hosts {
      var i :| 0 <= i < |hosts| && hosts[i] == c.host;
      if ClassOf(s, fam, profile, c.host) == Some(rank) && c == Candidate(c.host, NameFor(s, fam, profile, c.host), rank == 0) {
        assert c in CandidateOf(s, fam, profile, rank)(hosts[i]);
      }
    }
  }

  /** The place of a host in the preference order. */
  function PlaceOf(hosts: seq<Host>, name: string): (i: nat)
    ensures i <= |hosts|
    ensures i < |hosts| ==> hosts[i].name == name
  {
    if |hosts| == 0 || hosts[0].name == name then 0 else 1 + PlaceOf(hosts[1..], name)
  }

  lemma {:induction false} PlaceIs(hosts: seq<Host>, i: nat)
    requires DistinctNames(hosts) && i < |hosts|
    ensures PlaceOf(hosts, hosts[i].name) == i
  {
    if i > 0 {
      PlaceIs(hosts[1..], i - 1);
    }
  }

  /** One host comes before another: by class, then by preference. */
  predicate Ahead(s: Snapshot, hosts: seq<Host>, fam: string, profile: string, h: Host, other: Host) {
    var a, b := ClassOf(s, fam, profile, h), ClassOf(s, fam, profile, other);
    a.Some? && b.Some? && (a.value < b.value || (a.value == b.value && PlaceOf(hosts, h.name) < PlaceOf(hosts, other.name)))
  }

  /** Candidates in preference order, none of them at or past a place. */
  predicate InPreference(hosts: seq<Host>, cs: seq<Candidate>, bound: nat) {
    && (forall i, j :: 0 <= i < j < |cs| ==> PlaceOf(hosts, cs[i].host.name) < PlaceOf(hosts, cs[j].host.name))
    && (forall i :: 0 <= i < |cs| ==> PlaceOf(hosts, cs[i].host.name) < bound)
  }

  lemma OneMoreInPreference(hosts: seq<Host>, cs: seq<Candidate>, more: seq<Candidate>, n: nat)
    requires InPreference(hosts, cs, n) && |more| <= 1 && (more != [] ==> PlaceOf(hosts, more[0].host.name) == n)
    ensures InPreference(hosts, cs + more, n + 1)
  {
    hide PlaceOf;
  }

  lemma {:induction false} RankOrdered(s: Snapshot, hosts: seq<Host>, n: nat, fam: string, profile: string, rank: nat)
    requires DistinctNames(hosts) && n <= |hosts|
    ensures InPreference(hosts, Flat(hosts[..n], CandidateOf(s, fam, profile, rank)), n)
  {
    if n > 0 {
      hide ClassOf, NameFor, PlaceOf, InPreference;
      RankOrdered(s, hosts, n - 1, fam, profile, rank);
      FlatStep(hosts, CandidateOf(s, fam, profile, rank), n - 1);
      PlaceIs(hosts, n - 1);
      OneMoreInPreference(hosts, Flat(hosts[..n - 1], CandidateOf(s, fam, profile, rank)), CandidateOf(s, fam, profile, rank)(hosts[n - 1]), n - 1);
    }
  }

  /** The candidates stand in order: each ahead of those after it. */
  lemma CandidatesOrdered(s: Snapshot, hosts: seq<Host>, fam: string, profile: string)
    requires DistinctNames(hosts)
    ensures var cs := Candidates(s, hosts, fam, profile);
            forall i, j :: 0 <= i < j < |cs| ==> Ahead(s, hosts, fam, profile, cs[i].host, cs[j].host)
  {
    hide ClassOf, NameFor, PlaceOf;
    assert hosts[..|hosts|] == hosts;
    forall rank: nat | rank <= 2
      ensures var part := Flat(hosts, CandidateOf(s, fam, profile, rank));
              && (forall i, j :: 0 <= i < j < |part| ==> PlaceOf(hosts, part[i].host.name) < PlaceOf(hosts, part[j].host.name))
              && (forall i :: 0 <= i < |part| ==> ClassOf(s, fam, profile, part[i].host) == Some(rank))
    {
      RankOrdered(s, hosts, |hosts|, fam, profile, rank);
      var part := Flat(hosts, CandidateOf(s, fam, profile, rank));
      forall i | 0 <= i < |part| ensures ClassOf(s, fam, profile, part[i].host) == Some(rank) {
        RankedCandidate(s, hosts, fam, profile, rank, part[i]);
      }
    }
    var a, b, c := Flat(hosts, CandidateOf(s, fam, profile, 0)), Flat(hosts, CandidateOf(s, fam, profile, 1)), Flat(hosts, CandidateOf(s, fam, profile, 2));
    var cs := Candidates(s, hosts, fam, profile);
    assert cs == a + b + c;
    forall i, j | 0 <= i < j < |cs| ensures Ahead(s, hosts, fam, profile, cs[i].host, cs[j].host) {
      var x, y := cs[i], cs[j];
      assert x == if i < |a| then a[i] else if i < |a| + |b| then b[i - |a|] else c[i - |a| - |b|];
      assert y == if j < |a| then a[j] else if j < |a| + |b| then b[j - |a|] else c[j - |a| - |b|];
    }
  }

  lemma AheadIsOther(s: Snapshot, hosts: seq<Host>, fam: string, profile: string, h: Host, other: Host)
    requires Ahead(s, hosts, fam, profile, h, other)
    ensures !Ahead(s, hosts, fam, profile, other, h) && h != other
    ensures DistinctNames(hosts) && h in hosts && other in hosts ==> h.name != other.name
  {
  }

  // ---- The gate ----

  /** A host that could serve the family is servable and serves the profile. */
  lemma CandidateServes(s: Snapshot, hosts: seq<Host>, fam: string, profile: string, c: Candidate)
    requires c in Candidates(s, hosts, fam, profile)
    ensures c.host in hosts && c.host.Servable() && HostServes(s, c.host, profile)
  {
    hide Serves, NameFor, Candidates;
    var h := c.host;
    CandidateExact(s, hosts, fam, profile, c);
    var a :| a in AliasesIn(s, fam) && Answers(s, h, profile, a);
    AliasesInFamily(s, fam, a);
    assert Known(s, h, a);
  }

  /** So the early answer that no host serves the profile hides no candidate. */
  lemma GateHidesNothing(s: Snapshot, hosts: seq<Host>, fam: string, profile: string)
    requires !AnyServes(s, hosts, profile)
    ensures Candidates(s, hosts, fam, profile) == []
  {
    hide Candidates, HostServes;
    var cs := Candidates(s, hosts, fam, profile);
    if cs != [] {
      CandidateServes(s, hosts, fam, profile, cs[0]);
      assert false;
    }
  }

  // ---- The decision ----

  predicate Chosen(v: Verdict) {
    v == Resident || v == WouldLoad || v == Hosted
  }

  function Rank(v: Verdict): nat {
    match v
    case Resident => 0
    case WouldLoad => 1
    case Hosted => 2
    case _ => 3
  }

  function ProfileOf(req: Request): string {
    if req.profile == "" then CHAT else req.profile
  }

  /** The decision read off the list of candidates: with one permitted, the first such. */
  lemma DecideByCandidates(env: Naming, s: Snapshot, hosts: seq<Host>, req: Request)
    ensures var d, fam, profile := Decide(env, s, hosts, req), FamilyFor(env, s, req.model), ProfileOf(req);
            var cs := Candidates(s, hosts, fam, profile);
            var i := FirstPermitted(cs, req.allowed);
            if fam == "" then d.verdict == Unparseable
            else if i < |cs| then
              && d.withheld == HostNames(cs[..i]) && d.host == cs[i].host.name && d.model == cs[i].name
              && d.endpoint == cs[i].host.Endpoint() && d.verdict == VerdictOf(cs[i]) && d.loads == (if d.verdict == WouldLoad then 1 else 0)
            else
              && !Chosen(d.verdict) && d.host == "" && d.endpoint == "" && d.loads == 0 && d.verdict != Unparseable
              && d.withheld == HostNames(cs)
              && (d.verdict == Unauthorised <==> cs != [])
  {
    hide Candidates, AnyServes, InstalledOn, AliasesIn;
    var fam, profile := FamilyFor(env, s, req.model), ProfileOf(req);
    if fam != "" && !AnyServes(s, hosts, profile) {
      GateHidesNothing(s, hosts, fam, profile);
    }
    var cs := Candidates(s, hosts, fam, profile);
    assert cs[..|cs|] == cs;
  }

  /** A host may serve the request: it is permitted and could serve the family. */
  predicate Could(env: Naming, s: Snapshot, req: Request, h: Host) {
    ClassOf(s, FamilyFor(env, s, req.model), ProfileOf(req), h).Some?
  }

  lemma SameHost(hosts: seq<Host>, h: Host, g: Host)
    requires DistinctNames(hosts) && h in hosts && g in hosts && h.name == g.name
    ensures h == g
  {
    var i :| 0 <= i < |hosts| && hosts[i] == h;
    var j :| 0 <= j < |hosts| && hosts[j] == g;
  }

  /** A candidate's host has one place in the list, before exactly the hosts it is ahead of. */
  lemma PlaceInList(s: Snapshot, hosts: seq<Host>, fam: string, profile: string, h: Host) returns (i: nat)
    requires DistinctNames(hosts) && h in hosts && ClassOf(s, fam, profile, h).Some?
    ensures var cs := Candidates(s, hosts, fam, profile);
            && i < |cs| && cs[i].host == h
            && (forall j :: 0 <= j < |cs| ==> cs[j].host in hosts
                                              && (j < i <==> Ahead(s, hosts, fam, profile, cs[j].host, h)) && (j == i <==> cs[j].host.name == h.name))
  {
    hide ClassOf, NameFor, PlaceOf, Candidates, Ahead;
    var cs := Candidates(s, hosts, fam, profile);
    var c := Candidate(h, NameFor(s, fam, profile, h), ClassOf(s, fam, profile, h).value == 0);
    CandidateExact(s, hosts, fam, profile, c);
    i :| 0 <= i < |cs| && cs[i] == c;
    CandidatesOrdered(s, hosts, fam, profile);
    forall j | 0 <= j < |cs|
      ensures cs[j].host in hosts
      ensures (j < i <==> Ahead(s, hosts, fam, profile, cs[j].host, h)) && (j == i <==> cs[j].host.name == h.name)
    {
      CandidateExact(s, hosts, fam, profile, cs[j]);
      if j < i {
        AheadIsOther(s, hosts, fam, profile, cs[j].host, h);
      } else if j > i {
        AheadIsOther(s, hosts, fam, profile, h, cs[j].host);
      } else {
        NotAheadOfItself(s, hosts, fam, profile, h);
      }
    }
  }

  lemma NotAheadOfItself(s: Snapshot, hosts: seq<Host>, fam: string, profile: string, h: Host)
    ensures !Ahead(s, hosts, fam, profile, h, h)
  {
  }

  /** The router chooses a host exactly when some permitted host could serve the request. */
  lemma ChoosesWhenItCan(env: Naming, s: Snapshot, hosts: seq<Host>, req: Request)
    requires DistinctNames(hosts) && FamilyFor(env, s, req.model) != ""
    ensures var d := Decide(env, s, hosts, req);
            && (Chosen(d.verdict) <==> exists h :: h in hosts && Permits(req.allowed, h.name) && Could(env, s, req, h))
            && (d.verdict == Unauthorised <==> !Chosen(d.verdict) && exists h :: h in hosts && Could(env, s, req, h))
  {
    hide Candidates, Decide, ClassOf, NameFor, PlaceOf, Ahead;
    var fam, profile := FamilyFor(env, s, req.model), ProfileOf(req);
    var cs := Candidates(s, hosts, fam, profile);
    var i := FirstPermitted(cs, req.allowed);
    DecideByCandidates(env, s, hosts, req);
    forall h | h in hosts && Could(env, s, req, h) ensures exists j :: 0 <= j < |cs| && cs[j].host == h {
      var j := PlaceInList(s, hosts, fam, profile, h);
    }
    forall j | 0 <= j < |cs| ensures cs[j].host in hosts && Could(env, s, req, cs[j].host) {
      CandidateExact(s, hosts, fam, profile, cs[j]);
    }
  }

  /** The host chosen is permitted, of the class the verdict names, and no permitted host is ahead of it. */
  lemma ChoosesTheBest(env: Naming, s: Snapshot, hosts: seq<Host>, req: Request, h: Host)
    requires DistinctNames(hosts) && h in hosts
    requires var d := Decide(env, s, hosts, req); Chosen(d.verdict) && d.host == h.name
    ensures var d, fam, profile := Decide(env, s, hosts, req), FamilyFor(env, s, req.model), ProfileOf(req);
            && Permits(req.allowed, h.name) && ClassOf(s, fam, profile, h) == Some(Rank(d.verdict))
            && d.model == NameFor(s, fam, profile, h) && d.endpoint == h.Endpoint()
            && (d.loads == 1 <==> d.verdict == WouldLoad) && d.loads <= 1
            && forall other :: other in hosts && Permits(req.allowed, other.name) ==> !Ahead(s, hosts, fam, profile, other, h)
  {
    hide Candidates, Decide, NameFor, PlaceOf, Ahead, SomeAnswers, SomeResidentAnswers;
    var fam, profile := FamilyFor(env, s, req.model), ProfileOf(req);
    var i := ChosenPlace(env, s, hosts, req, h);
    var cs := Candidates(s, hosts, fam, profile);
    CandidateExact(s, hosts, fam, profile, cs[i]);
    forall other | other in hosts && Permits(req.allowed, other.name) ensures !Ahead(s, hosts, fam, profile, other, h) {
      if Ahead(s, hosts, fam, profile, other, h) {
        AheadCould(s, hosts, fam, profile, other, h);
        var j := PlaceInList(s, hosts, fam, profile, other);
        assert false;
      }
    }
  }

  lemma AheadCould(s: Snapshot, hosts: seq<Host>, fam: string, profile: string, other: Host, h: Host)
    requires Ahead(s, hosts, fam, profile, other, h)
    ensures ClassOf(s, fam, profile, other).Some?
  {
  }

  /** Where the chosen host stands: the first permitted place. */
  lemma ChosenPlace(env: Naming, s: Snapshot, hosts: seq<Host>, req: Request, h: Host) returns (i: nat)
    requires DistinctNames(hosts) && h in hosts
    requires var d := Decide(env, s, hosts, req); Chosen(d.verdict) && d.host == h.name
    ensures var d, fam, profile := Decide(env, s, hosts, req), FamilyFor(env, s, req.model), ProfileOf(req);
            var cs := Candidates(s, hosts, fam, profile);
            && fam != "" && i == FirstPermitted(cs, req.allowed) && i < |cs| && cs[i].host == h && ClassOf(s, fam, profile, h).Some?
            && d.withheld == HostNames(cs[..i]) && d.model == cs[i].name && d.verdict == VerdictOf(cs[i])
            && d.endpoint == h.Endpoint() && d.loads == (if d.verdict == WouldLoad then 1 else 0)
            && (forall j :: 0 <= j < |cs| ==> cs[j].host in hosts && (j < i <==> Ahead(s, hosts, fam, profile, cs[j].host, h)))
  {
    hide Candidates, Decide, ClassOf, NameFor, PlaceOf, Ahead;
    var fam, profile := FamilyFor(env, s, req.model), ProfileOf(req);
    var cs := Candidates(s, hosts, fam, profile);
    i := FirstPermitted(cs, req.allowed);
    DecideByCandidates(env, s, hosts, req);
    CandidateExact(s, hosts, fam, profile, cs[i]);
    SameHost(hosts, cs[i].host, h);
    var j := PlaceInList(s, hosts, fam, profile, h);
  }

  /** What is withheld is exactly the hosts ahead of the chosen one, each once, best first; with none chosen, every host that could serve. */
  lemma WithholdsExactly(env: Naming, s: Snapshot, hosts: seq<Host>, req: Request, other: Host)
    requires DistinctNames(hosts) && other in hosts && FamilyFor(env, s, req.model) != ""
    ensures var d, fam, profile := Decide(env, s, hosts, req), FamilyFor(env, s, req.model), ProfileOf(req);
            other.name in d.withheld <==>
            if Chosen(d.verdict) then exists h :: h in hosts && h.name == d.host && Ahead(s, hosts, fam, profile, other, h)
            else Could(env, s, req, other)
  {
    hide Candidates, Decide, ClassOf, NameFor, PlaceOf, Ahead;
    var d, fam, profile := Decide(env, s, hosts, req), FamilyFor(env, s, req.model), ProfileOf(req);
    var cs := Candidates(s, hosts, fam, profile);
    DecideByCandidates(env, s, hosts, req);
    forall j | 0 <= j < |cs| && cs[j].host.name == other.name ensures cs[j].host == other && Could(env, s, req, other) {
      CandidateExact(s, hosts, fam, profile, cs[j]);
      SameHost(hosts, cs[j].host, other);
    }
    if Could(env, s, req, other) {
      var j := PlaceInList(s, hosts, fam, profile, other);
      assert HostNames(cs)[j] == other.name;
    }
    if Chosen(d.verdict) {
      var k := FirstPermitted(cs, req.allowed);
      CandidateExact(s, hosts, fam, profile, cs[k]);
      var h := cs[k].host;
      var i := ChosenPlace(env, s, hosts, req, h);
      forall g | g in hosts && g.name == d.host ensures g == h {
        SameHost(hosts, g, h);
      }
      if Ahead(s, hosts, fam, profile, other, h) {
        AheadCould(s, hosts, fam, profile, other, h);
        var j := PlaceInList(s, hosts, fam, profile, other);
        assert HostNames(cs[..i])[j] == other.name;
      }
      if other.name in d.withheld {
        var j :| 0 <= j < i && HostNames(cs[..i])[j] == other.name;
        assert cs[j].host == other;
      }
    }
  }

  /**
   The model named is one of the chosen host's own aliases of the family that
   serves the profile: a resident one when the verdict says resident, and one
   not in memory when it says the model would have to load.
   */
  lemma ChosenModel(env: Naming, s: Snapshot, hosts: seq<Host>, req: Request, h: Host)
    requires Agrees(env, s) && DistinctNames(hosts) && h in hosts
    requires var d := Decide(env, s, hosts, req); Chosen(d.verdict) && d.host == h.name
    ensures var d, fam := Decide(env, s, hosts, req), FamilyFor(env, s, req.model);
            && (exists a :: a in AliasesIn(s, fam) && Answers(s, h, ProfileOf(req), a) && a.name == d.model && (d.verdict == Resident ==> a.resident))
            && (d.verdict == WouldLoad ==> forall a :: a in AliasesIn(s, fam) && a.host == h.name && a.name == d.model ==> !a.resident)
  {
    hide Agrees, Decide, Ahead, Serves, AliasesIn, PickServing;
    var d, fam, profile := Decide(env, s, hosts, req), FamilyFor(env, s, req.model), ProfileOf(req);
    ChoosesTheBest(env, s, hosts, req, h);
    PickServingExact(env, s, fam, h, profile);
    var held := ServingResidents(s, AliasesIn(s, fam), h, profile);
    if held != [] {
      assert held[0] in held;
    }
  }

  // ---- Widening ----

  /** wider authorises every host narrow does. */
  ghost predicate Widens(narrow: Option<seq<string>>, wider: Option<seq<string>>) {
    forall host :: Permits(narrow, host) ==> Permits(wider, host)
  }

  lemma WidenedFirst(cs: seq<Candidate>, narrow: Option<seq<string>>, wider: Option<seq<string>>)
    requires Widens(narrow, wider)
    ensures FirstPermitted(cs, wider) <= FirstPermitted(cs, narrow)
  {
    var i := FirstPermitted(cs, narrow);
    if i < |cs| {
      assert Permits(wider, cs[i].host.name);
    }
  }

  /** A wider allowance never ends in a worse class, and never in none where the narrower ended in one. */
  lemma WideningNeverWorse(env: Naming, s: Snapshot, hosts: seq<Host>, req: Request, wider: Option<seq<string>>)
    requires DistinctNames(hosts) && Widens(req.allowed, wider)
    ensures Rank(Decide(env, s, hosts, req.(allowed := wider)).verdict) <= Rank(Decide(env, s, hosts, req).verdict)
  {
    hide Candidates, Decide, ClassOf, NameFor, PlaceOf, FirstPermitted;
    var fam, profile := FamilyFor(env, s, req.model), ProfileOf(req);
    var cs := Candidates(s, hosts, fam, profile);
    var i, j := FirstPermitted(cs, req.allowed), FirstPermitted(cs, wider);
    DecideByCandidates(env, s, hosts, req);
    DecideByCandidates(env, s, hosts, req.(allowed := wider));
    WidenedFirst(cs, req.allowed, wider);
    CandidatesOrdered(s, hosts, fam, profile);
    if i < |cs| {
      VerdictRank(s, hosts, fam, profile, cs[i]);
      VerdictRank(s, hosts, fam, profile, cs[j]);
      if j < i {
        assert Ahead(s, hosts, fam, profile, cs[j].host, cs[i].host);
      }
    }
  }

  lemma VerdictRank(s: Snapshot, hosts: seq<Host>, fam: string, profile: string, c: Candidate)
    requires c in Candidates(s, hosts, fam, profile)
    ensures ClassOf(s, fam, profile, c.host) == Some(Rank(VerdictOf(c)))
  {
    hide Candidates, NameFor, SomeAnswers, SomeResidentAnswers;
    CandidateExact(s, hosts, fam, profile, c);
  }

  // ---- Trying again without the host that failed ----

  function Without(allowed: seq<string>, name: string): (r: seq<string>)
    ensures forall x :: x in r <==> x in allowed && x != name
    ensures |r| <= |allowed| && (name in allowed ==> |r| < |allowed|)
  {
    if |allowed| == 0 then []
    else (if allowed[0] == name then [] else [allowed[0]]) + Without(allowed[1..], name)
  }

  /** The hosts a caller tries who drops each chosen host from its allowance and asks again. */
  ghost function Attempts(env: Naming, s: Snapshot, hosts: seq<Host>, req: Request): seq<string>
    requires req.allowed.Some?
    decreases |req.allowed.value|
  {
    var d := Decide(env, s, hosts, req);
    if !Chosen(d.verdict) || d.host !in req.allowed.value then []
    else [d.host] + Attempts(env, s, hosts, req.(allowed := Some(Without(req.allowed.value, d.host))))
  }

  /** The decision that ends those attempts. */
  ghost function LastDecision(env: Naming, s: Snapshot, hosts: seq<Host>, req: Request): Decision
    requires req.allowed.Some?
    decreases |req.allowed.value|
  {
    var d := Decide(env, s, hosts, req);
    if !Chosen(d.verdict) || d.host !in req.allowed.value then d
    else LastDecision(env, s, hosts, req.(allowed := Some(Without(req.allowed.value, d.host))))
  }

  /** The candidates an allowance names, in order. */
  function PermittedHosts(cs: seq<Candidate>, allowed: seq<string>): (names: seq<string>)
    ensures forall name :: name in names ==> name in allowed
  {
    if |cs| == 0 then []
    else (if cs[0].host.name in allowed then [cs[0].host.name] else []) + PermittedHosts(cs[1..], allowed)
  }

  predicate NamesApart(cs: seq<Candidate>) {
    forall i, j :: 0 <= i < j < |cs| ==> cs[i].host.name != cs[j].host.name
  }

  lemma CandidatesApart(s: Snapshot, hosts: seq<Host>, fam: string, profile: string)
    requires DistinctNames(hosts)
    ensures NamesApart(Candidates(s, hosts, fam, profile))
  {
    hide Candidates, ClassOf, NameFor, PlaceOf, Ahead;
    var cs := Candidates(s, hosts, fam, profile);
    CandidatesOrdered(s, hosts, fam, profile);
    forall i, j | 0 <= i < j < |cs| ensures cs[i].host.name != cs[j].host.name {
      CandidateExact(s, hosts, fam, profile, cs[i]);
      CandidateExact(s, hosts, fam, profile, cs[j]);
      AheadIsOther(s, hosts, fam, profile, cs[i].host, cs[j].host);
    }
  }

  lemma {:induction false} PermittedWithout(cs: seq<Candidate>, allowed: seq<string>, name: string)
    requires forall i :: 0 <= i < |cs| ==> cs[i].host.name != name
    ensures PermittedHosts(cs, Without(allowed, name)) == PermittedHosts(cs, allowed)
  {
    hide Without;
    if |cs| > 0 {
      PermittedWithout(cs[1..], allowed, name);
    }
  }

  lemma ApartRest(cs: seq<Candidate>)
    requires NamesApart(cs) && |cs| > 0
    ensures NamesApart(cs[1..]) && forall i :: 0 <= i < |cs[1..]| ==> cs[1..][i].host.name != cs[0].host.name
  {
  }

  lemma {:induction false} PermittedNext(cs: seq<Candidate>, allowed: seq<string>)
    requires NamesApart(cs) && FirstPermitted(cs, Some(allowed)) < |cs|
    ensures var name := cs[FirstPermitted(cs, Some(allowed))].host.name;
            PermittedHosts(cs, allowed) == [name] + PermittedHosts(cs, Without(allowed, name))
  {
    hide Without, NamesApart;
    var i := FirstPermitted(cs, Some(allowed));
    var name, rest := cs[i].host.name, cs[1..];
    ApartRest(cs);
    if cs[0].host.name in allowed {
      PermittedWithout(rest, allowed, name);
    } else {
      assert FirstPermitted(rest, Some(allowed)) == i - 1 && rest[i - 1] == cs[i];
      PermittedNext(rest, allowed);
    }
  }

  lemma {:induction false} NonePermitted(cs: seq<Candidate>, allowed: seq<string>)
    requires FirstPermitted(cs, Some(allowed)) == |cs|
    ensures PermittedHosts(cs, allowed) == []
  {
    if |cs| > 0 {
      NonePermitted(cs[1..], allowed);
    }
  }

  predicate Names(cs: seq<Candidate>, name: string) {
    exists i :: 0 <= i < |cs| && cs[i].host.name == name
  }

  lemma {:induction false} PermittedMembers(cs: seq<Candidate>, allowed: seq<string>)
    requires NamesApart(cs)
    ensures var names := PermittedHosts(cs, allowed);
            && (forall name :: name in names <==> name in allowed && Names(cs, name))
            && forall i, j :: 0 <= i < j < |names| ==> names[i] != names[j]
  {
    if |cs| > 0 {
      var rest := cs[1..];
      PermittedMembers(rest, allowed);
      forall name ensures Names(cs, name) <==> cs[0].host.name == name || Names(rest, name) {
        if i :| 0 <= i < |cs| && cs[i].host.name == name {
          if i > 0 {
            assert rest[i - 1].host.name == name;
          }
        }
        if i :| 0 <= i < |rest| && rest[i].host.name == name {
          assert cs[i + 1].host.name == name;
        }
      }
      assert forall i :: 0 <= i < |rest| ==> rest[i] == cs[i + 1];
    }
  }

  /** So it tries each permitted host that could serve the request, and none twice. */
  lemma FallbackTriesAll(env: Naming, s: Snapshot, hosts: seq<Host>, req: Request)
    requires DistinctNames(hosts) && req.allowed.Some? && FamilyFor(env, s, req.model) != ""
    ensures var names := Attempts(env, s, hosts, req);
            && (forall h :: h in hosts ==> (h.name in names <==> h.name in req.allowed.value && Could(env, s, req, h)))
            && forall i, j :: 0 <= i < j < |names| ==> names[i] != names[j]
  {
    hide Candidates, ClassOf, NameFor, PermittedHosts, Attempts;
    var fam, profile := FamilyFor(env, s, req.model), ProfileOf(req);
    var cs := Candidates(s, hosts, fam, profile);
    FallbackVisitsEach(env, s, hosts, req);
    PermittedMembers(cs, req.allowed.value);
    forall h | h in hosts ensures Could(env, s, req, h) <==> Names(cs, h.name) {
      if Could(env, s, req, h) {
        var i := PlaceInList(s, hosts, fam, profile, h);
      }
      if i :| 0 <= i < |cs| && cs[i].host.name == h.name {
        CandidateExact(s, hosts, fam, profile, cs[i]);
        SameHost(hosts, cs[i].host, h);
      }
    }
  }

  /**
   Trying again without the host that failed visits each permitted candidate
   once, best first, and then ends: unauthorised when the family has a
   candidate at all.
   */
  lemma {:induction false} FallbackVisitsEach(env: Naming, s: Snapshot, hosts: seq<Host>, req: Request)
    requires DistinctNames(hosts) && req.allowed.Some? && FamilyFor(env, s, req.model) != ""
    ensures var cs := Candidates(s, hosts, FamilyFor(env, s, req.model), ProfileOf(req));
            && NamesApart(cs)
            && Attempts(env, s, hosts, req) == PermittedHosts(cs, req.allowed.value)
            && !Chosen(LastDecision(env, s, hosts, req).verdict)
            && (LastDecision(env, s, hosts, req).verdict == Unauthorised <==> cs != [])
    decreases |req.allowed.value|
  {
    hide Candidates, Decide, NameFor, Without, PermittedHosts;
    var fam, profile := FamilyFor(env, s, req.model), ProfileOf(req);
    var cs := Candidates(s, hosts, fam, profile);
    CandidatesApart(s, hosts, fam, profile);
    DecideByCandidates(env, s, hosts, req);
    var i := FirstPermitted(cs, req.allowed);
    if i < |cs| {
      PermittedNext(cs, req.allowed.value);
      FallbackVisitsEach(env, s, hosts, req.(allowed := Some(Without(req.allowed.value, cs[i].host.name))));
    } else {
      NonePermitted(cs, req.allowed.value);
    }
  }

  // ---- A caller that needs an endpoint ----

  /** The hosts a caller's own loop asks, none of them answering: it ends at the first decision without an endpoint. */
  ghost function Asked(env: Naming, s: Snapshot, hosts: seq<Host>, req: Request): seq<string>
    requires req.allowed.Some?
    decreases |req.allowed.value|
  {
    var d := Decide(env, s, hosts, req);
    if d.endpoint == "" || d.host !in req.allowed.value then []
    else [d.host] + Asked(env, s, hosts, req.(allowed := Some(Without(req.allowed.value, d.host))))
  }

  /** The permitted candidates ahead of the first one without an endpoint. */
  function Addressed(cs: seq<Candidate>, allowed: seq<string>): seq<string> {
    if |cs| == 0 then []
    else if cs[0].host.name !in allowed then Addressed(cs[1..], allowed)
    else if cs[0].host.Endpoint() == "" then []
    else [cs[0].host.name] + Addressed(cs[1..], allowed)
  }

  lemma {:induction false} AddressedWithout(cs: seq<Candidate>, allowed: seq<string>, name: string)
    requires forall i :: 0 <= i < |cs| ==> cs[i].host.name != name
    ensures Addressed(cs, Without(allowed, name)) == Addressed(cs, allowed)
  {
    hide Without, Host.Endpoint;
    if |cs| > 0 {
      AddressedWithout(cs[1..], allowed, name);
    }
  }

  lemma {:induction false} AddressedNext(cs: seq<Candidate>, allowed: seq<string>)
    requires NamesApart(cs) && FirstPermitted(cs, Some(allowed)) < |cs|
    ensures var c := cs[FirstPermitted(cs, Some(allowed))];
            Addressed(cs, allowed) == if c.host.Endpoint() == "" then [] else [c.host.name] + Addressed(cs, Without(allowed, c.host.name))
  {
    hide Without, NamesApart, Host.Endpoint;
    var i := FirstPermitted(cs, Some(allowed));
    var name, rest := cs[i].host.name, cs[1..];
    ApartRest(cs);
    if cs[0].host.name in allowed {
      AddressedWithout(rest, allowed, name);
    } else {
      assert FirstPermitted(rest, Some(allowed)) == i - 1 && rest[i - 1] == cs[i];
      AddressedNext(rest, allowed);
    }
  }

  lemma {:induction false} NoneAddressed(cs: seq<Candidate>, allowed: seq<string>)
    requires FirstPermitted(cs, Some(allowed)) == |cs|
    ensures Addressed(cs, allowed) == []
  {
    if |cs| > 0 {
      NoneAddressed(cs[1..], allowed);
    }
  }

  /** A caller's loop asks the permitted candidates in order, up to the first one without an endpoint. */
  lemma {:induction false} CallerAsksEach(env: Naming, s: Snapshot, hosts: seq<Host>, req: Request)
    requires DistinctNames(hosts) && req.allowed.Some? && FamilyFor(env, s, req.model) != ""
    ensures Asked(env, s, hosts, req) == Addressed(Candidates(s, hosts, FamilyFor(env, s, req.model), ProfileOf(req)), req.allowed.value)
    decreases |req.allowed.value|
  {
    hide Candidates, Decide, NameFor, Without, Addressed, Host.Endpoint;
    var cs := Candidates(s, hosts, FamilyFor(env, s, req.model), ProfileOf(req));
    CandidatesApart(s, hosts, FamilyFor(env, s, req.model), ProfileOf(req));
    DecideByCandidates(env, s, hosts, req);
    var i := FirstPermitted(cs, req.allowed);
    if i < |cs| {
      AddressedNext(cs, req.allowed.value);
      if cs[i].host.Endpoint() != "" {
        CallerAsksEach(env, s, hosts, req.(allowed := Some(Without(req.allowed.value, cs[i].host.name))));
      }
    } else {
      NoneAddressed(cs, req.allowed.value);
    }
  }

  /** A candidate has no endpoint exactly when its host is hosted or native. */
  lemma EndpointExact(s: Snapshot, hosts: seq<Host>, fam: string, profile: string, c: Candidate)
    requires c in Candidates(s, hosts, fam, profile)
    ensures c.host.Endpoint() == "" <==> c.host.hosted || c.host.native
  {
    hide Candidates, NameFor, SomeAnswers, SomeResidentAnswers;
    CandidateExact(s, hosts, fam, profile, c);
  }

  // ---- Declared models ----

  lemma {:induction false} ProfilesFound(hosts: seq<Host>, readings: seq<Reading>, i: nat)
    requires |hosts| == |readings| && DistinctNames(hosts) && i < |hosts|
    ensures var found := ProfilesOf(hosts, readings);
            (hosts[i].name in found <==> readings[i].profiles.Some?)
            && (readings[i].profiles.Some? ==> found[hosts[i].name] == readings[i].profiles.value)
  {
    var n := |hosts| - 1;
    if i < n {
      ProfilesFound(hosts[..n], readings[..n], i);
    } else {
      ProfilesAbsent(hosts[..n], readings[..n], hosts[n].name);
    }
  }

  lemma {:induction false} ProfilesAbsent(hosts: seq<Host>, readings: seq<Reading>, name: string)
    requires |hosts| == |readings| && forall i :: 0 <= i < |hosts| ==> hosts[i].name != name
    ensures name !in ProfilesOf(hosts, readings)
  {
    if |hosts| > 0 {
      ProfilesAbsent(hosts[..|hosts| - 1], readings[..|hosts| - 1], name);
    }
  }
}
