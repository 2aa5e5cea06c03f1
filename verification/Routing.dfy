/** Which host serves a request: the choice made from one snapshot and one list of hosts. */
module Routing {
  import opened Basics
  import opened Order
  import opened Provenance
  import opened Hosts
  import opened Catalogue
  import opened Composition
  import opened Snapshots

  datatype Verdict = Resident | WouldLoad | Hosted | Unservable | NotHere | Unparseable | Unauthorised | NoHost

  /** allowed is the hosts a request authorises; None is every host, and an empty list none. */
  datatype Request = Request(model: string, allowed: Option<seq<string>>, profile: string)

  datatype Decision = Decision(
    asked: string,
    family: string,
    verdict: Verdict,
    host: string,
    model: string,
    endpoint: string,
    installedOn: seq<string>,
    authorised: Option<seq<string>>,
    withheld: seq<string>,
    loads: nat)

  datatype Candidate = Candidate(host: Host, name: string, held: bool)

  // ---- Reading the snapshot ----

  /** familyOf: the snapshot's answer for the lower-cased name, and the naming's when the snapshot has none. */
  function FamilyFor(env: Naming, s: Snapshot, name: string): string {
    var key := env.lower(name);
    if key in s.aliasFamily && s.aliasFamily[key] != "" then s.aliasFamily[key] else env.Family(name)
  }

  /** serves: by the model's own profiles when its host reported them, by the host's otherwise. */
  predicate Serves(s: Snapshot, h: Host, name: string, profile: string) {
    if h.name in s.profiles && name in s.profiles[h.name] then profile in s.profiles[h.name][name] else profile in h.HostProfiles()
  }

  function NamesIf(fam: string): Family -> seq<Alias> {
    (f: Family) => if f.family == fam then f.names else []
  }

  /** The aliases of a family, in catalogue order. */
  function AliasesIn(s: Snapshot, fam: string): seq<Alias> {
    Flat(s.families, NamesIf(fam))
  }

  lemma AliasesInFamily(s: Snapshot, fam: string, a: Alias)
    ensures a in AliasesIn(s, fam) <==> exists f :: f in s.families && f.family == fam && a in f.names
  {
    FlatMember(s.families, NamesIf(fam), a);
    if f :| f in s.families && f.family == fam && a in f.names {
      var i :| 0 <= i < |s.families| && s.families[i] == f;
      assert a in NamesIf(fam)(s.families[i]);
    }
  }

  /** An alias of the host that serves the profile. */
  predicate Answers(s: Snapshot, h: Host, profile: string, a: Alias) {
    a.host == h.name && Serves(s, h, a.name, profile)
  }

  predicate SomeAnswers(s: Snapshot, fam: string, h: Host, profile: string) {
    exists a :: a in AliasesIn(s, fam) && Answers(s, h, profile, a)
  }

  predicate SomeResidentAnswers(s: Snapshot, fam: string, h: Host, profile: string) {
    exists a :: a in AliasesIn(s, fam) && a.resident && Answers(s, h, profile, a)
  }

  /** The names of the resident aliases that answer, in catalogue order. */
  function ServingResidents(s: Snapshot, aliases: seq<Alias>, h: Host, profile: string): (names: seq<string>)
    ensures names != [] <==> exists a :: a in aliases && a.resident && Answers(s, h, profile, a)
    ensures forall name :: name in names ==> exists a :: a in aliases && a.resident && Answers(s, h, profile, a) && a.name == name
  {
    if |aliases| == 0 then []
    else
      var n := |aliases| - 1;
      assert aliases == aliases[..n] + [aliases[n]];
      var before := ServingResidents(s, aliases[..n], h, profile);
      if aliases[n].resident && Answers(s, h, profile, aliases[n]) then before + [aliases[n].name] else before
  }

  /** The first of the aliases that answers. */
  function FirstAnswer(s: Snapshot, aliases: seq<Alias>, h: Host, profile: string): (r: Option<string>)
    ensures r.Some? <==> exists a :: a in aliases && Answers(s, h, profile, a)
    ensures r.Some? ==> exists a :: a in aliases && Answers(s, h, profile, a) && a.name == r.value
  {
    if |aliases| == 0 then None
    else
      var n := |aliases| - 1;
      assert aliases == aliases[..n] + [aliases[n]];
      var before := FirstAnswer(s, aliases[..n], h, profile);
      if before.Some? then before else if Answers(s, h, profile, aliases[n]) then Some(aliases[n].name) else None
  }

  /** pickServing: the recorded pick if it answers, else the first answering alias of the catalogue. */
  function PickServing(s: Snapshot, fam: string, h: Host, profile: string): Option<string> {
    if fam in s.pick && h.name in s.pick[fam] && Serves(s, h, s.pick[fam][h.name], profile) then Some(s.pick[fam][h.name])
    else FirstAnswer(s, AliasesIn(s, fam), h, profile)
  }

  /** pickServing finds a name exactly when some alias of the host answers, and the name is one of those. */
  lemma PickServingExact(env: Naming, s: Snapshot, fam: string, h: Host, profile: string)
    requires Agrees(env, s)
    ensures var r := PickServing(s, fam, h, profile);
            && (r.Some? <==> SomeAnswers(s, fam, h, profile))
            && (r.Some? ==> exists a :: a in AliasesIn(s, fam) && Answers(s, h, profile, a) && a.name == r.value)
  {
    hide Serves;
    if fam in s.pick && h.name in s.pick[fam] && Serves(s, h, s.pick[fam][h.name], profile) {
      assert Lists(s, fam, h.name, s.pick[fam][h.name]);
      var f, a :| f in s.families && f.family == fam && a in f.names && a.host == h.name && a.name == s.pick[fam][h.name];
      AliasesInFamily(s, fam, a);
      assert Answers(s, h, profile, a);
    }
  }

  // ---- Candidates ----

  /** 0: holds it. 1: has it on disk. 2: a hosted host that lists it. None: cannot serve it. */
  function ClassOf(s: Snapshot, fam: string, profile: string, h: Host): Option<nat> {
    if !h.Servable() || !SomeAnswers(s, fam, h, profile) then None
    else if h.hosted then Some(2)
    else if SomeResidentAnswers(s, fam, h, profile) then Some(0)
    else Some(1)
  }

  /** The name a candidate is asked by. */
  function NameFor(s: Snapshot, fam: string, profile: string, h: Host): string {
    var held := ServingResidents(s, AliasesIn(s, fam), h, profile);
    if !h.hosted && held != [] then held[0]
    else match PickServing(s, fam, h, profile) case Some(name) => name case None => ""
  }

  function CandidateOf(s: Snapshot, fam: string, profile: string, rank: nat): Host -> seq<Candidate> {
    (h: Host) => if ClassOf(s, fam, profile, h) == Some(rank) then [Candidate(h, NameFor(s, fam, profile, h), rank == 0)] else []
  }

  /** The candidates of each class, classes 0, 1 and 2 one after another. */
  function Candidates(s: Snapshot, hosts: seq<Host>, fam: string, profile: string): seq<Candidate> {
    Flat(hosts, CandidateOf(s, fam, profile, 0)) + Flat(hosts, CandidateOf(s, fam, profile, 1)) + Flat(hosts, CandidateOf(s, fam, profile, 2))
  }

  // ---- The decision ----

  predicate Permits(allowed: Option<seq<string>>, host: string) {
    allowed.None? || host in allowed.value
  }

  /** The place of the first permitted candidate; the length when there is none. */
  function FirstPermitted(cs: seq<Candidate>, allowed: Option<seq<string>>): (i: nat)
    ensures i <= |cs|
    ensures forall j :: 0 <= j < i ==> !Permits(allowed, cs[j].host.name)
    ensures i < |cs| ==> Permits(allowed, cs[i].host.name)
  {
    if |cs| == 0 || Permits(allowed, cs[0].host.name) then 0 else 1 + FirstPermitted(cs[1..], allowed)
  }

  function HostNames(cs: seq<Candidate>): (names: seq<string>)
    ensures |names| == |cs| && forall i :: 0 <= i < |cs| ==> names[i] == cs[i].host.name
  {
    seq(|cs|, i requires 0 <= i < |cs| => cs[i].host.name)
  }

  /** The hosts the family's aliases name, each once, in catalogue order. */
  function InstalledOn(aliases: seq<Alias>): (names: seq<string>)
    ensures forall h :: h in names <==> h != "" && exists a :: a in aliases && a.host == h
  {
    if |aliases| == 0 then []
    else
      var n := |aliases| - 1;
      assert aliases == aliases[..n] + [aliases[n]];
      var before := InstalledOn(aliases[..n]);
      if aliases[n].host != "" && aliases[n].host !in before then before + [aliases[n].host] else before
  }

  /** An alias of the host, in any family. */
  predicate Known(s: Snapshot, h: Host, a: Alias) {
    a.host == h.name && exists f :: f in s.families && a in f.names
  }

  /** anyServes: whether some servable host serves the profile at all; true when none is servable. */
  ghost predicate AnyServes(s: Snapshot, hosts: seq<Host>, profile: string) {
    (exists h :: h in hosts && h.Servable() && HostServes(s, h, profile)) || forall h :: h in hosts ==> !h.Servable()
  }

  ghost predicate HostServes(s: Snapshot, h: Host, profile: string) {
    if exists a :: Known(s, h, a) then exists a :: Known(s, h, a) && Serves(s, h, a.name, profile)
    else profile in h.HostProfiles()
  }

  function VerdictOf(c: Candidate): Verdict {
    if c.host.hosted then Hosted else if c.held then Resident else WouldLoad
  }

  ghost function Decide(env: Naming, s: Snapshot, hosts: seq<Host>, req: Request): Decision {
    var fam := FamilyFor(env, s, req.model);
    var d := Decision(req.model, fam, Unparseable, "", "", "", [], req.allowed, [], 0);
    if fam == "" then d
    else
      var installedOn := InstalledOn(AliasesIn(s, fam));
      var profile := if req.profile == "" then CHAT else req.profile;
      var told := d.(installedOn := installedOn);
      if !AnyServes(s, hosts, profile) then told.(verdict := NoHost)
      else
        var cs := Candidates(s, hosts, fam, profile);
        var i := FirstPermitted(cs, req.allowed);
        var asked := told.(withheld := HostNames(cs[..i]));
        if i < |cs| then
          var c := cs[i];
          asked.(host := c.host.name, model := c.name, endpoint := c.host.Endpoint(), verdict := VerdictOf(c),
                 loads := if VerdictOf(c) == WouldLoad then 1 else 0)
        else if asked.withheld != [] then asked.(verdict := Unauthorised)
        else if exists h :: h in hosts && h.Servable() && h.name in installedOn then asked.(verdict := NoHost)
        else if installedOn != [] then asked.(verdict := Unservable)
        else asked.(verdict := NotHere)
  }
}
