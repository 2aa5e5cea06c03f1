/** What an offer lists can be picked: offers and routing read one snapshot alike. */
module Pickable {
  import opened Basics
  import opened Order
  import opened Provenance
  import opened Hosts
  import opened Catalogue
  import opened Snapshots
  import opened Routing
  import opened Decisions
  import opened Offers
  import opened Joining

  /** An alias of the host is counted into the family, under the name. */
  predicate CountedAs(q: Query, placement: Placement, fam: string, h: Host, name: string) {
    exists f, a :: f in q.s.families && f.family == fam && a in f.names && a.name == name
                   && q.HostNamed(a.host) == Some(h) && q.Counts(placement, h, a)
  }

  /** A counted name and a counted server are in the family's offer. */
  lemma CountedIsOffered(q: Query, placement: Placement, reserve: int, fam: string, h: Host, name: string)
    requires h in q.hosts && CountedAs(q, placement, fam, h, name)
    ensures exists o :: o in OffersFor(q, placement, reserve) && o.family == fam && name in o.names && h.name in o.servers
  {
    hide Query.Counts, Query.FromFamily, Query.FromReply, OffersFor, NamesIn, ServersOf, Before, WindowOf;
    var f, a :| f in q.s.families && f.family == fam && a in f.names && a.name == name && q.HostNamed(a.host) == Some(h) && q.Counts(placement, h, a);
    var p := FromAlias(h, a);
    var parts := q.Parts(placement);
    AliasCounted(q, placement, fam, p);
    assert (fam, p) in parts;
    assert (fam, p).0 in FamiliesIn(parts);
    UnderMember(parts, fam, p);
    var ps, n := Into(parts, fam), DefaultContext(q.profile);
    var o := OfferOf(fam, ps, q.hosts, n, reserve);
    OfferListed(q, placement, reserve, o);
    NameCounted(ps, p);
    BeforeStrictTotal();
    RankedMembers(NamesIn(ps), Before);
    assert p.host.name in LocalsIn(ps);
    FlatMember(q.hosts, ServersAt(ps), h.name);
    var i :| 0 <= i < |q.hosts| && q.hosts[i] == h;
    assert ServersAt(ps)(q.hosts[i])[0] == h.name;
  }

  lemma NameCounted(ps: seq<Part>, p: Part)
    requires p in ps && p.FromAlias?
    ensures p.alias.name in NamesIn(ps)
  {
    assert p.alias.name in PartNames(p);
  }

  /**
   Everything offered is pickable: for a family, any server and any name counted
   from the survey, a request for that name and profile that authorises that
   server alone is served by it, from that family.
   */
  lemma OfferedIsPickable(env: Naming, q: Query, placement: Placement, fam: string, h: Host, name: string, other: Host, asked: string, req: Request)
    requires Agrees(env, q.s) && DistinctNames(q.hosts) && forall g :: g in q.hosts ==> g.name != ""
    requires h in q.hosts && CountedAs(q, placement, fam, h, name)
    requires other in q.hosts && CountedAs(q, placement, fam, other, asked)
    requires req.model == asked && req.allowed == Some([h.name]) && ProfileOf(req) == q.profile
    ensures var d := Decide(env, q.s, q.hosts, req);
            Chosen(d.verdict) && d.host == h.name && d.family == fam
  {
    hide Serves, Decide, ClassOf, AliasesIn, Named;
    var f, a :| f in q.s.families && f.family == fam && a in f.names && a.name == name && q.HostNamed(a.host) == Some(h) && q.Counts(placement, h, a);
    NamedSo(q.hosts, a.host);
    CountedPlaced(env, q, placement, fam, other, asked);
    AliasesInFamily(q.s, fam, a);
    assert Answers(q.s, h, q.profile, a);
    ClassKnown(q.s, fam, q.profile, h);
    assert Could(env, q.s, req, h) && Permits(req.allowed, h.name);
    ChoosesWhenItCan(env, q.s, q.hosts, req);
    DecidedHost(env, q.s, q.hosts, req);
  }

  lemma NamedSo(hosts: seq<Host>, name: string)
    ensures Named(hosts, name).Some? ==> Named(hosts, name).value.name == name
  {
  }

  /** A counted name is sent to the family it is counted into. */
  lemma CountedPlaced(env: Naming, q: Query, placement: Placement, fam: string, h: Host, name: string)
    requires Agrees(env, q.s) && h.name != "" && CountedAs(q, placement, fam, h, name)
    ensures FamilyFor(env, q.s, name) == fam && fam != ""
  {
    hide Serves, Named;
    var f, a :| f in q.s.families && f.family == fam && a in f.names && a.name == name && q.HostNamed(a.host) == Some(h) && q.Counts(placement, h, a);
    NamedSo(q.hosts, a.host);
    assert Placed(env, q.s, f.family, a);
  }

  lemma ClassKnown(s: Snapshot, fam: string, profile: string, h: Host)
    requires h.Servable() && SomeAnswers(s, fam, h, profile)
    ensures ClassOf(s, fam, profile, h).Some?
  {
  }

  /** A chosen host is permitted, and the decision names the request's family. */
  lemma DecidedHost(env: Naming, s: Snapshot, hosts: seq<Host>, req: Request)
    ensures var d := Decide(env, s, hosts, req);
            d.family == FamilyFor(env, s, req.model) && (Chosen(d.verdict) ==> Permits(req.allowed, d.host))
  {
    hide Candidates, AnyServes, InstalledOn, AliasesIn;
    DecideByCandidates(env, s, hosts, req);
  }
}
