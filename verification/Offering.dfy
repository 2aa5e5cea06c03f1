/** The loops that fold a survey and the remotes' answers into offers. */
module Offering {
  import opened Basics
  import opened Order
  import opened Provenance
  import Identity
  import opened Hosts
  import opened Catalogue
  import opened Snapshots
  import opened Routing
  import opened Decisions
  import opened Offers
  import opened Joining

  /** offerFold: one family's offer so far. */
  datatype Fold = Fold(
    names: set<string>,
    local: set<string>,
    remote: map<string, seq<string>>,
    unknown: seq<string>,
    windowUnknown: bool,
    best: Option<Bound>)

  const EMPTY := Fold({}, {}, map[], [], false, None)

  /** The fold is what its parts amount to. */
  predicate Folded(f: Fold, ps: seq<Part>, fallback: int) {
    && f.names == NamesIn(ps) && f.local == LocalsIn(ps)
    && (forall h :: h in f.remote ==> f.remote[h] == ServersOf(ps, h))
    && (forall p :: p in ps && p.FromRemote? && p.host.name !in f.remote ==> p.offer.servers == [])
    && f.unknown == UnknownsIn(ps, fallback) && f.windowUnknown == AnyUnknown(ps, fallback) && f.best == BestIn(ps, fallback)
  }

  function RemoteServers(f: Fold, host: string): seq<string> {
    if host in f.remote then f.remote[host] else []
  }

  lemma {:induction false} NoServers(ps: seq<Part>, host: string)
    requires forall p :: p in ps && p.FromRemote? && p.host.name == host ==> p.offer.servers == []
    ensures ServersOf(ps, host) == []
  {
    if |ps| > 0 {
      var n := |ps| - 1;
      assert ps[n] in ps && forall p :: p in ps[..n] ==> p in ps;
      NoServers(ps[..n], host);
    }
  }

  lemma FoldedServers(f: Fold, ps: seq<Part>, fallback: int, host: string)
    requires Folded(f, ps, fallback)
    ensures RemoteServers(f, host) == ServersOf(ps, host)
  {
    if host !in f.remote {
      NoServers(ps, host);
    }
  }

  /** One more part, field by field. */
  lemma PartsPush(ps: seq<Part>, p: Part, fallback: int, host: string)
    ensures var all := ps + [p];
            && NamesIn(all) == NamesIn(ps) + PartNames(p)
            && LocalsIn(all) == LocalsIn(ps) + (if p.FromAlias? then {p.host.name} else {})
            && ServersOf(all, host) == (if p.FromRemote? && p.host.name == host then AddNew(ServersOf(ps, host), p.offer.servers) else ServersOf(ps, host))
            && UnknownsIn(all, fallback) == UnknownsIn(ps, fallback) + PartUnknowns(p, fallback)
            && AnyUnknown(all, fallback) == (AnyUnknown(ps, fallback) || PartUnknown(p, fallback))
            && BestIn(all, fallback) == Least(BestIn(ps, fallback), PartBound(p, fallback))
  {
    hide PartNames, PartUnknown, PartBound, PartUnknowns;
    var all := ps + [p];
    assert all[..|ps|] == ps;
    assert forall x :: x in all <==> x in ps || x == p;
  }

  /** count. */
  method Count(best: Option<Bound>, bound: int, source: Source) returns (r: Option<Bound>)
    ensures r == Least(best, Some(Bound(bound, source)))
  {
    if best.None? || bound < best.value.context || (bound == best.value.context && SourceRank(source) < SourceRank(best.value.source)) {
      return Some(Bound(bound, source));
    }
    r := best;
  }

  method AddNames(names: set<string>, more: seq<string>) returns (r: set<string>)
    ensures r == names + set name | name in more
  {
    r := names;
    for i := 0 to |more|
      invariant r == names + set name | name in more[..i]
    {
      assert more[..i + 1] == more[..i] + [more[i]];
      r := r + {more[i]};
    }
    assert more[..|more|] == more;
  }

  method AddServers(remote: map<string, seq<string>>, host: string, servers: seq<string>) returns (r: map<string, seq<string>>)
    ensures r.Keys == if |servers| == 0 then remote.Keys else remote.Keys + {host}
    ensures forall other :: other in r && other != host ==> r[other] == remote[other]
    ensures host in r ==> r[host] == AddNew(if host in remote then remote[host] else [], servers)
  {
    r := remote;
    for i := 0 to |servers|
      invariant r.Keys == if i == 0 then remote.Keys else remote.Keys + {host}
      invariant forall other :: other in r && other != host ==> r[other] == remote[other]
      invariant host in r ==> r[host] == AddNew(if host in remote then remote[host] else [], servers[..i])
    {
      assert servers[..i + 1][..i] == servers[..i];
      var before := if host in r then r[host] else [];
      r := r[host := if servers[i] in before then before else before + [servers[i]]];
    }
    assert servers[..|servers|] == servers;
  }

  method AddUnknown(unknown: seq<string>, host: string, names: seq<string>) returns (r: seq<string>)
    ensures r == unknown + Prefixed(host, names)
  {
    r := unknown;
    for i := 0 to |names|
      invariant r == unknown + Prefixed(host, names[..i])
    {
      assert Prefixed(host, names[..i + 1]) == Prefixed(host, names[..i]) + [host + "/" + names[i]];
      r := r + [host + "/" + names[i]];
    }
    assert names[..|names|] == names;
  }

  /** A remote's offer, folded in. */
  method CountOffer(f: Fold, h: Host, o: RemoteOffer, fallback: int, ghost ps: seq<Part>) returns (r: Fold)
    requires Folded(f, ps, fallback)
    ensures Folded(r, ps + [FromRemote(h, o)], fallback)
  {
    hide Folded;
    var names := AddNames(f.names, o.names);
    var remote := AddServers(f.remote, h.name, o.servers);
    var unknown := AddUnknown(f.unknown, h.name, o.unknown);
    var windowUnknown, best := f.windowUnknown, f.best;
    if o.source == "effective" {
      best := Count(best, o.context, Effective);
    } else if o.source == "maximum" {
      best := Count(best, o.context, Maximum);
    } else if o.source == "default" {
      best := Count(best, o.context, Default);
    } else if o.source != "none" {
      windowUnknown := true;
    }
    r := Fold(names, f.local, remote, unknown, windowUnknown, best);
    OfferFolded(f, r, h, o, fallback, ps);
  }

  lemma OfferFolded(f: Fold, r: Fold, h: Host, o: RemoteOffer, fallback: int, ps: seq<Part>)
    requires Folded(f, ps, fallback)
    requires r.names == f.names + PartNames(FromRemote(h, o)) && r.local == f.local
    requires r.remote.Keys == if |o.servers| == 0 then f.remote.Keys else f.remote.Keys + {h.name}
    requires forall host :: host in r.remote && host != h.name ==> r.remote[host] == f.remote[host]
    requires h.name in r.remote ==> r.remote[h.name] == AddNew(RemoteServers(f, h.name), o.servers)
    requires r.unknown == f.unknown + PartUnknowns(FromRemote(h, o), fallback)
    requires r.windowUnknown == (f.windowUnknown || PartUnknown(FromRemote(h, o), fallback))
    requires r.best == Least(f.best, PartBound(FromRemote(h, o), fallback))
    ensures Folded(r, ps + [FromRemote(h, o)], fallback)
  {
    hide NamesIn, LocalsIn, PartNames, PartUnknown, PartBound, PartUnknowns, UnknownsIn, AnyUnknown, BestIn, ServersOf, AddNew, Least;
    var p := FromRemote(h, o);
    PartsPush(ps, p, fallback, h.name);
    FoldedServers(f, ps, fallback, h.name);
    forall host | host in r.remote ensures r.remote[host] == ServersOf(ps + [p], host) {
      PartsPush(ps, p, fallback, host);
    }
    forall x | x in ps + [p] && x.FromRemote? && x.host.name !in r.remote ensures x.offer.servers == [] {
      if x in ps {
        assert x.host.name !in f.remote;
      }
    }
  }

  /** An alias, folded in. */
  method CountAlias(f: Fold, h: Host, a: Alias, fallback: int, ghost ps: seq<Part>) returns (r: Fold)
    requires Folded(f, ps, fallback)
    ensures Folded(r, ps + [FromAlias(h, a)], fallback)
  {
    hide Folded, NamesIn, LocalsIn, UnknownsIn, AnyUnknown, BestIn, ServersOf, Least;
    r := f.(names := f.names + {a.name}, local := f.local + {h.name});
    ghost var p := FromAlias(h, a);
    AliasFolded(f, h, a, fallback, ps);
    assert f.unknown + [] == f.unknown;
    if fallback <= 0 {
      assert PartUnknowns(p, fallback) == [] && Least(f.best, None) == f.best by { LeastNothing(f.best); }
      return;
    }
    var bound := AliasBound(a, h, fallback);
    if bound.None? {
      r := r.(windowUnknown := true, unknown := r.unknown + [h.name + "/" + a.name]);
      LeastNothing(f.best);
      return;
    }
    var best := Count(r.best, bound.value.context, bound.value.source);
    r := r.(best := best);
  }

  lemma AliasFolded(f: Fold, h: Host, a: Alias, fallback: int, ps: seq<Part>)
    requires Folded(f, ps, fallback)
    ensures var p := FromAlias(h, a);
            Folded(f.(names := f.names + {a.name}, local := f.local + {h.name}, unknown := f.unknown + PartUnknowns(p, fallback),
                      windowUnknown := f.windowUnknown || PartUnknown(p, fallback), best := Least(f.best, PartBound(p, fallback))),
                   ps + [p], fallback)
  {
    hide NamesIn, LocalsIn, PartUnknown, PartBound, PartUnknowns, UnknownsIn, AnyUnknown, BestIn, ServersOf, AddNew, Least;
    var p := FromAlias(h, a);
    forall host ensures ServersOf(ps + [p], host) == ServersOf(ps, host) {
      PartsPush(ps, p, fallback, host);
    }
    PartsPush(ps, p, fallback, h.name);
  }

  // ---- The folds of every family ----

  /** The map of folds is what the parts amount to, family by family. */
  ghost predicate FoldsHold(folds: map<string, Fold>, parts: seq<(string, Part)>, fallback: int) {
    && folds.Keys == FamiliesIn(parts)
    && forall fam :: fam in folds ==> Folded(folds[fam], Into(parts, fam), fallback)
  }

  lemma NothingFolded(fallback: int)
    ensures Folded(EMPTY, [], fallback)
  {
  }

  /** A part changes its own family's fold and no other. */
  lemma FoldsNext(folds: map<string, Fold>, parts: seq<(string, Part)>, fam: string, p: Part, r: Fold, fallback: int)
    requires FoldsHold(folds, parts, fallback) && Folded(r, Into(parts, fam) + [p], fallback)
    ensures FoldsHold(folds[fam := r], parts + [(fam, p)], fallback)
  {
    hide Folded;
    var all := parts + [(fam, p)];
    assert forall x :: x in all <==> x in parts || x == (fam, p);
    assert FamiliesIn(all) == FamiliesIn(parts) + {fam} by {
      assert (fam, p).0 == fam && (fam, p) in all;
    }
    forall f ensures Into(all, f) == if f == fam then Into(parts, fam) + [p] else Into(parts, f) {
      assert all[..|parts|] == parts;
      assert Into(parts, f) + [] == Into(parts, f);
    }
  }

  /** A family nothing was counted into has an empty fold. */
  method FoldFor(folds: map<string, Fold>, fam: string, ghost parts: seq<(string, Part)>, ghost fallback: int) returns (f: Fold)
    requires FoldsHold(folds, parts, fallback)
    ensures Folded(f, Into(parts, fam), fallback)
  {
    hide Folded;
    if fam in folds {
      return folds[fam];
    }
    NothingInto(parts, fam);
    NothingFolded(fallback);
    f := EMPTY;
  }

  lemma FewerFamilies(parts: seq<(string, Part)>, fam: string)
    requires |parts| > 0
    ensures fam in FamiliesIn(parts[..|parts| - 1]) ==> fam in FamiliesIn(parts)
  {
    var front := parts[..|parts| - 1];
    if fam in FamiliesIn(front) {
      var x :| x in front && x.0 == fam;
      assert x in parts;
    }
  }

  lemma {:induction false} NothingInto(parts: seq<(string, Part)>, fam: string)
    requires fam !in FamiliesIn(parts)
    ensures Into(parts, fam) == []
  {
    if |parts| > 0 {
      var n := |parts| - 1;
      assert parts[n] in parts && parts[n].0 in FamiliesIn(parts);
      assert forall x :: x in parts[..n] ==> x in parts;
      FewerFamilies(parts, fam);
      NothingInto(parts[..n], fam);
    }
  }

  /** A remote's offers, folded in one by one. */
  method FoldReply(folds: map<string, Fold>, h: Host, offers: seq<RemoteOffer>, fallback: int, ghost parts: seq<(string, Part)>)
    returns (r: map<string, Fold>)
    requires FoldsHold(folds, parts, fallback)
    ensures FoldsHold(r, parts + Offerings(h, offers), fallback)
  {
    hide FoldsHold;
    r := folds;
    assert parts + Offerings(h, []) == parts;
    for i := 0 to |offers|
      invariant FoldsHold(r, parts + Offerings(h, offers[..i]), fallback)
    {
      ghost var before := parts + Offerings(h, offers[..i]);
      var f := FoldFor(r, offers[i].family, before, fallback);
      f := CountOffer(f, h, offers[i], fallback, Into(before, offers[i].family));
      FoldsNext(r, before, offers[i].family, FromRemote(h, offers[i]), f, fallback);
      r := r[offers[i].family := f];
      assert Offerings(h, offers[..i + 1]) == Offerings(h, offers[..i]) + [(offers[i].family, FromRemote(h, offers[i]))];
      assert before + [(offers[i].family, FromRemote(h, offers[i]))] == parts + Offerings(h, offers[..i + 1]);
    }
    assert offers[..|offers|] == offers;
  }

  /** The remotes that answered, whatever they answered. */
  function Responded(q: Query, placement: Placement, hosts: seq<Host>): set<string> {
    if |hosts| == 0 then {}
    else
      var h := hosts[|hosts| - 1];
      Responded(q, placement, hosts[..|hosts| - 1])
      + if h.remote && h.Servable() && Admits(placement, h) && q.replies(h.name) != Older then {h.name} else {}
  }

  lemma {:induction false} RespondedMember(q: Query, placement: Placement, hosts: seq<Host>, name: string)
    ensures name in Responded(q, placement, hosts) <==>
            exists g :: g in hosts && g.name == name && g.remote && g.Servable() && Admits(placement, g) && q.replies(g.name) != Older
  {
    if |hosts| > 0 {
      var n := |hosts| - 1;
      RespondedMember(q, placement, hosts[..n], name);
      assert hosts == hosts[..n] + [hosts[n]];
    }
  }

  /** The remotes, asked in host order; those that answered at all count none of their listed aliases. */
  method FoldRemotes(q: Query, placement: Placement, fallback: int) returns (folds: map<string, Fold>, answered: set<string>)
    ensures FoldsHold(folds, Flat(q.hosts, q.FromReply(placement)), fallback)
    ensures answered == Responded(q, placement, q.hosts)
  {
    hide FoldsHold;
    folds, answered := map[], {};
    NoFolds(fallback);
    for i := 0 to |q.hosts|
      invariant FoldsHold(folds, Flat(q.hosts[..i], q.FromReply(placement)), fallback)
      invariant answered == Responded(q, placement, q.hosts[..i])
    {
      var h := q.hosts[i];
      ghost var before := Flat(q.hosts[..i], q.FromReply(placement));
      FlatStep(q.hosts, q.FromReply(placement), i);
      assert q.hosts[..i + 1][..i] == q.hosts[..i];
      assert before + [] == before;
      if h.remote && h.Servable() && Admits(placement, h) {
        var reply := q.replies(h.name);
        if reply != Older {
          answered := answered + {h.name};
          if reply.Offered? {
            folds := FoldReply(folds, h, reply.offers, fallback, before);
          }
        }
      }
    }
    assert q.hosts[..|q.hosts|] == q.hosts;
  }

  lemma NoFolds(fallback: int)
    ensures FoldsHold(map[], [], fallback)
  {
  }

  /** The survey's aliases, family by family. */
  method FoldAliases(q: Query, placement: Placement, fallback: int, remotes: map<string, Fold>, answered: set<string>) returns (folds: map<string, Fold>)
    requires DistinctNames(q.hosts)
    requires FoldsHold(remotes, Flat(q.hosts, q.FromReply(placement)), fallback)
    requires answered == Responded(q, placement, q.hosts)
    ensures FoldsHold(folds, q.Parts(placement), fallback)
  {
    hide FoldsHold, Query.FromFamily, Query.FromReply, Responded, DistinctNames;
    folds := remotes;
    ghost var replied := Flat(q.hosts, q.FromReply(placement));
    assert replied + [] == replied;
    for i := 0 to |q.s.families|
      invariant FoldsHold(folds, replied + Flat(q.s.families[..i], q.FromFamily(placement)), fallback)
    {
      var f := q.s.families[i];
      ghost var before := replied + Flat(q.s.families[..i], q.FromFamily(placement));
      FlatStep(q.s.families, q.FromFamily(placement), i);
      folds := FoldNames(q, placement, fallback, folds, answered, f, before);
      assert before + q.FromFamily(placement)(f) == replied + Flat(q.s.families[..i + 1], q.FromFamily(placement));
    }
    assert q.s.families[..|q.s.families|] == q.s.families;
  }

  method FoldNames(q: Query, placement: Placement, fallback: int, start: map<string, Fold>, answered: set<string>, f: Family, ghost parts: seq<(string, Part)>)
    returns (folds: map<string, Fold>)
    requires DistinctNames(q.hosts) && FoldsHold(start, parts, fallback)
    requires answered == Responded(q, placement, q.hosts)
    ensures FoldsHold(folds, parts + q.FromFamily(placement)(f), fallback)
  {
    hide FoldsHold, Responded, DistinctNames, Query.FromName;
    folds := start;
    assert parts + [] == parts;
    for i := 0 to |f.names|
      invariant FoldsHold(folds, parts + Flat(f.names[..i], q.FromName(placement, f.family)), fallback)
    {
      ghost var before := parts + Flat(f.names[..i], q.FromName(placement, f.family));
      FlatStep(f.names, q.FromName(placement, f.family), i);
      folds := FoldAlias(q, placement, fallback, folds, answered, f.family, f.names[i], before);
      assert before + q.FromName(placement, f.family)(f.names[i]) == parts + Flat(f.names[..i + 1], q.FromName(placement, f.family));
    }
    assert f.names[..|f.names|] == f.names;
  }

  method FoldAlias(q: Query, placement: Placement, fallback: int, start: map<string, Fold>, answered: set<string>, fam: string, a: Alias,
                   ghost parts: seq<(string, Part)>)
    returns (folds: map<string, Fold>)
    requires DistinctNames(q.hosts) && FoldsHold(start, parts, fallback)
    requires answered == Responded(q, placement, q.hosts)
    ensures FoldsHold(folds, parts + q.FromName(placement, fam)(a), fallback)
  {
    hide FoldsHold, Serves, Responded, DistinctNames;
    folds := start;
    assert parts + [] == parts;
    var named := q.HostNamed(a.host);
    if named.Some? {
      var h := named.value;
      AnsweredByName(q, placement, h);
      if a.servable && h.Servable() && h.name !in answered && Admits(placement, h) && Serves(q.s, h, a.name, q.profile) {
        var fold := FoldFor(folds, fam, parts, fallback);
        fold := CountAlias(fold, h, a, fallback, Into(parts, fam));
        FoldsNext(folds, parts, fam, FromAlias(h, a), fold, fallback);
        folds := folds[fam := fold];
      }
    }
  }

  /** Among hosts told apart by their names, the names that answered are the hosts that did. */
  lemma AnsweredByName(q: Query, placement: Placement, h: Host)
    requires DistinctNames(q.hosts) && h in q.hosts
    ensures h.Servable() && Admits(placement, h) ==> (h.name in Responded(q, placement, q.hosts) <==> q.Answered(h))
  {
    RespondedMember(q, placement, q.hosts, h.name);
    forall g | g in q.hosts && g.name == h.name ensures g == h {
      SameHost(q.hosts, g, h);
    }
  }

  // ---- The offers ----

  method ListServers(hosts: seq<Host>, f: Fold, fallback: int, ghost ps: seq<Part>) returns (servers: seq<string>)
    requires Folded(f, ps, fallback)
    ensures servers == Flat(hosts, ServersAt(ps))
  {
    hide NamesIn, LocalsIn, UnknownsIn, AnyUnknown, BestIn, ServersOf;
    servers := [];
    for i := 0 to |hosts|
      invariant servers == Flat(hosts[..i], ServersAt(ps))
    {
      var h := hosts[i];
      FlatStep(hosts, ServersAt(ps), i);
      FoldedServers(f, ps, fallback, h.name);
      ghost var before := servers;
      if h.name in f.local {
        servers := servers + [h.name];
      }
      var listed := if h.name in f.remote then f.remote[h.name] else [];
      servers := AddUnknown(servers, h.name, listed);
      assert before + ((if h.name in f.local then [h.name] else []) + Prefixed(h.name, listed)) == servers;
    }
    assert hosts[..|hosts|] == hosts;
  }

  method MakeOffer(hosts: seq<Host>, fam: string, f: Fold, fallback: int, reserve: int, ghost ps: seq<Part>) returns (o: Offer)
    requires Folded(f, ps, fallback)
    ensures o == OfferOf(fam, ps, hosts, fallback, reserve)
  {
    hide NamesIn, LocalsIn, UnknownsIn, AnyUnknown, BestIn, ServersOf, ServersAt, Before, Ranked;
    var names := SortSet(f.names);
    var servers := ListServers(hosts, f, fallback, ps);
    if fallback <= 0 || (!f.windowUnknown && f.best.None?) {
      return Offer(fam, names, servers, 0, NoContext, 0, []);
    }
    if f.windowUnknown {
      return Offer(fam, names, servers, 0, Unknown, 0, Sort(f.unknown, Before));
    }
    var left := Wrap64(f.best.value.context - reserve);
    o := Offer(fam, names, servers, f.best.value.context, f.best.value.source, if left > 0 then left else 0, []);
  }

  predicate OfferBefore(a: Offer, b: Offer) {
    Before(a.family, b.family)
  }

  lemma OfferOrder()
    ensures StrictWeak(OfferBefore)
  {
    hide Before;
    BeforeStrictTotal();
  }

  lemma {:induction false} MadeAt(fams: seq<string>, parts: seq<(string, Part)>, hosts: seq<Host>, n: int, reserve: int)
    ensures var made := Flat(fams, OfferMaker(parts, hosts, n, reserve));
            |made| == |fams| && forall i :: 0 <= i < |fams| ==> made[i] == OfferOf(fams[i], Into(parts, fams[i]), hosts, n, reserve) && made[i].family == fams[i]
  {
    hide OfferOf, Into;
    if |fams| > 0 {
      var k := |fams| - 1;
      MadeAt(fams[..k], parts, hosts, n, reserve);
      OfferFamily(fams[k], Into(parts, fams[k]), hosts, n, reserve);
    }
  }

  /** Offers made in any order of their families and then sorted are the one answer. */
  lemma SortedOffers(fams: seq<string>, made: seq<Offer>, parts: seq<(string, Part)>, hosts: seq<Host>, n: int, reserve: int)
    requires multiset(fams) == multiset(FamiliesIn(parts)) && made == Flat(fams, OfferMaker(parts, hosts, n, reserve))
    ensures Sort(made, OfferBefore) == Flat(Ranked(FamiliesIn(parts), Before), OfferMaker(parts, hosts, n, reserve))
  {
    hide OfferOf, Into, Before, FamiliesIn, Ranked, OfferMaker;
    var ranked := Ranked(FamiliesIn(parts), Before);
    var answer := Flat(ranked, OfferMaker(parts, hosts, n, reserve));
    BeforeStrictTotal();
    RankedMembers(FamiliesIn(parts), Before);
    RankedMultiset(FamiliesIn(parts));
    MadeAt(ranked, parts, hosts, n, reserve);
    MadeAt(fams, parts, hosts, n, reserve);
    FlatOrderFree(fams, ranked, OfferMaker(parts, hosts, n, reserve));
    OfferOrder();
    SortSorted(made, OfferBefore);
    OffersApart(answer, ranked);
    SortedUnique(answer, Sort(made, OfferBefore), OfferBefore);
  }

  lemma OffersApart(answer: seq<Offer>, fams: seq<string>)
    requires |answer| == |fams| && forall i :: 0 <= i < |fams| ==> answer[i].family == fams[i]
    requires Sorted(fams, Before) && forall i, j :: 0 <= i < j < |fams| ==> fams[i] != fams[j]
    ensures Sorted(answer, OfferBefore) && Apart(answer, OfferBefore)
  {
    hide Before;
    BeforeStrictTotal();
    forall a, b | a in answer && b in answer && a != b ensures OfferBefore(a, b) || OfferBefore(b, a) {
      var i :| 0 <= i < |answer| && answer[i] == a;
      var j :| 0 <= j < |answer| && answer[j] == b;
    }
  }

  lemma RankedMultiset(s: set<string>)
    ensures multiset(Ranked(s, Before)) == multiset(s)
  {
  }

  /** OfferContext, its map of folds read in whatever order it comes. */
  method Collect(q: Query, placement: Placement, reserve: int) returns (offers: seq<Offer>)
    requires DistinctNames(q.hosts)
    ensures offers == OffersFor(q, placement, reserve)
  {
    hide Query.Parts, FamiliesIn, Folded, OfferOf, Before, Ranked, Into, Query.FromReply, Responded, DistinctNames;
    var fallback := DefaultContext(q.profile);
    var folds, answered := FoldRemotes(q, placement, fallback);
    folds := FoldAliases(q, placement, fallback, folds, answered);
    ghost var parts := q.Parts(placement);
    var fams := Gather(folds.Keys);
    SameInside(fams, folds.Keys);
    offers := [];
    for i := 0 to |fams|
      invariant offers == Flat(fams[..i], OfferMaker(parts, q.hosts, fallback, reserve))
    {
      FlatStep(fams, OfferMaker(parts, q.hosts, fallback, reserve), i);
      var o := MakeOffer(q.hosts, fams[i], folds[fams[i]], fallback, reserve, Into(parts, fams[i]));
      offers := offers + [o];
    }
    assert fams[..|fams|] == fams;
    SortedOffers(fams, offers, parts, q.hosts, fallback, reserve);
    offers := Sort(offers, OfferBefore);
  }
}
