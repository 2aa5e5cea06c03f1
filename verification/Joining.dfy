/** An offer for any placement is the join of the local and the hosted one, and no order of aliases changes it. */
module Joining {
  import opened Basics
  import opened Order
  import opened Provenance
  import Identity
  import opened Hosts
  import opened Catalogue
  import opened Snapshots
  import opened Routing
  import opened Decisions
  import opened Offers

  // ---- The two sides of the parts ----

  function Keep(parts: seq<(string, Part)>, hosted: bool): seq<(string, Part)> {
    if |parts| == 0 then []
    else Keep(parts[..|parts| - 1], hosted) + if parts[|parts| - 1].1.host.hosted == hosted then [parts[|parts| - 1]] else []
  }

  function KeepParts(ps: seq<Part>, hosted: bool): seq<Part> {
    if |ps| == 0 then []
    else KeepParts(ps[..|ps| - 1], hosted) + if ps[|ps| - 1].host.hosted == hosted then [ps[|ps| - 1]] else []
  }

  lemma {:induction false} KeepJoin(a: seq<(string, Part)>, b: seq<(string, Part)>, hosted: bool)
    ensures Keep(a + b, hosted) == Keep(a, hosted) + Keep(b, hosted)
  {
    if |b| == 0 {
      assert a + b == a;
    } else {
      assert (a + b)[..|a + b| - 1] == a + b[..|b| - 1];
      KeepJoin(a, b[..|b| - 1], hosted);
    }
  }

  lemma {:induction false} KeepFlat<S(!new)>(xs: seq<S>, f: S -> seq<(string, Part)>, g: S -> seq<(string, Part)>, hosted: bool)
    requires forall x :: Keep(f(x), hosted) == g(x)
    ensures Keep(Flat(xs, f), hosted) == Flat(xs, g)
  {
    if |xs| > 0 {
      KeepFlat(xs[..|xs| - 1], f, g, hosted);
      KeepJoin(Flat(xs[..|xs| - 1], f), f(xs[|xs| - 1]), hosted);
    }
  }

  lemma {:induction false} KeepOfHost(parts: seq<(string, Part)>, h: Host, hosted: bool)
    requires forall i :: 0 <= i < |parts| ==> parts[i].1.host == h
    ensures Keep(parts, hosted) == if h.hosted == hosted then parts else []
  {
    if |parts| > 0 {
      KeepOfHost(parts[..|parts| - 1], h, hosted);
      assert parts == parts[..|parts| - 1] + [parts[|parts| - 1]];
    }
  }

  function SideOf(hosted: bool): Placement {
    if hosted then OnHosted else OnLocal
  }

  lemma RepliesOfHost(q: Query, placement: Placement, h: Host)
    ensures forall i :: 0 <= i < |q.FromReply(placement)(h)| ==> q.FromReply(placement)(h)[i].1.host == h
  {
    var parts := q.FromReply(placement)(h);
    if h.remote && h.Servable() && Admits(placement, h) && q.replies(h.name).Offered? {
      assert parts == Offerings(h, q.replies(h.name).offers);
    } else {
      assert parts == [];
    }
  }

  lemma ReplyOfSide(q: Query, h: Host, hosted: bool)
    ensures Keep(q.FromReply(OnAny)(h), hosted) == q.FromReply(SideOf(hosted))(h)
  {
    RepliesOfHost(q, OnAny, h);
    KeepOfHost(q.FromReply(OnAny)(h), h, hosted);
    assert q.FromReply(SideOf(hosted))(h) == if h.hosted == hosted then q.FromReply(OnAny)(h) else [];
  }

  /** A placement counts exactly the parts of its own side that any counts. */
  lemma PartsOfSide(q: Query, hosted: bool)
    ensures q.Parts(SideOf(hosted)) == Keep(q.Parts(OnAny), hosted)
  {
    hide Serves;
    var side := SideOf(hosted);
    forall h: Host ensures Keep(q.FromReply(OnAny)(h), hosted) == q.FromReply(side)(h) {
      ReplyOfSide(q, h, hosted);
    }
    KeepFlat(q.hosts, q.FromReply(OnAny), q.FromReply(side), hosted);
    forall f: Family ensures Keep(q.FromFamily(OnAny)(f), hosted) == q.FromFamily(side)(f) {
      forall a: Alias ensures Keep(q.FromName(OnAny, f.family)(a), hosted) == q.FromName(side, f.family)(a) {
        var named := q.HostNamed(a.host);
        if named.Some? {
          KeepOfHost(q.FromName(OnAny, f.family)(a), named.value, hosted);
        }
      }
      KeepFlat(f.names, q.FromName(OnAny, f.family), q.FromName(side, f.family), hosted);
    }
    KeepFlat(q.s.families, q.FromFamily(OnAny), q.FromFamily(side), hosted);
    KeepJoin(Flat(q.hosts, q.FromReply(OnAny)), Flat(q.s.families, q.FromFamily(OnAny)), hosted);
  }

  lemma {:induction false} IntoKept(parts: seq<(string, Part)>, fam: string, hosted: bool)
    ensures Into(Keep(parts, hosted), fam) == KeepParts(Into(parts, fam), hosted)
  {
    if |parts| > 0 {
      var n := |parts| - 1;
      IntoKept(parts[..n], fam, hosted);
      var last := if parts[n].1.host.hosted == hosted then [parts[n]] else [];
      Identity.UnderJoin(Keep(parts[..n], hosted), last, fam);
      assert last[..0] == [];
      if parts[n].0 == fam {
        assert Into(parts, fam)[..|Into(parts, fam)| - 1] == Into(parts[..n], fam);
      } else {
        assert Into(parts[..n], fam) + [] == Into(parts[..n], fam);
      }
    }
  }

  lemma {:induction false} KeptMember(ps: seq<Part>, hosted: bool, p: Part)
    ensures p in KeepParts(ps, hosted) <==> p in ps && p.host.hosted == hosted
  {
    if |ps| > 0 {
      var n := |ps| - 1;
      KeptMember(ps[..n], hosted, p);
      assert ps == ps[..n] + [ps[n]];
    }
  }

  // ---- Bounds ----

  /** The sources an alias or a remote can give a bound. */
  predicate Counted(b: Option<Bound>) {
    b.Some? ==> b.value.source == Effective || b.value.source == Maximum || b.value.source == Default
  }

  lemma LeastLaws(a: Option<Bound>, b: Option<Bound>, c: Option<Bound>)
    requires Counted(a) && Counted(b) && Counted(c)
    ensures Counted(Least(a, b)) && Least(a, b) == Least(b, a) && Least(Least(a, b), c) == Least(a, Least(b, c))
  {
  }

  lemma {:induction false} BestCounted(ps: seq<Part>, fallback: int)
    ensures Counted(BestIn(ps, fallback))
  {
    if |ps| > 0 {
      BestCounted(ps[..|ps| - 1], fallback);
    }
  }

  /** The best bound of some parts is the better of the two sides' best. */
  lemma {:induction false} BestOfSides(ps: seq<Part>, fallback: int)
    ensures BestIn(ps, fallback) == Least(BestIn(KeepParts(ps, false), fallback), BestIn(KeepParts(ps, true), fallback))
  {
    hide PartBound, Least;
    if |ps| == 0 {
      assert Least(None, None) == None by { LeastNothing(None); }
    } else {
      var n := |ps| - 1;
      BestOfSides(ps[..n], fallback);
      var a, b, c := BestIn(KeepParts(ps[..n], false), fallback), BestIn(KeepParts(ps[..n], true), fallback), PartBound(ps[n], fallback);
      BestCounted(KeepParts(ps[..n], false), fallback);
      BestCounted(KeepParts(ps[..n], true), fallback);
      PartCounted(ps[n], fallback);
      LeastLaws(a, b, c);
      LeastLaws(a, c, b);
      BestPush(KeepParts(ps[..n], ps[n].host.hosted), ps[n], fallback);
      assert KeepParts(ps[..n], !ps[n].host.hosted) + [] == KeepParts(ps[..n], !ps[n].host.hosted);
      LeastLaws(b, c, a);
    }
  }

  lemma LeastNothing(b: Option<Bound>)
    ensures Least(b, None) == b && Least(None, b) == b
  {
  }

  lemma PartCounted(p: Part, fallback: int)
    ensures Counted(PartBound(p, fallback))
  {
  }

  lemma BestPush(ps: seq<Part>, p: Part, fallback: int)
    ensures BestIn(ps + [p], fallback) == Least(BestIn(ps, fallback), PartBound(p, fallback))
  {
    assert (ps + [p])[..|ps|] == ps;
  }

  // ---- Names, servers and unknown aliases ----

  lemma NamesOfSides(ps: seq<Part>)
    ensures NamesIn(ps) == NamesIn(KeepParts(ps, false)) + NamesIn(KeepParts(ps, true))
    ensures LocalsIn(ps) == LocalsIn(KeepParts(ps, false)) + LocalsIn(KeepParts(ps, true))
  {
    hide PartNames;
    forall p: Part, hosted: bool ensures p in KeepParts(ps, hosted) <==> p in ps && p.host.hosted == hosted {
      KeptMember(ps, hosted, p);
    }
  }

  lemma UnknownOfSides(ps: seq<Part>, fallback: int)
    ensures AnyUnknown(ps, fallback) <==> AnyUnknown(KeepParts(ps, false), fallback) || AnyUnknown(KeepParts(ps, true), fallback)
  {
    hide PartUnknown;
    forall p: Part, hosted: bool ensures p in KeepParts(ps, hosted) <==> p in ps && p.host.hosted == hosted {
      KeptMember(ps, hosted, p);
    }
  }

  lemma {:induction false} UnknownsOfSides(ps: seq<Part>, fallback: int)
    ensures multiset(UnknownsIn(ps, fallback)) ==
            multiset(UnknownsIn(KeepParts(ps, false), fallback)) + multiset(UnknownsIn(KeepParts(ps, true), fallback))
  {
    hide PartUnknowns, UnknownsIn;
    if |ps| == 0 {
      NoUnknowns(fallback);
    } else {
      var n := |ps| - 1;
      UnknownsOfSides(ps[..n], fallback);
      assert ps == ps[..n] + [ps[n]];
      UnknownsPush(ps[..n], ps[n], fallback);
      UnknownsPush(KeepParts(ps[..n], ps[n].host.hosted), ps[n], fallback);
      assert KeepParts(ps[..n], !ps[n].host.hosted) + [] == KeepParts(ps[..n], !ps[n].host.hosted);
    }
  }

  lemma UnknownsPush(ps: seq<Part>, p: Part, fallback: int)
    ensures UnknownsIn(ps + [p], fallback) == UnknownsIn(ps, fallback) + PartUnknowns(p, fallback)
  {
    assert (ps + [p])[..|ps|] == ps;
  }

  lemma NoUnknowns(fallback: int)
    ensures UnknownsIn([], fallback) == []
  {
  }

  lemma ServersPush(ps: seq<Part>, p: Part, host: string)
    ensures ServersOf(ps + [p], host) ==
            if p.FromRemote? && p.host.name == host then AddNew(ServersOf(ps, host), p.offer.servers) else ServersOf(ps, host)
  {
    hide AddNew;
    assert (ps + [p])[..|ps|] == ps;
  }

  lemma KeepPush(ps: seq<Part>, p: Part, hosted: bool)
    ensures KeepParts(ps + [p], hosted) == if p.host.hosted == hosted then KeepParts(ps, hosted) + [p] else KeepParts(ps, hosted)
  {
    assert (ps + [p])[..|ps|] == ps;
    assert KeepParts(ps, hosted) + [] == KeepParts(ps, hosted);
  }

  /** A host's servers come from its own side. */
  lemma {:induction false} ServersOfSide(ps: seq<Part>, h: Host)
    requires forall p :: p in ps && p.host.name == h.name ==> p.host == h
    ensures ServersOf(KeepParts(ps, h.hosted), h.name) == ServersOf(ps, h.name)
    ensures ServersOf(KeepParts(ps, !h.hosted), h.name) == []
  {
    if |ps| > 0 {
      hide AddNew, ServersOf, KeepParts;
      var n := |ps| - 1;
      var front, p := ps[..n], ps[n];
      assert ps == front + [p];
      assert p in ps && forall q :: q in front ==> q in ps;
      ServersOfSide(front, h);
      ServersPush(front, p, h.name);
      KeepPush(front, p, false);
      KeepPush(front, p, true);
      ServersPush(KeepParts(front, p.host.hosted), p, h.name);
    }
  }

  lemma LocalOfSide(ps: seq<Part>, h: Host)
    requires forall p :: p in ps && p.host.name == h.name ==> p.host == h
    ensures h.name in LocalsIn(KeepParts(ps, h.hosted)) <==> h.name in LocalsIn(ps)
    ensures h.name !in LocalsIn(KeepParts(ps, !h.hosted))
  {
    forall p: Part, hosted: bool ensures p in KeepParts(ps, hosted) <==> p in ps && p.host.hosted == hosted {
      KeptMember(ps, hosted, p);
    }
  }

  /** What a host adds to an offer's servers, its own side adds, and the other side nothing. */
  lemma ServersAtSide(ps: seq<Part>, h: Host)
    requires forall p :: p in ps && p.host.name == h.name ==> p.host == h
    ensures ServersAt(KeepParts(ps, h.hosted))(h) == ServersAt(ps)(h)
    ensures ServersAt(KeepParts(ps, !h.hosted))(h) == []
  {
    hide LocalsIn, ServersOf;
    ServersOfSide(ps, h);
    LocalOfSide(ps, h);
    assert Prefixed(h.name, []) == [];
  }

  lemma {:induction false} FlatSum<S, T>(xs: seq<S>, f: S -> seq<T>, g: S -> seq<T>, k: S -> seq<T>)
    requires forall i :: 0 <= i < |xs| ==> multiset(k(xs[i])) == multiset(f(xs[i])) + multiset(g(xs[i]))
    ensures multiset(Flat(xs, k)) == multiset(Flat(xs, f)) + multiset(Flat(xs, g))
  {
    if |xs| > 0 {
      var n := |xs| - 1;
      forall i | 0 <= i < n ensures multiset(k(xs[..n][i])) == multiset(f(xs[..n][i])) + multiset(g(xs[..n][i])) {
        assert xs[..n][i] == xs[i];
      }
      FlatSum(xs[..n], f, g, k);
    }
  }

  // ---- The join ----

  /** The context two offers of one family leave together, neither of them unknown. */
  function JoinedContext(a: Offer, b: Offer): (int, Source, int) {
    if b.source == NoContext then (a.context, a.source, a.input)
    else if a.source == NoContext then (b.context, b.source, b.input)
    else if Better(Bound(b.context, b.source), Bound(a.context, a.source)) then (b.context, b.source, b.input)
    else (a.context, a.source, a.input)
  }

  /** Each part's host is one of the hosts, told from the others by its name. */
  predicate FromHosts(ps: seq<Part>, hosts: seq<Host>) {
    forall p :: p in ps ==> p.host in hosts
  }

  /** Parts that are all known, and a remote's offer among them that lists unknown aliases all the same. */
  ghost predicate Hides(ps: seq<Part>, fallback: int) {
    !AnyUnknown(ps, fallback) && exists p :: p in ps && p.FromRemote? && p.offer.unknown != []
  }

  lemma {:induction false} UnknownsListed(ps: seq<Part>, fallback: int)
    ensures UnknownsIn(ps, fallback) == [] <==> forall p :: p in ps ==> PartUnknowns(p, fallback) == []
  {
    hide PartUnknowns;
    if |ps| > 0 {
      var n := |ps| - 1;
      UnknownsListed(ps[..n], fallback);
      assert ps == ps[..n] + [ps[n]];
      assert ps[n] in ps && forall p :: p in ps <==> p in ps[..n] || p == ps[n];
    }
  }

  lemma HidesExact(ps: seq<Part>, fallback: int)
    ensures Hides(ps, fallback) <==> !AnyUnknown(ps, fallback) && UnknownsIn(ps, fallback) != []
  {
    hide UnknownsIn;
    UnknownsListed(ps, fallback);
  }

  lemma WindowUnknown(ps: seq<Part>, fallback: int, reserve: int)
    ensures WindowIn(ps, fallback, reserve).source == Unknown <==> fallback > 0 && AnyUnknown(ps, fallback)
  {
    hide AnyUnknown, UnknownsIn, Sort, Before;
    BestCounted(ps, fallback);
  }

  /**
   o is the join of the offers of the two sides: names united, servers merged
   host by host, an unknown context on either side absorbing the other, and
   otherwise the smaller context with the better source. The lists of unknown
   aliases are merged exactly when neither side hides some.
   */
  ghost predicate JoinOf(o: Offer, oa: Offer, ob: Offer, ps: seq<Part>, hosts: seq<Host>, fallback: int) {
    var a, b := KeepParts(ps, false), KeepParts(ps, true);
    && (forall name :: name in o.names <==> name in oa.names || name in ob.names) && Sorted(o.names, Before)
    && multiset(o.servers) == multiset(oa.servers) + multiset(ob.servers)
    && o.servers == Flat(hosts, ServersAt(ps))
    && (forall h :: h in hosts ==> ServersAt(ps)(h) == if h.hosted then ServersAt(b)(h) else ServersAt(a)(h))
    && (o.source == Unknown <==> oa.source == Unknown || ob.source == Unknown)
    && (o.source == Unknown ==>
          (o.unknown == Sort(oa.unknown + ob.unknown, Before) <==> !Hides(a, fallback) && !Hides(b, fallback)))
    && (o.source != Unknown ==> (o.context, o.source, o.input) == JoinedContext(oa, ob) && o.unknown == [])
  }

  lemma OfferIsJoin(fam: string, ps: seq<Part>, hosts: seq<Host>, fallback: int, reserve: int)
    requires DistinctNames(hosts) && FromHosts(ps, hosts)
    ensures JoinOf(OfferOf(fam, ps, hosts, fallback, reserve), OfferOf(fam, KeepParts(ps, false), hosts, fallback, reserve),
                   OfferOf(fam, KeepParts(ps, true), hosts, fallback, reserve), ps, hosts, fallback)
  {
    hide OfferOf, ServersAt, UnknownsIn, NamesIn, Sort, Ranked, Sorted, KeepParts, AnyUnknown, BestIn, WindowIn, WindowOf, Hides, Before;
    var a, b := KeepParts(ps, false), KeepParts(ps, true);
    OfferFields(fam, ps, hosts, fallback, reserve);
    OfferFields(fam, a, hosts, fallback, reserve);
    OfferFields(fam, b, hosts, fallback, reserve);
    JoinNames(ps);
    JoinServers(ps, hosts);
    JoinWindows(ps, fallback, reserve);
    WindowUnknown(ps, fallback, reserve);
    WindowUnknown(a, fallback, reserve);
    WindowUnknown(b, fallback, reserve);
    HidesExact(a, fallback);
    HidesExact(b, fallback);
  }

  lemma OfferFields(fam: string, ps: seq<Part>, hosts: seq<Host>, fallback: int, reserve: int)
    ensures var o := OfferOf(fam, ps, hosts, fallback, reserve);
            && o.names == Ranked(NamesIn(ps), Before) && o.servers == Flat(hosts, ServersAt(ps))
            && Window(o.context, o.source, o.input, o.unknown) == WindowIn(ps, fallback, reserve)
  {
  }

  function WindowIn(ps: seq<Part>, fallback: int, reserve: int): Window {
    WindowOf(AnyUnknown(ps, fallback), BestIn(ps, fallback), UnknownsIn(ps, fallback), fallback, reserve)
  }

  lemma JoinWindows(ps: seq<Part>, fallback: int, reserve: int)
    ensures var a, b := KeepParts(ps, false), KeepParts(ps, true);
            var w, wa, wb := WindowIn(ps, fallback, reserve), WindowIn(a, fallback, reserve), WindowIn(b, fallback, reserve);
            && (w.source == Unknown <==> wa.source == Unknown || wb.source == Unknown)
            && (w.source == Unknown ==>
                  (w.unknown == Sort(wa.unknown + wb.unknown, Before) <==>
                   (wa.source == Unknown || UnknownsIn(a, fallback) == []) && (wb.source == Unknown || UnknownsIn(b, fallback) == [])))
            && (w.source != Unknown ==>
                  w.unknown == [] && (w.context, w.source, w.input) ==
                  if wb.source == NoContext then (wa.context, wa.source, wa.input)
                  else if wa.source == NoContext then (wb.context, wb.source, wb.input)
                  else if Better(Bound(wb.context, wb.source), Bound(wa.context, wa.source)) then (wb.context, wb.source, wb.input)
                  else (wa.context, wa.source, wa.input))
  {
    hide UnknownsIn, Sort, KeepParts, AnyUnknown, BestIn, WindowOf, Before, Counted, Least;
    var a, b := KeepParts(ps, false), KeepParts(ps, true);
    var ua, ub := UnknownsIn(a, fallback), UnknownsIn(b, fallback);
    JoinUnknowns(ps, fallback);
    UnknownOfSides(ps, fallback);
    BestOfSides(ps, fallback);
    BestCounted(a, fallback);
    BestCounted(b, fallback);
    WindowJoin(AnyUnknown(a, fallback), AnyUnknown(b, fallback), BestIn(a, fallback), BestIn(b, fallback), ua, ub, UnknownsIn(ps, fallback), fallback, reserve);
    SortEmpty(ua);
    SortEmpty(ub);
  }

  lemma SortEmpty(s: seq<string>)
    ensures Sort(s, Before) == [] <==> s == []
  {
  }

  /** How the windows of the two sides make the window of both. */
  lemma WindowJoin(anyA: bool, anyB: bool, bestA: Option<Bound>, bestB: Option<Bound>, ua: seq<string>, ub: seq<string>, u: seq<string>, fallback: int, reserve: int)
    requires Counted(bestA) && Counted(bestB)
    ensures var w, a, b := WindowOf(anyA || anyB, Least(bestA, bestB), u, fallback, reserve), WindowOf(anyA, bestA, ua, fallback, reserve), WindowOf(anyB, bestB, ub, fallback, reserve);
            && (w.source == Unknown <==> a.source == Unknown || b.source == Unknown)
            && (w.source == Unknown ==> w.unknown == Sort(u, Before))
            && (a.unknown == if a.source == Unknown then Sort(ua, Before) else [])
            && (b.unknown == if b.source == Unknown then Sort(ub, Before) else [])
            && (w.source != Unknown ==>
                  w.unknown == [] && (w.context, w.source, w.input) ==
                  if b.source == NoContext then (a.context, a.source, a.input)
                  else if a.source == NoContext then (b.context, b.source, b.input)
                  else if Better(Bound(b.context, b.source), Bound(a.context, a.source)) then (b.context, b.source, b.input)
                  else (a.context, a.source, a.input))
  {
    hide Sort, Wrap64;
  }

  lemma JoinNames(ps: seq<Part>)
    ensures var a, b := KeepParts(ps, false), KeepParts(ps, true);
            && (forall name :: name in Ranked(NamesIn(ps), Before) <==> name in Ranked(NamesIn(a), Before) || name in Ranked(NamesIn(b), Before))
            && Sorted(Ranked(NamesIn(ps), Before), Before)
  {
    hide NamesIn, Before, Ranked;
    var a, b := KeepParts(ps, false), KeepParts(ps, true);
    NamesOfSides(ps);
    BeforeStrictTotal();
    RankedMembers(NamesIn(ps), Before);
    RankedMembers(NamesIn(a), Before);
    RankedMembers(NamesIn(b), Before);
  }

  lemma JoinServers(ps: seq<Part>, hosts: seq<Host>)
    requires DistinctNames(hosts) && FromHosts(ps, hosts)
    ensures var a, b := KeepParts(ps, false), KeepParts(ps, true);
            && multiset(Flat(hosts, ServersAt(ps))) == multiset(Flat(hosts, ServersAt(a))) + multiset(Flat(hosts, ServersAt(b)))
            && forall h :: h in hosts ==> ServersAt(ps)(h) == if h.hosted then ServersAt(b)(h) else ServersAt(a)(h)
  {
    hide ServersAt;
    var a, b := KeepParts(ps, false), KeepParts(ps, true);
    forall h | h in hosts
      ensures ServersAt(ps)(h) == if h.hosted then ServersAt(b)(h) else ServersAt(a)(h)
      ensures multiset(ServersAt(ps)(h)) == multiset(ServersAt(a)(h)) + multiset(ServersAt(b)(h))
    {
      forall p | p in ps && p.host.name == h.name ensures p.host == h {
        SameHost(hosts, p.host, h);
      }
      ServersAtSide(ps, h);
    }
    FlatSum(hosts, ServersAt(a), ServersAt(b), ServersAt(ps));
  }

  /** Two of the sorted lists, each there or left out, are the whole exactly when nothing was left out. */
  lemma SortedJoin(all: seq<string>, a: seq<string>, b: seq<string>, x: seq<string>, y: seq<string>)
    requires multiset(all) == multiset(a) + multiset(b)
    requires (x == [] || x == Sort(a, Before)) && (y == [] || y == Sort(b, Before))
    ensures Sort(all, Before) == Sort(x + y, Before) <==> (x == Sort(a, Before) || a == []) && (y == Sort(b, Before) || b == [])
  {
    hide Before, Sort;
    BeforeStrictTotal();
    assert multiset(x + y) == multiset(x) + multiset(y);
    if (x == Sort(a, Before) || a == []) && (y == Sort(b, Before) || b == []) {
      SortOrderFree(all, x + y, Before);
    } else {
      assert |all| == |multiset(all)| == |multiset(a)| + |multiset(b)| == |a| + |b|;
      assert |x + y| < |all|;
    }
  }

  lemma JoinUnknowns(ps: seq<Part>, fallback: int)
    ensures var a, b := UnknownsIn(KeepParts(ps, false), fallback), UnknownsIn(KeepParts(ps, true), fallback);
            forall x: seq<string>, y: seq<string> ::
              (x == [] || x == Sort(a, Before)) && (y == [] || y == Sort(b, Before)) ==>
              (Sort(UnknownsIn(ps, fallback), Before) == Sort(x + y, Before) <==> (x == Sort(a, Before) || a == []) && (y == Sort(b, Before) || b == []))
  {
    hide UnknownsIn, Before, Sort;
    var a, b, all := UnknownsIn(KeepParts(ps, false), fallback), UnknownsIn(KeepParts(ps, true), fallback), UnknownsIn(ps, fallback);
    UnknownsOfSides(ps, fallback);
    forall x: seq<string>, y: seq<string> | (x == [] || x == Sort(a, Before)) && (y == [] || y == Sort(b, Before))
      ensures Sort(all, Before) == Sort(x + y, Before) <==> (x == Sort(a, Before) || a == []) && (y == Sort(b, Before) || b == [])
    {
      SortedJoin(all, a, b, x, y);
    }
  }

  // ---- The whole answer ----

  lemma OfferListed(q: Query, placement: Placement, reserve: int, o: Offer)
    ensures o in OffersFor(q, placement, reserve) <==>
            var parts := q.Parts(placement);
            o.family in FamiliesIn(parts) && o == OfferOf(o.family, Into(parts, o.family), q.hosts, DefaultContext(q.profile), reserve)
  {
    hide OfferOf, FamiliesIn, Before;
    var parts := q.Parts(placement);
    var fams := Ranked(FamiliesIn(parts), Before);
    var make := OfferMaker(parts, q.hosts, DefaultContext(q.profile), reserve);
    BeforeStrictTotal();
    RankedMembers(FamiliesIn(parts), Before);
    FlatMember(fams, make, o);
    forall fam ensures OfferOf(fam, Into(parts, fam), q.hosts, DefaultContext(q.profile), reserve).family == fam {
      OfferFamily(fam, Into(parts, fam), q.hosts, DefaultContext(q.profile), reserve);
    }
    if o.family in fams {
      var i :| 0 <= i < |fams| && fams[i] == o.family;
      assert make(fams[i]) == [OfferOf(o.family, Into(parts, o.family), q.hosts, DefaultContext(q.profile), reserve)];
    }
  }

  lemma OfferFamily(fam: string, ps: seq<Part>, hosts: seq<Host>, fallback: int, reserve: int)
    ensures OfferOf(fam, ps, hosts, fallback, reserve).family == fam
  {
  }

  lemma {:induction false} KeptPair(parts: seq<(string, Part)>, hosted: bool, p: (string, Part))
    ensures p in Keep(parts, hosted) <==> p in parts && p.1.host.hosted == hosted
  {
    if |parts| > 0 {
      var n := |parts| - 1;
      KeptPair(parts[..n], hosted, p);
      assert parts == parts[..n] + [parts[n]];
    }
  }

  /** An alias is counted into a family exactly when the catalogue lists it there and its host counts it. */
  lemma AliasCounted(q: Query, placement: Placement, fam: string, p: Part)
    ensures (fam, p) in Flat(q.s.families, q.FromFamily(placement)) <==>
            && p.FromAlias? && q.HostNamed(p.alias.host) == Some(p.host) && q.Counts(placement, p.host, p.alias)
            && exists f :: f in q.s.families && f.family == fam && p.alias in f.names
  {
    hide Query.Counts, Query.HostNamed;
    FlatMember(q.s.families, q.FromFamily(placement), (fam, p));
    forall f: Family ensures (fam, p) in q.FromFamily(placement)(f) <==> AliasHere(q, placement, fam, p, f) {
      AliasOfFamily(q, placement, fam, p, f);
    }
    if f :| f in q.s.families && f.family == fam && p.FromAlias? && p.alias in f.names {
      var i :| 0 <= i < |q.s.families| && q.s.families[i] == f;
      assert (fam, p) in q.FromFamily(placement)(q.s.families[i]) <==> AliasHere(q, placement, fam, p, f);
    }
  }

  predicate AliasHere(q: Query, placement: Placement, fam: string, p: Part, f: Family) {
    p.FromAlias? && f.family == fam && p.alias in f.names && q.HostNamed(p.alias.host) == Some(p.host) && q.Counts(placement, p.host, p.alias)
  }

  lemma AliasOfFamily(q: Query, placement: Placement, fam: string, p: Part, f: Family)
    ensures (fam, p) in q.FromFamily(placement)(f) <==> AliasHere(q, placement, fam, p, f)
  {
    hide Query.Counts, Query.HostNamed;
    FlatMember(f.names, q.FromName(placement, f.family), (fam, p));
    if p.FromAlias? && p.alias in f.names {
      var i :| 0 <= i < |f.names| && f.names[i] == p.alias;
      assert (fam, p) in q.FromName(placement, f.family)(f.names[i]) <==> AliasHere(q, placement, fam, p, f);
    }
  }

  /** Every part's host is one of the query's hosts. */
  lemma PartsFromHosts(q: Query, placement: Placement, fam: string)
    ensures FromHosts(Into(q.Parts(placement), fam), q.hosts)
  {
    hide Query.Counts, Query.FromReply, Query.FromFamily;
    var parts := q.Parts(placement);
    forall p | p in Into(parts, fam) ensures p.host in q.hosts {
      UnderMember(parts, fam, p);
      if (fam, p) in Flat(q.hosts, q.FromReply(placement)) {
        FlatMember(q.hosts, q.FromReply(placement), (fam, p));
        var i :| 0 <= i < |q.hosts| && (fam, p) in q.FromReply(placement)(q.hosts[i]);
        RepliesOfHost(q, placement, q.hosts[i]);
      } else {
        AliasCounted(q, placement, fam, p);
      }
    }
  }

  /**
   An offer for any placement, family by family, is the join of the local and
   the hosted one against the same snapshot, hosts and remote replies, and a
   family is offered for any placement exactly when it is for one of the two.
   */
  lemma AnyIsJoin(q: Query, fam: string, reserve: int)
    requires DistinctNames(q.hosts)
    ensures var local, hosted, any := q.Parts(OnLocal), q.Parts(OnHosted), q.Parts(OnAny);
            var n := DefaultContext(q.profile);
            && FamiliesIn(any) == FamiliesIn(local) + FamiliesIn(hosted)
            && JoinOf(OfferOf(fam, Into(any, fam), q.hosts, n, reserve), OfferOf(fam, Into(local, fam), q.hosts, n, reserve),
                      OfferOf(fam, Into(hosted, fam), q.hosts, n, reserve), Into(any, fam), q.hosts, n)
  {
    hide OfferOf, JoinOf, Query.Parts;
    var any := q.Parts(OnAny);
    PartsOfSide(q, false);
    PartsOfSide(q, true);
    IntoKept(any, fam, false);
    IntoKept(any, fam, true);
    PartsFromHosts(q, OnAny, fam);
    OfferIsJoin(fam, Into(any, fam), q.hosts, DefaultContext(q.profile), reserve);
    forall p, hosted ensures p in Keep(any, hosted) <==> p in any && p.1.host.hosted == hosted {
      KeptPair(any, hosted, p);
    }
  }

  // ---- Order ----

  lemma {:induction false} BestRemove(ps: seq<Part>, j: nat, fallback: int)
    requires j < |ps|
    ensures BestIn(ps, fallback) == Least(BestIn(ps[..j] + ps[j + 1..], fallback), PartBound(ps[j], fallback))
  {
    hide PartBound, Least;
    var n := |ps| - 1;
    if j < n {
      BestRemove(ps[..n], j, fallback);
      var rest := ps[..n][..j] + ps[..n][j + 1..];
      assert (ps[..j] + ps[j + 1..])[..n - 1] == rest;
      BestCounted(rest, fallback);
      PartCounted(ps[j], fallback);
      PartCounted(ps[n], fallback);
      LeastLaws(BestIn(rest, fallback), PartBound(ps[j], fallback), PartBound(ps[n], fallback));
      LeastLaws(BestIn(rest, fallback), PartBound(ps[n], fallback), PartBound(ps[j], fallback));
      LeastLaws(PartBound(ps[j], fallback), PartBound(ps[n], fallback), None);
    } else {
      assert ps[..j] + ps[j + 1..] == ps[..n];
    }
  }

  lemma {:induction false} BestOrderFree(ps: seq<Part>, qs: seq<Part>, fallback: int)
    requires multiset(ps) == multiset(qs)
    ensures BestIn(ps, fallback) == BestIn(qs, fallback)
    decreases |ps|
  {
    hide PartBound, Least;
    assert |ps| == |multiset(ps)| == |multiset(qs)| == |qs|;
    if |ps| > 0 {
      var n := |ps| - 1;
      assert ps == ps[..n] + [ps[n]];
      assert ps[n] in multiset(qs);
      var j :| 0 <= j < |qs| && qs[j] == ps[n];
      assert qs == qs[..j] + ([qs[j]] + qs[j + 1..]);
      assert multiset(qs[..j] + qs[j + 1..]) == multiset(qs) - multiset{qs[j]};
      BestOrderFree(ps[..n], qs[..j] + qs[j + 1..], fallback);
      BestRemove(qs, j, fallback);
    }
  }

  function UnknownsAt(fallback: int): Part -> seq<string> {
    (p: Part) => PartUnknowns(p, fallback)
  }

  lemma {:induction false} UnknownsFlat(ps: seq<Part>, fallback: int)
    ensures UnknownsIn(ps, fallback) == Flat(ps, UnknownsAt(fallback))
  {
    if |ps| > 0 {
      UnknownsFlat(ps[..|ps| - 1], fallback);
    }
  }

  lemma {:induction false} AliasesServeNothing(remote: seq<Part>, xs: seq<Part>, host: string)
    requires forall x :: x in xs ==> x.FromAlias?
    ensures ServersOf(remote + xs, host) == ServersOf(remote, host)
  {
    if |xs| == 0 {
      assert remote + xs == remote;
    } else {
      assert (remote + xs)[..|remote + xs| - 1] == remote + xs[..|xs| - 1];
      assert xs[|xs| - 1] in xs && forall x :: x in xs[..|xs| - 1] ==> x in xs;
      AliasesServeNothing(remote, xs[..|xs| - 1], host);
    }
  }

  /** Aliases counted in another order leave the same offer. */
  lemma AliasOrderFree(fam: string, remote: seq<Part>, xs: seq<Part>, ys: seq<Part>, hosts: seq<Host>, fallback: int, reserve: int)
    requires multiset(xs) == multiset(ys) && forall x :: x in xs ==> x.FromAlias?
    ensures OfferOf(fam, remote + xs, hosts, fallback, reserve) == OfferOf(fam, remote + ys, hosts, fallback, reserve)
  {
    hide PartNames, PartUnknown, BestIn, UnknownsIn, Before, ServersOf, Sort, Ranked;
    var ps, qs := remote + xs, remote + ys;
    SameMembers(xs, ys);
    assert multiset(ps) == multiset(qs);
    SameMembers(ps, qs);
    assert NamesIn(ps) == NamesIn(qs) && LocalsIn(ps) == LocalsIn(qs);
    assert AnyUnknown(ps, fallback) == AnyUnknown(qs, fallback);
    BestOrderFree(ps, qs, fallback);
    UnknownsFlat(ps, fallback);
    UnknownsFlat(qs, fallback);
    FlatOrderFree(ps, qs, UnknownsAt(fallback));
    BeforeStrictTotal();
    SortOrderFree(UnknownsIn(ps, fallback), UnknownsIn(qs, fallback), Before);
    forall i | 0 <= i < |hosts| ensures ServersAt(ps)(hosts[i]) == ServersAt(qs)(hosts[i]) {
      AliasesServeNothing(remote, xs, hosts[i].name);
      AliasesServeNothing(remote, ys, hosts[i].name);
    }
    FlatSame(hosts, ServersAt(ps), ServersAt(qs));
  }

  lemma {:induction false} FlatSame<S, T>(xs: seq<S>, f: S -> seq<T>, g: S -> seq<T>)
    requires forall i :: 0 <= i < |xs| ==> f(xs[i]) == g(xs[i])
    ensures Flat(xs, f) == Flat(xs, g)
  {
    if |xs| > 0 {
      var n := |xs| - 1;
      forall i | 0 <= i < n ensures f(xs[..n][i]) == g(xs[..n][i]) {
        assert xs[..n][i] == xs[i];
      }
      FlatSame(xs[..n], f, g);
    }
  }

  function PartIn(fam: string): ((string, Part)) -> seq<Part> {
    (p: (string, Part)) => if p.0 == fam then [p.1] else []
  }

  lemma {:induction false} IntoFlat(parts: seq<(string, Part)>, fam: string)
    ensures Into(parts, fam) == Flat(parts, PartIn(fam))
  {
    if |parts| > 0 {
      IntoFlat(parts[..|parts| - 1], fam);
    }
  }

  /** The answer does not depend on the order the catalogue lists families and aliases in. */
  lemma OffersOrderFree(q: Query, r: Query, placement: Placement, reserve: int)
    requires q.hosts == r.hosts && q.profile == r.profile && q.replies == r.replies
    requires multiset(Flat(q.s.families, q.FromFamily(placement))) == multiset(Flat(r.s.families, r.FromFamily(placement)))
    ensures OffersFor(q, placement, reserve) == OffersFor(r, placement, reserve)
  {
    hide OfferOf, Into, Ranked, Before, Query.FromReply, Query.FromFamily;
    var remote, xs, ys := Flat(q.hosts, q.FromReply(placement)), Flat(q.s.families, q.FromFamily(placement)), Flat(r.s.families, r.FromFamily(placement));
    SameReplies(q, r, placement);
    assert q.Parts(placement) == remote + xs && r.Parts(placement) == remote + ys;
    SameMembers(xs, ys);
    assert FamiliesIn(remote + xs) == FamiliesIn(remote + ys);
    var n := DefaultContext(q.profile);
    var fams := Ranked(FamiliesIn(remote + xs), Before);
    forall i | 0 <= i < |fams| ensures OfferMaker(remote + xs, q.hosts, n, reserve)(fams[i]) == OfferMaker(remote + ys, q.hosts, n, reserve)(fams[i]) {
      var fam := fams[i];
      FamilyOrderFree(q, placement, fam, remote, xs, ys, n, reserve);
    }
    FlatSame(fams, OfferMaker(remote + xs, q.hosts, n, reserve), OfferMaker(remote + ys, q.hosts, n, reserve));
  }

  lemma SameReplies(q: Query, r: Query, placement: Placement)
    requires q.hosts == r.hosts && q.profile == r.profile && q.replies == r.replies
    ensures Flat(q.hosts, q.FromReply(placement)) == Flat(r.hosts, r.FromReply(placement))
  {
    FlatSame(q.hosts, q.FromReply(placement), r.FromReply(placement));
  }

  lemma FamilyOrderFree(q: Query, placement: Placement, fam: string, remote: seq<(string, Part)>, xs: seq<(string, Part)>, ys: seq<(string, Part)>, n: int, reserve: int)
    requires xs == Flat(q.s.families, q.FromFamily(placement)) && multiset(xs) == multiset(ys)
    ensures OfferOf(fam, Into(remote + xs, fam), q.hosts, n, reserve) == OfferOf(fam, Into(remote + ys, fam), q.hosts, n, reserve)
  {
    hide OfferOf, Query.Counts, Query.FromFamily;
    Identity.UnderJoin(remote, xs, fam);
    Identity.UnderJoin(remote, ys, fam);
    IntoFlat(xs, fam);
    IntoFlat(ys, fam);
    FlatOrderFree(xs, ys, PartIn(fam));
    forall p | p in Into(xs, fam) ensures p.FromAlias? {
      UnderMember(xs, fam, p);
      AliasCounted(q, placement, fam, p);
    }
    AliasOrderFree(fam, Into(remote, fam), Into(xs, fam), Into(ys, fam), q.hosts, n, reserve);
  }

  // ---- What an offered context promises ----

  /** The best bound is one of the parts' bounds, and none of them is better; there is none when no part has one. */
  lemma {:induction false} BestIsLeast(ps: seq<Part>, fallback: int)
    ensures match BestIn(ps, fallback)
            case None => forall p :: p in ps ==> PartBound(p, fallback).None?
            case Some(b) =>
              && (exists p :: p in ps && PartBound(p, fallback) == Some(b))
              && forall p :: p in ps && PartBound(p, fallback).Some? ==> !Better(PartBound(p, fallback).value, b)
  {
    hide PartBound;
    if |ps| > 0 {
      var n := |ps| - 1;
      BestIsLeast(ps[..n], fallback);
      assert ps == ps[..n] + [ps[n]];
      assert ps[n] in ps && forall p :: p in ps[..n] ==> p in ps;
    }
  }

  /**
   An offered context is one every counted server keeps: no counted alias and no
   counted remote bounds the family lower, some part bounds it exactly there, and
   every counted alias has a bound. What is left for the input and what the
   caller reserves fit in it together.
   */
  lemma OfferIsConservative(fam: string, ps: seq<Part>, hosts: seq<Host>, fallback: int, reserve: int)
    requires var o := OfferOf(fam, ps, hosts, fallback, reserve); o.source != Unknown && o.source != NoContext
    ensures var o := OfferOf(fam, ps, hosts, fallback, reserve);
            && (forall p :: p in ps && PartBound(p, fallback).Some? ==> o.context <= PartBound(p, fallback).value.context)
            && (exists p :: p in ps && PartBound(p, fallback) == Some(Bound(o.context, o.source)))
            && (forall p :: p in ps && p.FromAlias? ==> PartBound(p, fallback).Some?)
            && (0 <= reserve < TWO63 && 0 <= o.context < TWO63 ==> o.input == if o.context > reserve then o.context - reserve else 0)
  {
    hide NamesIn, ServersAt, Ranked, Before, UnknownsIn, Sort, BestIn;
    BestIsLeast(ps, fallback);
  }
}
