/** When the unknown aliases of the two sides of an offer merge, said of what the remotes replied. */
module Unknowns {
  import opened Basics
  import opened Order
  import opened Provenance
  import opened Hosts
  import opened Catalogue
  import opened Snapshots
  import opened Routing
  import opened Decisions
  import opened Offers
  import opened Joining

  /** A remote the placement counts offers it. */
  predicate Replies(q: Query, placement: Placement, h: Host, o: RemoteOffer) {
    h in q.hosts && h.remote && h.Servable() && Admits(placement, h) && q.replies(h.name).Offered? && o in q.replies(h.name).offers
  }

  lemma OfferReplied(q: Query, placement: Placement, g: Host, fam: string, h: Host, o: RemoteOffer)
    requires g in q.hosts
    ensures (fam, FromRemote(h, o)) in q.FromReply(placement)(g) <==> g == h && Replies(q, placement, h, o) && o.family == fam
  {
    if g.remote && g.Servable() && Admits(placement, g) && q.replies(g.name).Offered? {
      var offers := q.replies(g.name).offers;
      var made := Offerings(g, offers);
      if (fam, FromRemote(h, o)) in made {
        var i :| 0 <= i < |made| && made[i] == (fam, FromRemote(h, o));
      }
      if g == h && o in offers && o.family == fam {
        var i :| 0 <= i < |offers| && offers[i] == o;
        assert made[i] == (fam, FromRemote(h, o));
      }
    }
  }

  /** A remote's offer is counted into a family exactly when a counted remote replied with it. */
  lemma RemoteCounted(q: Query, placement: Placement, fam: string, h: Host, o: RemoteOffer)
    ensures FromRemote(h, o) in Into(q.Parts(placement), fam) <==> Replies(q, placement, h, o) && o.family == fam
  {
    hide Query.FromReply, Query.FromFamily, Query.Counts, Replies;
    var p := (fam, FromRemote(h, o));
    UnderMember(q.Parts(placement), fam, p.1);
    FlatMember(q.hosts, q.FromReply(placement), p);
    AliasCounted(q, placement, fam, p.1);
    forall i | 0 <= i < |q.hosts|
      ensures p in q.FromReply(placement)(q.hosts[i]) <==> q.hosts[i] == h && Replies(q, placement, h, o) && o.family == fam
    {
      OfferReplied(q, placement, q.hosts[i], fam, h, o);
    }
    if Replies(q, placement, h, o) {
      assert h in q.hosts by { RepliesFrom(q, placement, h, o); }
    }
  }

  lemma RepliesFrom(q: Query, placement: Placement, h: Host, o: RemoteOffer)
    requires Replies(q, placement, h, o)
    ensures h in q.hosts
  {
  }

  /** A side of a family hides aliases: nothing counted there is unknown, and a reply lists unknown aliases all the same. */
  ghost predicate HidingReply(q: Query, fam: string, hosted: bool) {
    && !AnyUnknown(Into(q.Parts(SideOf(hosted)), fam), DefaultContext(q.profile))
    && exists h, o :: Replies(q, SideOf(hosted), h, o) && o.family == fam && o.unknown != []
  }

  lemma HidingExact(q: Query, fam: string, hosted: bool)
    ensures Hides(Into(q.Parts(SideOf(hosted)), fam), DefaultContext(q.profile)) <==> HidingReply(q, fam, hosted)
  {
    hide Into, Query.Parts, AnyUnknown, Replies, DefaultContext;
    forall h, o
      ensures FromRemote(h, o) in Into(q.Parts(SideOf(hosted)), fam) <==> Replies(q, SideOf(hosted), h, o) && o.family == fam
    {
      RemoteCounted(q, SideOf(hosted), fam, h, o);
    }
    var ps := Into(q.Parts(SideOf(hosted)), fam);
    if h, o :| Replies(q, SideOf(hosted), h, o) && o.family == fam && o.unknown != [] {
      assert FromRemote(h, o) in ps && FromRemote(h, o).offer.unknown != [];
    }
    if p :| p in ps && p.FromRemote? && p.offer.unknown != [] {
      assert p == FromRemote(p.host, p.offer);
    }
  }

  ghost function OfferAt(q: Query, placement: Placement, fam: string, reserve: int): Offer {
    OfferOf(fam, Into(q.Parts(placement), fam), q.hosts, DefaultContext(q.profile), reserve)
  }

  /**
   An unknown offer for any placement lists exactly the unknown aliases the local
   and the hosted offer list between them, unless a reply on one side hides some.
   */
  lemma UnknownsMerge(q: Query, fam: string, reserve: int)
    requires DistinctNames(q.hosts)
    ensures var o, local, hosted := OfferAt(q, OnAny, fam, reserve), OfferAt(q, OnLocal, fam, reserve), OfferAt(q, OnHosted, fam, reserve);
            o.source == Unknown ==>
            (o.unknown == Sort(local.unknown + hosted.unknown, Before) <==> !HidingReply(q, fam, false) && !HidingReply(q, fam, true))
  {
    hide OfferOf, Hides, HidingReply, Query.Parts, Into, KeepParts, Sort, Before, ServersAt, Sorted;
    AnyIsJoin(q, fam, reserve);
    PartsOfSide(q, false);
    PartsOfSide(q, true);
    IntoKept(q.Parts(OnAny), fam, false);
    IntoKept(q.Parts(OnAny), fam, true);
    HidingExact(q, fam, false);
    HidingExact(q, fam, true);
  }

  // ---- Routers do not hide ----

  const UNKNOWN_WORD := "unknown"

  function SourceWord(source: Source): string {
    match source
    case Effective => "effective"
    case Maximum => "maximum"
    case Default => "default"
    case Unknown => UNKNOWN_WORD
    case NoContext => "none"
  }

  /** A router's offer as its caller receives it. */
  function Sent(o: Offer): RemoteOffer {
    RemoteOffer(o.family, o.names, o.servers, o.unknown, SourceWord(o.source), o.context)
  }

  /** Every offer of the reply is one of a router's own, for some query of its own. */
  ghost predicate MadeFor(offers: seq<RemoteOffer>, q: Query, placement: Placement, reserve: int) {
    forall o :: o in offers ==> exists own :: own in OffersFor(q, placement, reserve) && o == Sent(own)
  }

  /** A reply some router made. */
  ghost predicate Made(r: Reply) {
    r.Offered? ==> exists q: Query, placement: Placement, reserve: int :: MadeFor(r.offers, q, placement, reserve)
  }

  /** An offer lists unknown aliases only when its context is unknown. */
  lemma OwnIsPlain(q: Query, placement: Placement, reserve: int, own: Offer)
    requires own in OffersFor(q, placement, reserve) && own.unknown != []
    ensures own.source == Unknown
  {
    hide OffersFor, OfferOf, WindowIn, Query.Parts, Into;
    OfferListed(q, placement, reserve, own);
    var ps := Into(q.Parts(placement), own.family);
    OfferFields(own.family, ps, q.hosts, DefaultContext(q.profile), reserve);
    WindowLists(ps, DefaultContext(q.profile), reserve);
  }

  lemma MadeIsPlain(r: Reply, o: RemoteOffer)
    requires Made(r) && r.Offered? && o in r.offers && o.unknown != []
    ensures o.source == UNKNOWN_WORD
  {
    hide OffersFor;
    var q: Query, placement: Placement, reserve: int :| MadeFor(r.offers, q, placement, reserve);
    var own :| own in OffersFor(q, placement, reserve) && o == Sent(own);
    OwnIsPlain(q, placement, reserve, own);
  }

  lemma WindowLists(ps: seq<Part>, fallback: int, reserve: int)
    ensures WindowIn(ps, fallback, reserve).unknown != [] ==> WindowIn(ps, fallback, reserve).source == Unknown
  {
  }

  /** When every remote is a router of this kind, the unknown aliases always merge. */
  lemma RoutersMerge(q: Query, fam: string, reserve: int)
    requires DistinctNames(q.hosts) && forall h :: h in q.hosts ==> Made(q.replies(h.name))
    ensures var o, local, hosted := OfferAt(q, OnAny, fam, reserve), OfferAt(q, OnLocal, fam, reserve), OfferAt(q, OnHosted, fam, reserve);
            o.source == Unknown ==> o.unknown == Sort(local.unknown + hosted.unknown, Before)
  {
    hide Made, OfferAt, Sort, Before, Query.Parts, Into;
    UnknownsMerge(q, fam, reserve);
    forall hosted: bool ensures !HidingReply(q, fam, hosted) {
      if HidingReply(q, fam, hosted) {
        var h, o :| Replies(q, SideOf(hosted), h, o) && o.family == fam && o.unknown != [];
        MadeIsPlain(q.replies(h.name), o);
        RemoteCounted(q, SideOf(hosted), fam, h, o);
      }
    }
  }

  // ---- A reply that hides ----

  const NEAR := Host("near", "", "/v1", false, "", [], None, true, false, false)
  const FAR := Host("far", "", "/v1", true, "openai-compatible", [], None, false, false, true)
  const NEAR_ALIAS := Alias("near", "m", false, true, false, [], [], 0, 0)
  const FAR_OFFER := RemoteOffer("f", ["m"], ["s"], ["x"], "effective", 8192)

  function FarReplies(name: string): Reply {
    if name == "far" then Offered([FAR_OFFER]) else Older
  }

  const HIDDEN := Query(Snapshot([Family("f", [NEAR_ALIAS], [], "", [])], map[], map[], map[]), [NEAR, FAR], FarReplies, CHAT)

  lemma NearCounted()
    ensures FromAlias(NEAR, NEAR_ALIAS) in Into(HIDDEN.Parts(OnAny), "f") && PartUnknown(FromAlias(NEAR, NEAR_ALIAS), DefaultContext(CHAT))
    ensures DistinctNames(HIDDEN.hosts)
  {
    var p := ("f", FromAlias(NEAR, NEAR_ALIAS));
    assert HIDDEN.s.families[0] in HIDDEN.s.families && NEAR_ALIAS in HIDDEN.s.families[0].names;
    NearNamed();
    assert CHAT in NEAR.HostProfiles();
    AliasCounted(HIDDEN, OnAny, "f", p.1);
    UnderMember(HIDDEN.Parts(OnAny), "f", p.1);
  }

  lemma NearNamed()
    ensures HIDDEN.HostNamed("near") == Some(NEAR)
  {
    assert HIDDEN.hosts[..1] == [NEAR];
    assert "far"[0] != "near"[0];
  }

  lemma FarHides()
    ensures HidingReply(HIDDEN, "f", true)
  {
    hide Query.Parts, Query.HostNamed;
    assert Replies(HIDDEN, OnHosted, FAR, FAR_OFFER);
    forall p | p in Into(HIDDEN.Parts(OnHosted), "f") ensures !PartUnknown(p, DefaultContext(CHAT)) {
      match p
      case FromRemote(h, o) =>
        RemoteCounted(HIDDEN, OnHosted, "f", h, o);
        assert o in [FAR_OFFER];
      case FromAlias(h, a) =>
        UnderMember(HIDDEN.Parts(OnHosted), "f", p);
        HostedAliasNot(p);
    }
  }

  lemma HostedAliasNot(p: Part)
    requires p.FromAlias?
    ensures ("f", p) !in HIDDEN.Parts(OnHosted)
  {
    hide Query.HostNamed, Query.FromReply;
    FlatMember(HIDDEN.hosts, HIDDEN.FromReply(OnHosted), ("f", p));
    forall i | 0 <= i < |HIDDEN.hosts| ensures ("f", p) !in HIDDEN.FromReply(OnHosted)(HIDDEN.hosts[i]) {
      RepliesAreRemote(HIDDEN, OnHosted, HIDDEN.hosts[i], ("f", p));
    }
    AliasCounted(HIDDEN, OnHosted, "f", p);
    NearNamed();
  }

  lemma RepliesAreRemote(q: Query, placement: Placement, g: Host, p: (string, Part))
    ensures p in q.FromReply(placement)(g) ==> p.1.FromRemote?
  {
    var parts := q.FromReply(placement)(g);
    if p in parts && g.remote && g.Servable() && Admits(placement, g) && q.replies(g.name).Offered? {
      var i :| 0 <= i < |parts| && Offerings(g, q.replies(g.name).offers)[i] == p;
    }
  }

  /** A hosted reply with a known context and an unknown alias: the joined list has an alias neither side lists. */
  lemma HiddenAlias(reserve: int)
    ensures var o, local, hosted := OfferAt(HIDDEN, OnAny, "f", reserve), OfferAt(HIDDEN, OnLocal, "f", reserve), OfferAt(HIDDEN, OnHosted, "f", reserve);
            o.source == Unknown && o.unknown != Sort(local.unknown + hosted.unknown, Before)
  {
    hide Query.Parts, Into, Sort, Before, OfferOf, HidingReply, PartUnknown;
    NearCounted();
    FarHides();
    UnknownsMerge(HIDDEN, "f", reserve);
    var ps := Into(HIDDEN.Parts(OnAny), "f");
    OfferFields("f", ps, HIDDEN.hosts, DefaultContext(CHAT), reserve);
    WindowUnknown(ps, DefaultContext(CHAT), reserve);
  }
}
