/**
 Every offer told from what the hosts reported and the remotes replied: who is
 counted, which names and servers are listed, and what context a caller can
 count on.
 */
module Windows {
  import opened Basics
  import opened Order
  import opened Provenance
  import opened Identity
  import opened Hosts
  import opened Catalogue
  import opened Composition
  import opened Snapshots
  import opened Routing
  import opened Decisions
  import opened Offers
  import opened Joining
  import opened Pickable
  import opened Reports
  import opened Outcomes

  // ---- Who is counted ----

  /** A query against a survey's own snapshot and hosts. */
  ghost predicate AskedOf(inputs: Inputs, view: View, fold: Survey, q: Query)
    reads fold
  {
    TakenFrom(inputs, view, fold, q.s) && q.hosts == inputs.hosts
  }

  predicate OnSide(placement: Placement, h: Host) {
    placement == OnAny || (placement == OnHosted <==> h.hosted)
  }

  /** A name of host i is counted into the family: the host has an endpoint, stands on the asked side, does not answer for itself, and takes the name. */
  predicate CountsName(inputs: Inputs, q: Query, placement: Placement, i: nat, fam: string, name: string)
    requires inputs.Valid() && i < |inputs.hosts|
  {
    var h := inputs.hosts[i];
    && fam != "" && h.chat != "" && OnSide(placement, h) && (h.remote ==> q.replies(h.name) == Older)
    && Takes(inputs, i, fam, q.profile, name)
  }

  /** A remote's own offer is counted. */
  predicate CountsOffer(q: Query, placement: Placement, h: Host, o: RemoteOffer) {
    && h in q.hosts && h.remote && h.chat != "" && OnSide(placement, h)
    && q.replies(h.name).Offered? && o in q.replies(h.name).offers
  }

  lemma {:induction false} NamedIs(hosts: seq<Host>, i: nat)
    requires DistinctNames(hosts) && i < |hosts|
    ensures Named(hosts, hosts[i].name) == Some(hosts[i])
  {
    var n := |hosts| - 1;
    if i < n {
      assert hosts[n].name != hosts[i].name;
      NamedIs(hosts[..n], i);
    }
  }

  lemma ServableAlias(inputs: Inputs, view: View, i: nat, a: Alias)
    requires inputs.Valid() && i < |inputs.hosts| && Carries(inputs, view, i, a)
    ensures a.servable <==> inputs.hosts[i].Servable()
  {
  }

  /** The alias carries a counted name of host i, which is h. */
  ghost predicate AliasAt(inputs: Inputs, view: View, q: Query, placement: Placement, fam: string, h: Host, a: Alias, i: nat)
    requires inputs.Valid()
  {
    i < |inputs.hosts| && inputs.hosts[i] == h && Carries(inputs, view, i, a) && CountsName(inputs, q, placement, i, fam, a.name)
  }

  /** An alias is a part of an offer exactly when it carries a counted name. */
  lemma AliasPart(inputs: Inputs, view: View, fold: Survey, q: Query, placement: Placement, fam: string, h: Host, a: Alias)
    requires AskedOf(inputs, view, fold, q)
    ensures (fam, FromAlias(h, a)) in q.Parts(placement) <==> exists i :: AliasAt(inputs, view, q, placement, fam, h, a, i)
  {
    hide TakenFrom, Carries, Takes, Serves, AliasesIn, Query.FromReply, Query.FromFamily, Named;
    TakenValid(inputs, view, fold, q.s);
    var p := FromAlias(h, a);
    NoReplyAlias(q, placement, fam, h, a);
    AliasCounted(q, placement, fam, p);
    AliasesInFamily(q.s, fam, a);
    if (fam, p) in q.Parts(placement) {
      var i := HostIndex(inputs.hosts, h);
      NamedSoThen(q.hosts, a.host);
      NamedHost(inputs, view, fold, q.s, i);
      AliasesExact(inputs, view, fold, q.s, fam, a);
      AnswersExact(inputs, view, fold, q.s, i, fam, q.profile, a);
      if (fam, p) in q.Parts(placement) {
        assert AliasAt(inputs, view, q, placement, fam, h, a, i);
      }
    }
    if i :| AliasAt(inputs, view, q, placement, fam, h, a, i) {
      AnswersExact(inputs, view, fold, q.s, i, fam, q.profile, a);
      NamedIs(inputs.hosts, i);
      CarriedListed(inputs, view, i, a);
      ServableAlias(inputs, view, i, a);
    }
  }

  lemma NamedSoThen(hosts: seq<Host>, name: string)
    ensures Named(hosts, name).Some? ==> Named(hosts, name).value.name == name && Named(hosts, name).value in hosts
  {
  }

  /** What a host's reply gives. */
  lemma ReplyMember(q: Query, placement: Placement, h: Host, pair: (string, Part))
    ensures pair in q.FromReply(placement)(h) <==>
            && pair.1.FromRemote? && pair.1.host == h && pair.0 == pair.1.offer.family
            && h.remote && h.chat != "" && OnSide(placement, h) && q.replies(h.name).Offered? && pair.1.offer in q.replies(h.name).offers
  {
    if q.replies(h.name).Offered? {
      var offers := q.replies(h.name).offers;
      if pair in Offerings(h, offers) {
        var k :| 0 <= k < |offers| && Offerings(h, offers)[k] == pair;
        assert pair.1.offer == offers[k];
      }
      if pair.1.FromRemote? && pair.1.host == h && pair.0 == pair.1.offer.family && pair.1.offer in offers {
        var k :| 0 <= k < |offers| && offers[k] == pair.1.offer;
        assert Offerings(h, offers)[k] == pair;
      }
    }
  }

  /** No reply gives an alias. */
  lemma NoReplyAlias(q: Query, placement: Placement, fam: string, h: Host, a: Alias)
    ensures (fam, FromAlias(h, a)) in q.Parts(placement) <==> (fam, FromAlias(h, a)) in Flat(q.s.families, q.FromFamily(placement))
  {
    hide Query.FromFamily, Query.FromReply;
    var pair := (fam, FromAlias(h, a));
    FlatMember(q.hosts, q.FromReply(placement), pair);
    if pair in Flat(q.hosts, q.FromReply(placement)) {
      var i :| 0 <= i < |q.hosts| && pair in q.FromReply(placement)(q.hosts[i]);
      ReplyMember(q, placement, q.hosts[i], pair);
    }
  }

  /** A remote's offer is a part exactly when the remote answered with it and is counted. */
  lemma RemotePart(q: Query, placement: Placement, fam: string, h: Host, o: RemoteOffer)
    ensures (fam, FromRemote(h, o)) in q.Parts(placement) <==> CountsOffer(q, placement, h, o) && o.family == fam
  {
    hide Query.Counts, Query.HostNamed, Query.FromReply, Query.FromFamily;
    var p := FromRemote(h, o);
    AliasCounted(q, placement, fam, p);
    FlatMember(q.hosts, q.FromReply(placement), (fam, p));
    forall i | 0 <= i < |q.hosts| ensures (fam, p) in q.FromReply(placement)(q.hosts[i]) <==>
        h == q.hosts[i] && o.family == fam && h.remote && h.chat != "" && OnSide(placement, h) && q.replies(h.name).Offered? && o in q.replies(h.name).offers
    {
      ReplyMember(q, placement, q.hosts[i], (fam, p));
    }
    if CountsOffer(q, placement, h, o) && o.family == fam {
      var i := HostIndex(q.hosts, h);
      assert (fam, p) in q.FromReply(placement)(q.hosts[i]);
    }
  }

  // ---- Bounds ----

  /** The lengths host i reported for a name; zero is unreported. */
  function LengthsOf(inputs: Inputs, i: nat, name: string): ModelContext
    requires inputs.Valid() && i < |inputs.hosts|
  {
    if name in inputs.readings[i].contexts then inputs.readings[i].contexts[name] else ModelContext(0, 0)
  }

  /** An effective length was reported, and is not above a reported maximum. */
  predicate Measured(c: ModelContext) {
    c.effective > 0 && (c.maximum <= 0 || c.effective <= c.maximum)
  }

  /** Only loading the model would tell its window. */
  predicate Hidden(inputs: Inputs, i: nat, name: string)
    requires inputs.Valid() && i < |inputs.hosts|
  {
    !Measured(LengthsOf(inputs, i, name)) && inputs.hosts[i].windowAtLoad
  }

  /** What host i's name lets a caller count on, and the field that says so. */
  predicate Limits(inputs: Inputs, i: nat, name: string, default: int, context: int, source: Source)
    requires inputs.Valid() && i < |inputs.hosts|
  {
    var c := LengthsOf(inputs, i, name);
    if Measured(c) then context == c.effective && source == Effective
    else if inputs.hosts[i].windowAtLoad then false
    else if c.maximum > 0 then context == c.maximum && source == Maximum
    else context == default && source == Default
  }

  /** What a remote's offer lets a caller count on. */
  predicate RemoteLimits(o: RemoteOffer, context: int, source: Source) {
    && context == o.context
    && ((o.source == "effective" && source == Effective) || (o.source == "maximum" && source == Maximum) || (o.source == "default" && source == Default))
  }

  predicate RemoteHidden(o: RemoteOffer) {
    o.source != "effective" && o.source != "maximum" && o.source != "default" && o.source != "none"
  }

  /** An alias's bound is what its host's report gives. */
  lemma AliasLimits(inputs: Inputs, view: View, i: nat, a: Alias, default: int, context: int, source: Source)
    requires inputs.Valid() && i < |inputs.hosts| && Carries(inputs, view, i, a) && default > 0
    ensures PartUnknown(FromAlias(inputs.hosts[i], a), default) <==> Hidden(inputs, i, a.name)
    ensures PartBound(FromAlias(inputs.hosts[i], a), default) == Some(Bound(context, source)) <==> Limits(inputs, i, a.name, default, context, source)
  {
    hide StoresIn, Reported;
  }

  lemma OfferLimits(h: Host, o: RemoteOffer, default: int, context: int, source: Source)
    ensures PartUnknown(FromRemote(h, o), default) <==> RemoteHidden(o)
    ensures PartBound(FromRemote(h, o), default) == Some(Bound(context, source)) <==> RemoteLimits(o, context, source)
  {
  }

  /** The profile's default window: 32768 tokens for chat, 8192 for embedding, none for any other. */
  function DefaultWindow(profile: string): nat {
    if profile == "chat" then 32768 else if profile == "embed" then 8192 else 0
  }

  // ---- What is counted into one family ----

  /** Some counted name of the family. */
  ghost predicate NameIn(inputs: Inputs, q: Query, placement: Placement, fam: string, i: nat, name: string)
    requires inputs.Valid()
  {
    i < |inputs.hosts| && CountsName(inputs, q, placement, i, fam, name)
  }

  ghost predicate OfferIn(q: Query, placement: Placement, fam: string, h: Host, o: RemoteOffer) {
    CountsOffer(q, placement, h, o) && o.family == fam
  }

  /** Some counted name, or some counted offer, bounds the family so. */
  ghost predicate Bounded(inputs: Inputs, q: Query, placement: Placement, fam: string, default: int, context: int, source: Source)
    requires inputs.Valid()
  {
    || (exists i, name :: NameIn(inputs, q, placement, fam, i, name) && Limits(inputs, i, name, default, context, source))
    || (exists h, o :: OfferIn(q, placement, fam, h, o) && RemoteLimits(o, context, source))
  }

  /** Some counted name, or some counted offer, hides its window. */
  ghost predicate Obscured(inputs: Inputs, q: Query, placement: Placement, fam: string)
    requires inputs.Valid()
  {
    || (exists i, name :: NameIn(inputs, q, placement, fam, i, name) && Hidden(inputs, i, name))
    || (exists h, o :: OfferIn(q, placement, fam, h, o) && RemoteHidden(o))
  }

  /** The aliases among a family's parts carry its counted names. */
  lemma AliasInFamily(inputs: Inputs, view: View, fold: Survey, q: Query, placement: Placement, fam: string, h: Host, a: Alias)
    requires AskedOf(inputs, view, fold, q)
    ensures FromAlias(h, a) in Into(q.Parts(placement), fam) <==> exists i :: AliasAt(inputs, view, q, placement, fam, h, a, i)
  {
    hide TakenFrom, AliasAt, Query.Parts;
    TakenValid(inputs, view, fold, q.s);
    UnderMember(q.Parts(placement), fam, FromAlias(h, a));
    AliasPart(inputs, view, fold, q, placement, fam, h, a);
  }

  /** The replies among them are its counted offers. */
  lemma OfferInFamily(q: Query, placement: Placement, fam: string, h: Host, o: RemoteOffer)
    ensures FromRemote(h, o) in Into(q.Parts(placement), fam) <==> OfferIn(q, placement, fam, h, o)
  {
    hide CountsOffer, Query.Parts;
    UnderMember(q.Parts(placement), fam, FromRemote(h, o));
    RemotePart(q, placement, fam, h, o);
  }

  /** A counted name is among the family's parts, as its alias. */
  lemma NameInFamily(inputs: Inputs, view: View, fold: Survey, q: Query, placement: Placement, fam: string, i: nat, name: string)
    requires AskedOf(inputs, view, fold, q) && NameIn(inputs, q, placement, fam, i, name)
    ensures FromAlias(inputs.hosts[i], AliasFor(inputs, view, i, name)) in Into(q.Parts(placement), fam)
    ensures Carries(inputs, view, i, AliasFor(inputs, view, i, name)) && AliasFor(inputs, view, i, name).name == name
  {
    hide TakenFrom, Carries, AliasFor, Query.Parts, Reported, Inputs.FamilyOf, Fit;
    TakenValid(inputs, view, fold, q.s);
    ForCarries(inputs, view, i, name);
    AliasInFamily(inputs, view, fold, q, placement, fam, inputs.hosts[i], AliasFor(inputs, view, i, name));
    assert AliasAt(inputs, view, q, placement, fam, inputs.hosts[i], AliasFor(inputs, view, i, name), i);
  }

  /** An alias among the family's parts carries a counted name. */
  lemma AliasNames(inputs: Inputs, view: View, fold: Survey, q: Query, placement: Placement, fam: string, h: Host, a: Alias) returns (i: nat)
    requires AskedOf(inputs, view, fold, q) && FromAlias(h, a) in Into(q.Parts(placement), fam)
    ensures inputs.Valid() && NameIn(inputs, q, placement, fam, i, a.name) && inputs.hosts[i] == h && Carries(inputs, view, i, a)
  {
    hide TakenFrom, Carries, CountsName, Query.Parts, Into;
    TakenValid(inputs, view, fold, q.s);
    AliasInFamily(inputs, view, fold, q, placement, fam, h, a);
    i :| AliasAt(inputs, view, q, placement, fam, h, a, i);
  }

  lemma ObscuredExact(inputs: Inputs, view: View, fold: Survey, q: Query, placement: Placement, fam: string, default: int)
    requires AskedOf(inputs, view, fold, q) && default > 0
    ensures AnyUnknown(Into(q.Parts(placement), fam), default) <==> Obscured(inputs, q, placement, fam)
  {
    hide TakenFrom, Carries, CountsName, OfferIn, Hidden, RemoteHidden, PartUnknown, Query.Parts, Into, AliasFor;
    TakenValid(inputs, view, fold, q.s);
    var ps := Into(q.Parts(placement), fam);
    if p :| p in ps && PartUnknown(p, default) {
      match p
      case FromRemote(h, o) =>
        OfferInFamily(q, placement, fam, h, o);
        OfferLimits(h, o, default, 0, Effective);
      case FromAlias(h, a) =>
        var i := AliasNames(inputs, view, fold, q, placement, fam, h, a);
        AliasLimits(inputs, view, i, a, default, 0, Effective);
    }
    if i, name :| NameIn(inputs, q, placement, fam, i, name) && Hidden(inputs, i, name) {
      NameInFamily(inputs, view, fold, q, placement, fam, i, name);
      AliasLimits(inputs, view, i, AliasFor(inputs, view, i, name), default, 0, Effective);
    }
    if h, o :| OfferIn(q, placement, fam, h, o) && RemoteHidden(o) {
      OfferInFamily(q, placement, fam, h, o);
      OfferLimits(h, o, default, 0, Effective);
    }
  }

  lemma BoundedExact(inputs: Inputs, view: View, fold: Survey, q: Query, placement: Placement, fam: string, default: int, context: int, source: Source)
    requires AskedOf(inputs, view, fold, q) && default > 0
    ensures (exists p :: p in Into(q.Parts(placement), fam) && PartBound(p, default) == Some(Bound(context, source))) <==>
            Bounded(inputs, q, placement, fam, default, context, source)
  {
    hide TakenFrom, Carries, CountsName, OfferIn, Limits, RemoteLimits, PartBound, Query.Parts, Into, AliasFor;
    TakenValid(inputs, view, fold, q.s);
    var ps := Into(q.Parts(placement), fam);
    if p :| p in ps && PartBound(p, default) == Some(Bound(context, source)) {
      match p
      case FromRemote(h, o) =>
        OfferInFamily(q, placement, fam, h, o);
        OfferLimits(h, o, default, context, source);
      case FromAlias(h, a) =>
        var i := AliasNames(inputs, view, fold, q, placement, fam, h, a);
        AliasLimits(inputs, view, i, a, default, context, source);
    }
    if i, name :| NameIn(inputs, q, placement, fam, i, name) && Limits(inputs, i, name, default, context, source) {
      NameInFamily(inputs, view, fold, q, placement, fam, i, name);
      AliasLimits(inputs, view, i, AliasFor(inputs, view, i, name), default, context, source);
    }
    if h, o :| OfferIn(q, placement, fam, h, o) && RemoteLimits(o, context, source) {
      OfferInFamily(q, placement, fam, h, o);
      OfferLimits(h, o, default, context, source);
    }
  }

  // ---- The context of an offer ----

  /** Among equal contexts an effective length is named before a maximum, and a maximum before a default. */
  predicate NamedFirst(a: Source, b: Source) {
    a == b || a == Effective || b == Default
  }

  /** The context and the source word of a family: the least of what it is bounded by, and the best field that says so. */
  ghost predicate LeastBound(inputs: Inputs, q: Query, placement: Placement, fam: string, default: int, context: int, source: Source)
    requires inputs.Valid()
  {
    && Bounded(inputs, q, placement, fam, default, context, source)
    && forall x, y :: Bounded(inputs, q, placement, fam, default, x, y) ==> context < x || (context == x && NamedFirst(source, y))
  }

  lemma BoundSources(inputs: Inputs, q: Query, placement: Placement, fam: string, default: int, context: int, source: Source)
    requires inputs.Valid() && Bounded(inputs, q, placement, fam, default, context, source)
    ensures source == Effective || source == Maximum || source == Default
  {
    hide NameIn, OfferIn;
  }

  /** The best of a family's bounds is its least bound. */
  lemma BestExact(inputs: Inputs, view: View, fold: Survey, q: Query, placement: Placement, fam: string, default: int)
    requires AskedOf(inputs, view, fold, q) && default > 0
    ensures var best := BestIn(Into(q.Parts(placement), fam), default);
            && (best.None? <==> forall x, y :: !Bounded(inputs, q, placement, fam, default, x, y))
            && (best.Some? ==> LeastBound(inputs, q, placement, fam, default, best.value.context, best.value.source))
  {
    hide TakenFrom, PartBound, Query.Parts, Into, Bounded, BestIn;
    TakenValid(inputs, view, fold, q.s);
    var ps := Into(q.Parts(placement), fam);
    BestIsLeast(ps, default);
    forall x, y ensures Bounded(inputs, q, placement, fam, default, x, y) <==> exists p :: p in ps && PartBound(p, default) == Some(Bound(x, y)) {
      BoundedExact(inputs, view, fold, q, placement, fam, default, x, y);
      if Bounded(inputs, q, placement, fam, default, x, y) {
        BoundSources(inputs, q, placement, fam, default, x, y);
      }
    }
    var best := BestIn(ps, default);
    if best.None? {
      forall p | p in ps ensures PartBound(p, default).None? {
      }
    } else {
      BoundSources(inputs, q, placement, fam, default, best.value.context, best.value.source);
      forall x, y | Bounded(inputs, q, placement, fam, default, x, y) ensures best.value.context < x || (best.value.context == x && NamedFirst(best.value.source, y)) {
        BoundSources(inputs, q, placement, fam, default, x, y);
        assert !Better(Bound(x, y), best.value);
      }
    }
  }

  /** w is what 64 bits hold of the difference, k turns away. */
  predicate Wraps(context: int, reserve: int, k: int, w: int) {
    w == context - reserve + k * 0x1_0000_0000_0000_0000 && -0x8000_0000_0000_0000 <= w < 0x8000_0000_0000_0000
  }

  /** What a reserve leaves of a context: the difference as 64 bits hold it, and nothing when that is negative. */
  ghost predicate LeftOver(context: int, reserve: int, input: int) {
    forall k, w :: Wraps(context, reserve, k, w) ==> input == if w > 0 then w else 0
  }

  lemma WrappedOnce(context: int, reserve: int, k: int, w: int)
    requires Wraps(context, reserve, k, w)
    ensures Wrap64(context - reserve) == w
  {
  }

  lemma LeftOverExact(context: int, reserve: int, input: int)
    requires input == if Wrap64(context - reserve) > 0 then Wrap64(context - reserve) else 0
    ensures LeftOver(context, reserve, input)
  {
    forall k, w | Wraps(context, reserve, k, w) ensures input == if w > 0 then w else 0 {
      WrappedOnce(context, reserve, k, w);
    }
  }

  /**
   The context of every offer, from the reports. A profile without a window is
   offered none. Otherwise it is unknown exactly when some counted server hides
   its window; there is none when nothing bounds it; and else it is the least
   bound, its source the field the bound came from. Input is what the reserve
   leaves of it.
   */
  lemma ContextExact(inputs: Inputs, view: View, fold: Survey, q: Query, placement: Placement, reserve: int, o: Offer)
    requires AskedOf(inputs, view, fold, q) && o in OffersFor(q, placement, reserve)
    ensures var n := DefaultWindow(q.profile);
            && (n == 0 ==> o.source == NoContext)
            && (n > 0 ==> (o.source == Unknown <==> Obscured(inputs, q, placement, o.family)))
            && (n > 0 && o.source == NoContext ==> forall x, y :: !Bounded(inputs, q, placement, o.family, n, x, y))
            && (o.source != Unknown && o.source != NoContext ==> LeastBound(inputs, q, placement, o.family, n, o.context, o.source))
            && (o.source == Unknown || o.source == NoContext ==> o.context == 0 && o.input == 0)
            && (o.source != Unknown ==> o.unknown == [])
            && (o.source != Unknown && o.source != NoContext ==> LeftOver(o.context, reserve, o.input))
  {
    hide TakenFrom, Query.Parts, Into, Bounded, Obscured, BestIn, AnyUnknown, UnknownsIn, NamesIn, ServersAt, Ranked, Before, Sort, FamiliesIn, OffersFor;
    hide Wrap64, LeftOver;
    TakenValid(inputs, view, fold, q.s);
    OfferListed(q, placement, reserve, o);
    if o.input == if Wrap64(o.context - reserve) > 0 then Wrap64(o.context - reserve) else 0 {
      LeftOverExact(o.context, reserve, o.input);
    }
    var n := DefaultContext(q.profile);
    assert n == DefaultWindow(q.profile);
    if n > 0 {
      ObscuredExact(inputs, view, fold, q, placement, o.family, n);
      BestExact(inputs, view, fold, q, placement, o.family, n);
      forall x, y | LeastBound(inputs, q, placement, o.family, n, x, y) ensures y != Unknown && y != NoContext {
        BoundSources(inputs, q, placement, o.family, n, x, y);
      }
    }
  }

  /**
   So a context that is offered is kept by every counted server. With a name's
   effective length reported and consistent, the context is at most that; with
   none, its host does not fix the window at load, and the context is at most
   the name's maximum, or the profile's default where there is no maximum.
   */
  lemma ContextIsKept(inputs: Inputs, view: View, fold: Survey, q: Query, placement: Placement, reserve: int, o: Offer, i: nat, name: string)
    requires AskedOf(inputs, view, fold, q) && o in OffersFor(q, placement, reserve)
    requires o.source != Unknown && o.source != NoContext
    requires i < |inputs.hosts| && CountsName(inputs, q, placement, i, o.family, name)
    ensures var c := LengthsOf(inputs, i, name);
            if c.effective > 0 && (c.maximum <= 0 || c.effective <= c.maximum) then o.context <= c.effective
            else !inputs.hosts[i].windowAtLoad && o.context <= if c.maximum > 0 then c.maximum else DefaultWindow(q.profile)
  {
    hide TakenFrom, CountsName, OfferIn, OffersFor;
    TakenValid(inputs, view, fold, q.s);
    var n, c := DefaultWindow(q.profile), LengthsOf(inputs, i, name);
    ContextExact(inputs, view, fold, q, placement, reserve, o);
    assert NameIn(inputs, q, placement, o.family, i, name);
    if n > 0 && !Hidden(inputs, i, name) {
      var bound := if Measured(c) then (c.effective, Effective) else if c.maximum > 0 then (c.maximum, Maximum) else (n as int, Default);
      assert Limits(inputs, i, name, n, bound.0, bound.1);
      assert Bounded(inputs, q, placement, o.family, n, bound.0, bound.1);
    }
  }

  // ---- Names, servers and unknown aliases ----

  /** A family is offered exactly when a name or a remote's offer is counted into it, and then by one offer. */
  lemma FamiliesExact(inputs: Inputs, view: View, fold: Survey, q: Query, placement: Placement, reserve: int, fam: string)
    requires AskedOf(inputs, view, fold, q)
    ensures (exists o :: o in OffersFor(q, placement, reserve) && o.family == fam) <==>
            (exists i, name :: NameIn(inputs, q, placement, fam, i, name)) || (exists h, o :: OfferIn(q, placement, fam, h, o))
    ensures forall o, p :: o in OffersFor(q, placement, reserve) && p in OffersFor(q, placement, reserve) && o.family == fam && p.family == fam ==> o == p
  {
    hide TakenFrom, Query.Parts, CountsName, CountsOffer, OfferOf, OffersFor, AliasFor, Carries;
    TakenValid(inputs, view, fold, q.s);
    var parts := q.Parts(placement);
    forall o: Offer ensures o in OffersFor(q, placement, reserve) <==>
        o.family in FamiliesIn(parts) && o == OfferOf(o.family, Into(parts, o.family), q.hosts, DefaultContext(q.profile), reserve)
    {
      OfferListed(q, placement, reserve, o);
    }
    OfferFamily(fam, Into(parts, fam), q.hosts, DefaultContext(q.profile), reserve);
    FamilyHasPart(parts, fam);
    if fam in FamiliesIn(parts) {
      assert OfferOf(fam, Into(parts, fam), q.hosts, DefaultContext(q.profile), reserve) in OffersFor(q, placement, reserve);
      var p := Into(parts, fam)[0];
      match p
      case FromRemote(h, o) => OfferInFamily(q, placement, fam, h, o);
      case FromAlias(h, a) => var i := AliasNames(inputs, view, fold, q, placement, fam, h, a);
    }
    if i, name :| NameIn(inputs, q, placement, fam, i, name) {
      NameInFamily(inputs, view, fold, q, placement, fam, i, name);
    }
    if h, o :| OfferIn(q, placement, fam, h, o) {
      OfferInFamily(q, placement, fam, h, o);
    }
  }

  lemma FamilyHasPart(parts: seq<(string, Part)>, fam: string)
    ensures fam in FamiliesIn(parts) <==> Into(parts, fam) != []
  {
    if fam in FamiliesIn(parts) {
      var p :| p in parts && p.0 == fam;
      UnderMember(parts, fam, p.1);
    }
    if Into(parts, fam) != [] {
      UnderMember(parts, fam, Into(parts, fam)[0]);
    }
  }

  /** An alias counted into an offer is a name its host reported, for a profile its metadata reports for the name, or that the host has when the metadata is silent. */
  lemma OfferTakesReported(inputs: Inputs, view: View, fold: Survey, q: Query, placement: Placement, fam: string, h: Host, a: Alias) returns (i: nat)
    requires AskedOf(inputs, view, fold, q) && FromAlias(h, a) in Into(q.Parts(placement), fam)
    ensures i < |inputs.hosts| == |inputs.readings| && inputs.hosts[i] == h
    ensures var r := inputs.readings[i];
            && (a.name in r.resident || a.name in r.installed) && inputs.FamilyOf(a.name) == fam
            && (r.profiles.Some? && a.name in r.profiles.value ==> q.profile in r.profiles.value[a.name])
            && (r.profiles.None? || a.name !in r.profiles.value ==> q.profile in h.HostProfiles())
  {
    hide TakenFrom, Carries, Query.Parts, Into, Host.HostProfiles, HasProfile, Inputs.FamilyOf;
    TakenValid(inputs, view, fold, q.s);
    i := AliasNames(inputs, view, fold, q, placement, fam, h, a);
    HasProfileExact(h, q.profile);
  }

  /** An offer lists exactly the counted names and those of the counted offers, in order. */
  lemma NamesExact(inputs: Inputs, view: View, fold: Survey, q: Query, placement: Placement, reserve: int, o: Offer, name: string)
    requires AskedOf(inputs, view, fold, q) && o in OffersFor(q, placement, reserve)
    ensures name in o.names <==>
            (exists i :: NameIn(inputs, q, placement, o.family, i, name)) || (exists h, p :: OfferIn(q, placement, o.family, h, p) && name in p.names)
    ensures Sorted(o.names, Before) && forall j, k :: 0 <= j < k < |o.names| ==> o.names[j] != o.names[k]
  {
    hide TakenFrom, Query.Parts, CountsName, CountsOffer, OffersFor, AliasFor, Carries, Into, Ranked, Before, WindowOf, ServersAt, Sorted;
    TakenValid(inputs, view, fold, q.s);
    OfferListed(q, placement, reserve, o);
    var ps := Into(q.Parts(placement), o.family);
    BeforeStrictTotal();
    RankedMembers(NamesIn(ps), Before);
    if name in NamesIn(ps) {
      var p :| p in ps && name in PartNames(p);
      match p
      case FromRemote(h, r) => OfferInFamily(q, placement, o.family, h, r);
      case FromAlias(h, a) => var i := AliasNames(inputs, view, fold, q, placement, o.family, h, a);
    }
    if i: nat :| NameIn(inputs, q, placement, o.family, i, name) {
      NameInFamily(inputs, view, fold, q, placement, o.family, i, name);
      NameCounted(ps, FromAlias(inputs.hosts[i], AliasFor(inputs, view, i, name)));
    }
    if h, p :| OfferIn(q, placement, o.family, h, p) && name in p.names {
      OfferInFamily(q, placement, o.family, h, p);
      OfferNamed(ps, FromRemote(h, p), name);
    }
  }

  lemma OfferNamed(ps: seq<Part>, p: Part, name: string)
    requires p in ps && p.FromRemote? && name in p.offer.names
    ensures name in NamesIn(ps)
  {
    assert name in PartNames(p);
  }

  lemma {:induction false} AddedMembers(xs: seq<string>, ys: seq<string>, x: string)
    ensures x in AddNew(xs, ys) <==> x in xs || x in ys
  {
    if |ys| > 0 {
      var n := |ys| - 1;
      AddedMembers(xs, ys[..n], x);
      assert ys == ys[..n] + [ys[n]];
    }
  }

  lemma {:induction false} ServersMembers(ps: seq<Part>, host: string, x: string)
    ensures x in ServersOf(ps, host) <==> exists p :: p in ps && p.FromRemote? && p.host.name == host && x in p.offer.servers
  {
    if |ps| > 0 {
      var n := |ps| - 1;
      ServersMembers(ps[..n], host, x);
      assert ps == ps[..n] + [ps[n]];
      if ps[n].FromRemote? {
        AddedMembers(ServersOf(ps[..n], host), ps[n].offer.servers, x);
      }
    }
  }

  lemma PrefixedMember(host: string, names: seq<string>, y: string)
    ensures y in Prefixed(host, names) <==> exists x :: x in names && y == host + "/" + x
  {
    if x :| x in names && y == host + "/" + x {
      var k :| 0 <= k < |names| && names[k] == x;
      assert Prefixed(host, names)[k] == y;
    }
  }

  /** What one host adds to an offer's servers. */
  lemma ServersOfHost(ps: seq<Part>, h: Host, y: string)
    ensures y in ServersAt(ps)(h) <==>
            || (y == h.name && exists p :: p in ps && p.FromAlias? && p.host.name == h.name)
            || exists p, x :: p in ps && p.FromRemote? && p.host.name == h.name && x in p.offer.servers && y == h.name + "/" + x
  {
    hide ServersOf, Prefixed;
    PrefixedMember(h.name, ServersOf(ps, h.name), y);
    forall x ensures x in ServersOf(ps, h.name) <==> exists p :: p in ps && p.FromRemote? && p.host.name == h.name && x in p.offer.servers {
      ServersMembers(ps, h.name, x);
    }
  }

  /** A part adds a server to its family's offer. */
  predicate AddsServer(p: Part, y: string) {
    match p
    case FromAlias(h, _) => y == h.name
    case FromRemote(h, o) => exists x :: x in o.servers && y == h.name + "/" + x
  }

  lemma ServersOfParts(ps: seq<Part>, hosts: seq<Host>, y: string)
    requires FromHosts(ps, hosts)
    ensures y in Flat(hosts, ServersAt(ps)) <==> exists p :: p in ps && AddsServer(p, y)
  {
    hide ServersAt;
    FlatMember(hosts, ServersAt(ps), y);
    if k :| 0 <= k < |hosts| && y in ServersAt(ps)(hosts[k]) {
      ServersOfHost(ps, hosts[k], y);
    }
    if p :| p in ps && AddsServer(p, y) {
      var k := HostIndex(hosts, p.host);
      ServersOfHost(ps, hosts[k], y);
    }
  }

  /** The server is a host with a counted name. */
  ghost predicate ServesByName(inputs: Inputs, q: Query, placement: Placement, fam: string, y: string)
    requires inputs.Valid()
  {
    exists i: nat, name :: NameIn(inputs, q, placement, fam, i, name) && y == inputs.hosts[i].name
  }

  /** The server is one a counted remote lists, under the remote's host. */
  ghost predicate ServesByOffer(q: Query, placement: Placement, fam: string, y: string) {
    exists h, o :: OfferIn(q, placement, fam, h, o) && AddsServer(FromRemote(h, o), y)
  }

  /** An offer's servers are the hosts with a counted name, and the servers of the counted remotes under their host's name. */
  lemma ServersExact(inputs: Inputs, view: View, fold: Survey, q: Query, placement: Placement, reserve: int, o: Offer, y: string)
    requires AskedOf(inputs, view, fold, q) && o in OffersFor(q, placement, reserve)
    ensures y in o.servers <==> ServesByName(inputs, q, placement, o.family, y) || ServesByOffer(q, placement, o.family, y)
  {
    hide TakenFrom, Query.Parts, CountsName, OfferIn, OffersFor, AliasFor, Carries, Into, Ranked, WindowOf, ServersAt, FromHosts;
    TakenValid(inputs, view, fold, q.s);
    OfferListed(q, placement, reserve, o);
    var ps := Into(q.Parts(placement), o.family);
    PartsFromHosts(q, placement, o.family);
    ServersOfParts(ps, q.hosts, y);
    if p :| p in ps && AddsServer(p, y) {
      match p
      case FromRemote(h, r) => OfferInFamily(q, placement, o.family, h, r);
      case FromAlias(h, a) => var i := AliasNames(inputs, view, fold, q, placement, o.family, h, a);
    }
    if i: nat, name :| NameIn(inputs, q, placement, o.family, i, name) && y == inputs.hosts[i].name {
      NameInFamily(inputs, view, fold, q, placement, o.family, i, name);
      assert AddsServer(FromAlias(inputs.hosts[i], AliasFor(inputs, view, i, name)), y);
    }
    if h, r :| OfferIn(q, placement, o.family, h, r) && AddsServer(FromRemote(h, r), y) {
      OfferInFamily(q, placement, o.family, h, r);
    }
  }

  /** The alias of a counted name that hides its window. */
  ghost predicate UnknownByName(inputs: Inputs, q: Query, placement: Placement, fam: string, y: string)
    requires inputs.Valid()
  {
    exists i: nat, name :: NameIn(inputs, q, placement, fam, i, name) && Hidden(inputs, i, name) && y == inputs.hosts[i].name + "/" + name
  }

  /** An alias a counted remote lists as unknown, under the remote's host. */
  ghost predicate UnknownByOffer(q: Query, placement: Placement, fam: string, y: string) {
    exists h, o, x :: OfferIn(q, placement, fam, h, o) && x in o.unknown && y == h.name + "/" + x
  }

  lemma UnknownsOfParts(ps: seq<Part>, default: int, y: string)
    ensures y in Sort(UnknownsIn(ps, default), Before) <==> exists p :: p in ps && y in PartUnknowns(p, default)
    ensures Sorted(Sort(UnknownsIn(ps, default), Before), Before)
  {
    hide Before, Sort, PartUnknowns, UnknownsIn, Sorted;
    BeforeStrictTotal();
    SortSorted(UnknownsIn(ps, default), Before);
    SameMembers(Sort(UnknownsIn(ps, default), Before), UnknownsIn(ps, default));
    UnknownsFlat(ps, default);
    FlatMember(ps, UnknownsAt(default), y);
    if p :| p in ps && y in PartUnknowns(p, default) {
      var k :| 0 <= k < |ps| && ps[k] == p;
      assert y in UnknownsAt(default)(ps[k]);
    }
  }

  lemma UnknownsOfAlias(inputs: Inputs, view: View, i: nat, a: Alias, default: int, y: string)
    requires inputs.Valid() && i < |inputs.hosts| && Carries(inputs, view, i, a) && default > 0
    ensures y in PartUnknowns(FromAlias(inputs.hosts[i], a), default) <==> Hidden(inputs, i, a.name) && y == inputs.hosts[i].name + "/" + a.name
  {
    hide Carries, Hidden, PartUnknown;
    AliasLimits(inputs, view, i, a, default, 0, Effective);
  }

  lemma UnknownListed(ps: seq<Part>, fam: string, hosts: seq<Host>, default: int, reserve: int)
    requires OfferOf(fam, ps, hosts, default, reserve).source == Unknown
    ensures default > 0 && OfferOf(fam, ps, hosts, default, reserve).unknown == Sort(UnknownsIn(ps, default), Before)
  {
    hide NamesIn, ServersAt, Ranked, Before, UnknownsIn, Sort, BestIn, AnyUnknown;
    BestCounted(ps, default);
  }

  /** The aliases listed as unknown are those counted names that hide their window, and those the counted remotes list. */
  lemma UnknownExact(inputs: Inputs, view: View, fold: Survey, q: Query, placement: Placement, reserve: int, o: Offer, y: string)
    requires AskedOf(inputs, view, fold, q) && o in OffersFor(q, placement, reserve) && o.source == Unknown
    ensures y in o.unknown <==> UnknownByName(inputs, q, placement, o.family, y) || UnknownByOffer(q, placement, o.family, y)
    ensures Sorted(o.unknown, Before)
  {
    hide TakenFrom, Query.Parts, CountsName, OfferIn, OffersFor, AliasFor, Carries, Into, OfferOf, Before, Sort, Hidden, PartUnknowns, Sorted, UnknownsIn;
    TakenValid(inputs, view, fold, q.s);
    OfferListed(q, placement, reserve, o);
    var ps, n := Into(q.Parts(placement), o.family), DefaultContext(q.profile);
    UnknownListed(ps, o.family, q.hosts, n, reserve);
    UnknownsOfParts(ps, n, y);
    if p :| p in ps && y in PartUnknowns(p, n) {
      match p
      case FromRemote(h, r) =>
        OfferInFamily(q, placement, o.family, h, r);
        UnknownsOfOffer(h, r, n, y);
      case FromAlias(h, a) =>
        var i := AliasNames(inputs, view, fold, q, placement, o.family, h, a);
        UnknownsOfAlias(inputs, view, i, a, n, y);
    }
    if i: nat, name :| NameIn(inputs, q, placement, o.family, i, name) && Hidden(inputs, i, name) && y == inputs.hosts[i].name + "/" + name {
      NameInFamily(inputs, view, fold, q, placement, o.family, i, name);
      UnknownsOfAlias(inputs, view, i, AliasFor(inputs, view, i, name), n, y);
    }
    if h, r, x :| OfferIn(q, placement, o.family, h, r) && x in r.unknown && y == h.name + "/" + x {
      OfferInFamily(q, placement, o.family, h, r);
      UnknownsOfOffer(h, r, n, y);
    }
  }

  lemma UnknownsOfOffer(h: Host, o: RemoteOffer, default: int, y: string)
    ensures y in PartUnknowns(FromRemote(h, o), default) <==> exists x :: x in o.unknown && y == h.name + "/" + x
  {
    PrefixedMember(h.name, o.unknown, y);
  }

  // ---- The offers together ----

  lemma {:induction false} OnePerFamily(fams: seq<string>, make: string -> seq<Offer>)
    requires forall i :: 0 <= i < |fams| ==> |make(fams[i])| == 1 && make(fams[i])[0].family == fams[i]
    ensures var r := Flat(fams, make); |r| == |fams| && forall i :: 0 <= i < |r| ==> r[i].family == fams[i]
  {
    if |fams| > 0 {
      var n := |fams| - 1;
      forall i | 0 <= i < n ensures |make(fams[..n][i])| == 1 && make(fams[..n][i])[0].family == fams[..n][i] {
        assert fams[..n][i] == fams[i];
      }
      OnePerFamily(fams[..n], make);
    }
  }

  /** The offers come by family, in order. */
  lemma OffersInOrder(q: Query, placement: Placement, reserve: int)
    ensures var r := OffersFor(q, placement, reserve); forall j, k :: 0 <= j < k < |r| ==> Before(r[j].family, r[k].family)
  {
    hide Before, OfferOf, Query.Parts, FamiliesIn, Ranked, Into;
    var parts := q.Parts(placement);
    var fams, make := Ranked(FamiliesIn(parts), Before), OfferMaker(parts, q.hosts, DefaultContext(q.profile), reserve);
    BeforeStrictTotal();
    RankedMembers(FamiliesIn(parts), Before);
    forall i | 0 <= i < |fams| ensures |make(fams[i])| == 1 && make(fams[i])[0].family == fams[i] {
      OfferFamily(fams[i], Into(parts, fams[i]), q.hosts, DefaultContext(q.profile), reserve);
    }
    OnePerFamily(fams, make);
    forall j, k | 0 <= j < k < |fams| ensures Before(fams[j], fams[k]) {
      BeforeTotal(fams[j], fams[k]);
    }
  }
}
