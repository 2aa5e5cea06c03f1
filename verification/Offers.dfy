/** What a caller may ask for: one offer for each family, with the context it can count on. */
module Offers {
  import opened Basics
  import opened Order
  import opened Provenance
  import opened Hosts
  import opened Catalogue
  import opened Snapshots
  import opened Routing

  datatype Placement = OnLocal | OnHosted | OnAny

  predicate Admits(placement: Placement, h: Host) {
    match placement
    case OnLocal => !h.hosted
    case OnHosted => h.hosted
    case OnAny => true
  }

  datatype Source = Effective | Maximum | Default | Unknown | NoContext

  /** sourceRank: which of two equal bounds is kept, the lower rank first. */
  function SourceRank(source: Source): nat {
    match source
    case Effective => 0
    case Maximum => 1
    case _ => 2
  }

  datatype Bound = Bound(context: int, source: Source)

  /** A smaller context, or an equal one from a better source. */
  predicate Better(a: Bound, b: Bound) {
    a.context < b.context || (a.context == b.context && SourceRank(a.source) < SourceRank(b.source))
  }

  /** One family of a remote router's own offer; its source is whatever word the remote sent. */
  datatype RemoteOffer = RemoteOffer(family: string, names: seq<string>, servers: seq<string>, unknown: seq<string>, source: string, context: int)

  /** A remote's answer: too old to offer, failed or refused, or its offers. */
  datatype Reply = Older | Failed | Offered(offers: seq<RemoteOffer>)

  datatype Offer = Offer(
    family: string,
    names: seq<string>,
    servers: seq<string>,
    context: int,
    source: Source,
    input: int,
    unknown: seq<string>)

  /** profileDefaultContext; 0 where nothing is windowed. */
  function DefaultContext(profile: string): (n: int)
    ensures n >= 0
  {
    if profile == CHAT then 32768 else if profile == EMBED then 8192 else 0
  }

  function ValidEffective(effective: int, maximum: int): int {
    if effective <= 0 || (maximum > 0 && effective > maximum) then 0 else effective
  }

  /** aliasBound: the alias's valid effective length, its maximum or the fallback; None when only the load would settle it. */
  function AliasBound(a: Alias, h: Host, fallback: int): Option<Bound> {
    var effective := ValidEffective(a.effective, a.contextLength);
    if effective > 0 then Some(Bound(effective, Effective))
    else if h.windowAtLoad then None
    else if a.contextLength > 0 then Some(Bound(a.contextLength, Maximum))
    else Some(Bound(fallback, Default))
  }

  /** A 64-bit result, wrapped. */
  function Wrap64(n: int): (w: int)
    ensures -TWO63 <= w < TWO63
    ensures -TWO63 <= n < TWO63 ==> w == n
  {
    (n + TWO63) % TWO64 - TWO63
  }

  // ---- What is counted ----

  /** One thing counted into a family: a remote's offer, or an alias of a host. */
  datatype Part = FromRemote(host: Host, offer: RemoteOffer) | FromAlias(host: Host, alias: Alias)

  function PartNames(p: Part): set<string> {
    match p
    case FromRemote(_, o) => set name | name in o.names
    case FromAlias(_, a) => {a.name}
  }

  /** The bound a part counts; a profile without a window counts none from an alias. */
  function PartBound(p: Part, fallback: int): Option<Bound> {
    match p
    case FromRemote(_, o) =>
      if o.source == "effective" then Some(Bound(o.context, Effective))
      else if o.source == "maximum" then Some(Bound(o.context, Maximum))
      else if o.source == "default" then Some(Bound(o.context, Default))
      else None
    case FromAlias(h, a) => if fallback > 0 then AliasBound(a, h, fallback) else None
  }

  /** The part makes the family's context unknown. */
  predicate PartUnknown(p: Part, fallback: int) {
    match p
    case FromRemote(_, o) => o.source != "effective" && o.source != "maximum" && o.source != "default" && o.source != "none"
    case FromAlias(h, a) => fallback > 0 && AliasBound(a, h, fallback).None?
  }

  function Prefixed(host: string, names: seq<string>): (r: seq<string>)
    ensures |r| == |names| && forall i :: 0 <= i < |names| ==> r[i] == host + "/" + names[i]
  {
    seq(|names|, i requires 0 <= i < |names| => host + "/" + names[i])
  }

  /** The aliases a part reports as unknown. */
  function PartUnknowns(p: Part, fallback: int): seq<string> {
    match p
    case FromRemote(h, o) => Prefixed(h.name, o.unknown)
    case FromAlias(h, a) => if PartUnknown(p, fallback) then [h.name + "/" + a.name] else []
  }

  // ---- What the counted parts amount to ----

  function NamesIn(ps: seq<Part>): set<string> {
    set p, name | p in ps && name in PartNames(p) :: name
  }

  function LocalsIn(ps: seq<Part>): set<string> {
    set p | p in ps && p.FromAlias? :: p.host.name
  }

  /** A remote's servers, each once, as its offers list them. */
  function ServersOf(ps: seq<Part>, host: string): seq<string> {
    if |ps| == 0 then []
    else
      var before, p := ServersOf(ps[..|ps| - 1], host), ps[|ps| - 1];
      if p.FromRemote? && p.host.name == host then AddNew(before, p.offer.servers) else before
  }

  function AddNew(xs: seq<string>, ys: seq<string>): seq<string> {
    if |ys| == 0 then xs
    else
      var before, y := AddNew(xs, ys[..|ys| - 1]), ys[|ys| - 1];
      if y in before then before else before + [y]
  }

  function UnknownsIn(ps: seq<Part>, fallback: int): seq<string> {
    if |ps| == 0 then [] else UnknownsIn(ps[..|ps| - 1], fallback) + PartUnknowns(ps[|ps| - 1], fallback)
  }

  predicate AnyUnknown(ps: seq<Part>, fallback: int) {
    exists p :: p in ps && PartUnknown(p, fallback)
  }

  /** count: the better of two bounds, the one already there when neither is. */
  function Least(a: Option<Bound>, b: Option<Bound>): Option<Bound> {
    if b.None? then a
    else if a.None? || Better(b.value, a.value) then b
    else a
  }

  function BestIn(ps: seq<Part>, fallback: int): Option<Bound> {
    if |ps| == 0 then None else Least(BestIn(ps[..|ps| - 1], fallback), PartBound(ps[|ps| - 1], fallback))
  }

  /** The servers of an offer, in host order. */
  function ServersAt(ps: seq<Part>): Host -> seq<string> {
    (h: Host) => (if h.name in LocalsIn(ps) then [h.name] else []) + Prefixed(h.name, ServersOf(ps, h.name))
  }

  datatype Window = Window(context: int, source: Source, input: int, unknown: seq<string>)

  /** The context a caller can count on: none, unknown, or the best bound, less what it reserves. */
  function WindowOf(anyUnknown: bool, best: Option<Bound>, unknowns: seq<string>, fallback: int, reserve: int): Window {
    if fallback <= 0 || (!anyUnknown && best.None?) then Window(0, NoContext, 0, [])
    else if anyUnknown then Window(0, Unknown, 0, Sort(unknowns, Before))
    else
      var left := Wrap64(best.value.context - reserve);
      Window(best.value.context, best.value.source, if left > 0 then left else 0, [])
  }

  /** One family's offer. */
  ghost function OfferOf(family: string, ps: seq<Part>, hosts: seq<Host>, fallback: int, reserve: int): Offer {
    var w := WindowOf(AnyUnknown(ps, fallback), BestIn(ps, fallback), UnknownsIn(ps, fallback), fallback, reserve);
    Offer(family, Ranked(NamesIn(ps), Before), Flat(hosts, ServersAt(ps)), w.context, w.source, w.input, w.unknown)
  }

  // ---- Collecting the parts ----

  /** A request against one snapshot, one list of hosts and the remotes' replies. */
  datatype Query = Query(s: Snapshot, hosts: seq<Host>, replies: string -> Reply, profile: string) {
    /** The host of a name; the last when two share it. */
    function HostNamed(name: string): Option<Host> {
      Named(hosts, name)
    }

    predicate Answered(h: Host) {
      h.remote && replies(h.name) != Older
    }

    /** The alias is counted for its host. */
    predicate Counts(placement: Placement, h: Host, a: Alias) {
      a.servable && h.Servable() && !Answered(h) && Admits(placement, h) && Serves(s, h, a.name, profile)
    }

    function FromReply(placement: Placement): Host -> seq<(string, Part)> {
      (h: Host) =>
        if h.remote && h.Servable() && Admits(placement, h) && replies(h.name).Offered? then Offerings(h, replies(h.name).offers) else []
    }

    function FromName(placement: Placement, fam: string): Alias -> seq<(string, Part)> {
      (a: Alias) =>
        var h := HostNamed(a.host);
        if h.Some? && Counts(placement, h.value, a) then [(fam, FromAlias(h.value, a))] else []
    }

    function FromFamily(placement: Placement): Family -> seq<(string, Part)> {
      (f: Family) => Flat(f.names, FromName(placement, f.family))
    }

    /** Everything counted, with the family it is counted into: the remotes' offers, then the survey's aliases. */
    function Parts(placement: Placement): seq<(string, Part)> {
      Flat(hosts, FromReply(placement)) + Flat(s.families, FromFamily(placement))
    }
  }

  function Named(hosts: seq<Host>, name: string): (h: Option<Host>)
    ensures h.Some? ==> h.value in hosts && h.value.name == name
    ensures h.None? ==> forall g :: g in hosts ==> g.name != name
  {
    if |hosts| == 0 then None
    else
      var n := |hosts| - 1;
      assert hosts == hosts[..n] + [hosts[n]];
      if hosts[n].name == name then Some(hosts[n]) else Named(hosts[..n], name)
  }

  function Offerings(h: Host, offers: seq<RemoteOffer>): (r: seq<(string, Part)>)
    ensures |r| == |offers| && forall i :: 0 <= i < |offers| ==> r[i] == (offers[i].family, FromRemote(h, offers[i]))
  {
    seq(|offers|, i requires 0 <= i < |offers| => (offers[i].family, FromRemote(h, offers[i])))
  }

  /** The parts counted into one family. */
  function Into(parts: seq<(string, Part)>, fam: string): seq<Part> {
    Under(parts, fam)
  }

  function FamiliesIn(parts: seq<(string, Part)>): set<string> {
    set p | p in parts :: p.0
  }

  ghost function OfferMaker(parts: seq<(string, Part)>, hosts: seq<Host>, fallback: int, reserve: int): string -> seq<Offer> {
    (fam: string) => [OfferOf(fam, Into(parts, fam), hosts, fallback, reserve)]
  }

  /** Offer: one offer for each family anything is counted into, by family. */
  ghost function OffersFor(q: Query, placement: Placement, reserve: int): seq<Offer> {
    var parts := q.Parts(placement);
    Flat(Ranked(FamiliesIn(parts), Before), OfferMaker(parts, q.hosts, DefaultContext(q.profile), reserve))
  }
}
