/** A remote runtime's listing, folded into the names, contexts and profiles a survey reads of it. */
module Remotes {
  import opened Basics
  import opened Order
  import opened Hosts
  import opened Catalogue
  import opened Offers

  // ---- Bounds ----

  /** bound: the valid effective length, else the maximum. */
  function BoundOf(c: ModelContext): int {
    var effective := ValidEffective(c.effective, c.maximum);
    if effective > 0 then effective else c.maximum
  }

  /** smallerBound: c is known, and below prior or where prior knows nothing. */
  predicate Smaller(c: ModelContext, prior: ModelContext) {
    BoundOf(c) > 0 && (BoundOf(prior) == 0 || BoundOf(c) < BoundOf(prior))
  }

  function Observed(a: Alias): ModelContext {
    ModelContext(a.contextLength, a.effective)
  }

  // ---- What the aliases of one name amount to ----

  /** The servable aliases, in the order the remote lists them. */
  function Servable(names: seq<Alias>): seq<Alias> {
    if |names| == 0 then []
    else Servable(names[..|names| - 1]) + if names[|names| - 1].servable then [names[|names| - 1]] else []
  }

  function ServableIn(): Family -> seq<Alias> {
    (f: Family) => Servable(f.names)
  }

  function NamesOf(listed: seq<Alias>): (r: seq<string>)
    ensures |r| == |listed| && forall i :: 0 <= i < |listed| ==> r[i] == listed[i].name
  {
    seq(|listed|, i requires 0 <= i < |listed| => listed[i].name)
  }

  /** The context kept for a name. */
  function Kept(listed: seq<Alias>, name: string): Option<ModelContext> {
    if |listed| == 0 then None
    else
      var before, a := Kept(listed[..|listed| - 1], name), listed[|listed| - 1];
      if a.name == name && (before.None? || Smaller(Observed(a), before.value)) then Some(Observed(a)) else before
  }

  /** The profiles reported for a name, each once. */
  function Reported(listed: seq<Alias>, name: string): seq<string> {
    if |listed| == 0 then []
    else
      var before, a := Reported(listed[..|listed| - 1], name), listed[|listed| - 1];
      if a.name == name then AddNew(before, a.profiles) else before
  }

  /** Some alias of the name reports no profile at all. */
  predicate Unreported(listed: seq<Alias>, name: string) {
    exists a :: a in listed && a.name == name && a.profiles == []
  }

  // ---- The fold ----

  /** The fold so far: the names listed, their contexts and profiles, and the names some alias leaves unreported. */
  datatype Listed = Listed(
    out: seq<string>,
    contexts: map<string, ModelContext>,
    profiles: map<string, seq<string>>,
    unreported: set<string>)

  function ContextIn(l: Listed, name: string): Option<ModelContext> {
    if name in l.contexts then Some(l.contexts[name]) else None
  }

  function ProfilesIn(l: Listed, name: string): seq<string> {
    if name in l.profiles then l.profiles[name] else []
  }

  ghost predicate Holds(l: Listed, listed: seq<Alias>) {
    && l.out == Distinct(NamesOf(listed))
    && (forall name :: ContextIn(l, name) == Kept(listed, name))
    && (forall name :: ProfilesIn(l, name) == Reported(listed, name))
    && (forall name :: name in l.profiles ==> l.profiles[name] != [])
    && (forall name :: name in l.unreported <==> Unreported(listed, name))
  }

  lemma OneMore(listed: seq<Alias>, a: Alias, name: string)
    ensures Kept(listed + [a], name) ==
            if a.name == name && (Kept(listed, name).None? || Smaller(Observed(a), Kept(listed, name).value)) then Some(Observed(a)) else Kept(listed, name)
    ensures Reported(listed + [a], name) == if a.name == name then AddNew(Reported(listed, name), a.profiles) else Reported(listed, name)
    ensures Unreported(listed + [a], name) <==> Unreported(listed, name) || (a.name == name && a.profiles == [])
    ensures NamesOf(listed + [a]) == NamesOf(listed) + [a.name]
  {
    hide Smaller, AddNew;
    assert (listed + [a])[..|listed|] == listed;
    assert a in listed + [a] && forall b :: b in listed + [a] <==> b in listed || b == a;
  }

  method AddProfiles(profiles: map<string, seq<string>>, name: string, more: seq<string>) returns (r: map<string, seq<string>>)
    requires forall other :: other in profiles ==> profiles[other] != []
    ensures forall other :: other in r ==> r[other] != []
    ensures forall other :: (if other in r then r[other] else []) ==
                            var before := if other in profiles then profiles[other] else [];
                            if other == name then AddNew(before, more) else before
  {
    r := profiles;
    for i := 0 to |more|
      invariant forall other :: other in r ==> r[other] != []
      invariant forall other :: (if other in r then r[other] else []) ==
                                var before := if other in profiles then profiles[other] else [];
                                if other == name then AddNew(before, more[..i]) else before
    {
      assert more[..i + 1][..i] == more[..i];
      var seen := if name in r then r[name] else [];
      if more[i] !in seen {
        r := r[name := seen + [more[i]]];
      }
    }
    assert more[..|more|] == more;
  }

  /** One servable alias. */
  method FoldOne(l: Listed, a: Alias, ghost listed: seq<Alias>) returns (r: Listed)
    requires Holds(l, listed)
    ensures Holds(r, listed + [a])
  {
    hide Kept, Reported, Unreported, Smaller, AddNew, Distinct, NamesOf;
    forall name {
      OneMore(listed, a, name);
    }
    DistinctNext(NamesOf(listed), a.name);
    var out := if a.name in l.out then l.out else l.out + [a.name];
    var contexts := l.contexts;
    assert ContextIn(l, a.name) == Kept(listed, a.name);
    if a.name !in contexts || Smaller(Observed(a), contexts[a.name]) {
      contexts := contexts[a.name := Observed(a)];
    }
    var profiles := AddProfiles(l.profiles, a.name, a.profiles);
    r := Listed(out, contexts, profiles, if a.profiles == [] then l.unreported + {a.name} else l.unreported);
    forall name ensures ContextIn(r, name) == Kept(listed + [a], name) {
      assert ContextIn(l, name) == Kept(listed, name);
      OneMore(listed, a, name);
    }
    forall name ensures ProfilesIn(r, name) == Reported(listed + [a], name) {
      assert ProfilesIn(l, name) == Reported(listed, name);
      OneMore(listed, a, name);
    }
  }

  method FoldFamily(l: Listed, names: seq<Alias>, ghost listed: seq<Alias>) returns (r: Listed)
    requires Holds(l, listed)
    ensures Holds(r, listed + Servable(names))
  {
    r := l;
    assert listed + [] == listed;
    for i := 0 to |names|
      invariant Holds(r, listed + Servable(names[..i]))
    {
      hide Holds;
      assert names[..i + 1][..i] == names[..i];
      if names[i].servable {
        r := FoldOne(r, names[i], listed + Servable(names[..i]));
        assert (listed + Servable(names[..i])) + [names[i]] == listed + Servable(names[..i + 1]);
      } else {
        assert Servable(names[..i]) + [] == Servable(names[..i]);
      }
    }
    assert names[..|names|] == names;
  }

  /** The listing of a remote: its names once each, a context for each, and the profiles of the names every alias reports some for. */
  method FoldListing(families: seq<Family>) returns (out: seq<string>, contexts: map<string, ModelContext>, profiles: map<string, seq<string>>)
    ensures var listed := Flat(families, ServableIn());
            && out == Distinct(NamesOf(listed))
            && (forall name :: (if name in contexts then Some(contexts[name]) else None) == Kept(listed, name))
            && (forall name :: name in profiles <==> Reported(listed, name) != [] && !Unreported(listed, name))
            && (forall name :: name in profiles ==> profiles[name] == Reported(listed, name))
  {
    hide Kept, Reported, Unreported, Distinct, NamesOf;
    var l := Listed([], map[], map[], {});
    NothingListed();
    for i := 0 to |families|
      invariant Holds(l, Flat(families[..i], ServableIn()))
    {
      hide Holds, Servable;
      FlatStep(families, ServableIn(), i);
      l := FoldFamily(l, families[i].names, Flat(families[..i], ServableIn()));
    }
    ghost var listed := Flat(families, ServableIn());
    assert families[..|families|] == families;
    out, contexts := l.out, l.contexts;
    profiles := l.profiles - l.unreported;
    forall name ensures (if name in contexts then Some(contexts[name]) else None) == Kept(listed, name) {
      assert ContextIn(l, name) == Kept(listed, name);
    }
    forall name ensures name in profiles <==> Reported(listed, name) != [] && !Unreported(listed, name) {
      assert ProfilesIn(l, name) == Reported(listed, name);
    }
    forall name | name in profiles ensures profiles[name] == Reported(listed, name) {
      assert ProfilesIn(l, name) == Reported(listed, name);
    }
  }

  lemma NothingListed()
    ensures Holds(Listed([], map[], map[], {}), [])
  {
  }

  // ---- Profiles do not depend on the order ----

  lemma {:induction false} AddNewMember(xs: seq<string>, ys: seq<string>, p: string)
    ensures p in AddNew(xs, ys) <==> p in xs || p in ys
  {
    if |ys| > 0 {
      AddNewMember(xs, ys[..|ys| - 1], p);
      assert ys == ys[..|ys| - 1] + [ys[|ys| - 1]];
    }
  }

  /** A profile is reported for a name exactly when some alias of the name reports it. */
  lemma {:induction false} ReportedExact(listed: seq<Alias>, name: string, p: string)
    ensures p in Reported(listed, name) <==> exists a :: a in listed && a.name == name && p in a.profiles
  {
    hide AddNew;
    if |listed| > 0 {
      var n := |listed| - 1;
      ReportedExact(listed[..n], name, p);
      AddNewMember(Reported(listed[..n], name), listed[n].profiles, p);
      assert listed == listed[..n] + [listed[n]];
      assert listed[n] in listed && forall a :: a in listed <==> a in listed[..n] || a == listed[n];
    }
  }

  /** The names, and the profiles of each, are the same sets for every order of the aliases. */
  lemma ListingOrderFree(a: seq<Alias>, b: seq<Alias>, name: string, p: string)
    requires multiset(a) == multiset(b)
    ensures name in NamesOf(a) <==> name in NamesOf(b)
    ensures p in Reported(a, name) <==> p in Reported(b, name)
    ensures Unreported(a, name) <==> Unreported(b, name)
  {
    hide Reported, NamesOf;
    SameMembers(a, b);
    ReportedExact(a, name, p);
    ReportedExact(b, name, p);
    NamesMember(a, name);
    NamesMember(b, name);
  }

  lemma NamesMember(listed: seq<Alias>, name: string)
    ensures name in NamesOf(listed) <==> exists a :: a in listed && a.name == name
  {
    if a :| a in listed && a.name == name {
      var i :| 0 <= i < |listed| && listed[i] == a;
      assert NamesOf(listed)[i] == name;
    }
  }

  // ---- When the bound does not depend on the order ----

  /** The first alias of a name. */
  function FirstOf(listed: seq<Alias>, name: string): Option<Alias> {
    if |listed| == 0 then None
    else if listed[0].name == name then Some(listed[0])
    else FirstOf(listed[1..], name)
  }

  /** A name some alias has. */
  predicate Bounds(listed: seq<Alias>, name: string, b: int) {
    exists a :: a in listed && a.name == name && BoundOf(Observed(a)) == b
  }

  /** b is what a name's bounds come to when the first is not negative: the least known one, or 0 when none is known. */
  ghost predicate LeastKnown(listed: seq<Alias>, name: string, b: int) {
    && b >= 0
    && (b > 0 ==> Bounds(listed, name, b))
    && forall c :: Bounds(listed, name, c) && c > 0 ==> 0 < b <= c
  }

  lemma BoundsPush(listed: seq<Alias>, a: Alias, name: string, b: int)
    ensures Bounds(listed + [a], name, b) <==> Bounds(listed, name, b) || (a.name == name && BoundOf(Observed(a)) == b)
  {
    hide BoundOf;
    assert a in listed + [a] && forall c :: c in listed + [a] <==> c in listed || c == a;
  }

  lemma {:induction false} FirstOfPush(listed: seq<Alias>, a: Alias, name: string)
    ensures FirstOf(listed + [a], name) == if FirstOf(listed, name).Some? then FirstOf(listed, name) else if a.name == name then Some(a) else None
  {
    if |listed| == 0 {
      assert listed + [a] == [a] && [a][1..] == [];
    } else {
      assert (listed + [a])[1..] == listed[1..] + [a];
      FirstOfPush(listed[1..], a, name);
    }
  }

  /**
   The context kept for a name: the first one for good when its bound is
   negative, and otherwise one with the least known bound of the name.
   */
  lemma {:induction false} KeptExact(listed: seq<Alias>, name: string)
    ensures match FirstOf(listed, name)
            case None => Kept(listed, name).None? && forall b :: !Bounds(listed, name, b)
            case Some(first) =>
              && Kept(listed, name).Some?
              && var b := BoundOf(Kept(listed, name).value);
                 if BoundOf(Observed(first)) < 0 then b == BoundOf(Observed(first)) else LeastKnown(listed, name, b)
  {
    hide BoundOf, Bounds;
    if |listed| == 0 {
      NoBounds(name);
    } else {
      var n := |listed| - 1;
      var front, a := listed[..n], listed[n];
      assert listed == front + [a];
      KeptExact(front, name);
      FirstOfPush(front, a, name);
      forall b ensures Bounds(listed, name, b) <==> Bounds(front, name, b) || (a.name == name && BoundOf(Observed(a)) == b) {
        BoundsPush(front, a, name, b);
      }
    }
  }

  lemma NoBounds(name: string)
    ensures forall b :: !Bounds([], name, b)
  {
  }

  /** The tokens an alias allows a request: its effective length when that is positive and not above a positive maximum, else its maximum. */
  function Allows(maximum: int, effective: int): int {
    if effective > 0 && (maximum <= 0 || effective <= maximum) then effective else maximum
  }

  lemma AllowsExact(c: ModelContext)
    ensures BoundOf(c) == Allows(c.maximum, c.effective)
  {
  }

  /** The context kept for a name is some alias's, and no earlier alias of the name allows as many tokens. */
  lemma {:induction false} KeptListed(listed: seq<Alias>, name: string)
    ensures Kept(listed, name).Some? ==>
              exists i :: && 0 <= i < |listed| && listed[i].name == name && Kept(listed, name).value == Observed(listed[i])
                          && forall j :: 0 <= j < i && listed[j].name == name ==> BoundOf(Observed(listed[j])) != BoundOf(Observed(listed[i]))
  {
    hide BoundOf, Bounds;
    if |listed| > 0 {
      var n := |listed| - 1;
      var front, a := listed[..n], listed[n];
      assert listed == front + [a];
      KeptListed(front, name);
      KeptExact(front, name);
      FirstIsBound(front, name);
      if a.name == name && (Kept(front, name).None? || Smaller(Observed(a), Kept(front, name).value)) {
        forall j | 0 <= j < n && listed[j].name == name ensures BoundOf(Observed(listed[j])) != BoundOf(Observed(a)) {
          assert front[j] == listed[j] && front[j] in front;
          BoundHere(front, front[j], name);
        }
        assert listed[n] == a;
      } else if Kept(front, name).Some? {
        var i :| && 0 <= i < |front| && front[i].name == name && Kept(front, name).value == Observed(front[i])
                 && forall j :: 0 <= j < i && front[j].name == name ==> BoundOf(Observed(front[j])) != BoundOf(Observed(front[i]));
        assert listed[i] == front[i] && forall j :: 0 <= j < i ==> listed[j] == front[j];
      }
    }
  }

  lemma BoundHere(listed: seq<Alias>, a: Alias, name: string)
    requires a in listed && a.name == name
    ensures Bounds(listed, name, BoundOf(Observed(a)))
  {
  }

  /**
   The context kept for a name is that of one of its aliases, the first to allow
   so many tokens; and unless the first alias of all allows a negative number, no
   alias that allows any allows fewer.
   */
  lemma KeptIsConservative(listed: seq<Alias>, name: string, a: Alias)
    requires a in listed && a.name == name
    ensures Kept(listed, name).Some? && FirstOf(listed, name).Some?
    ensures var first, c := FirstOf(listed, name).value, Kept(listed, name).value;
            && (exists i :: && 0 <= i < |listed| && listed[i].name == name && c == ModelContext(listed[i].contextLength, listed[i].effective)
                            && forall j :: 0 <= j < i && listed[j].name == name ==>
                                 Allows(listed[j].contextLength, listed[j].effective) != Allows(c.maximum, c.effective))
            && (Allows(first.contextLength, first.effective) >= 0 && Allows(a.contextLength, a.effective) > 0 ==>
                  0 < Allows(c.maximum, c.effective) <= Allows(a.contextLength, a.effective))
  {
    hide BoundOf, Allows, Kept, FirstOf;
    KeptExact(listed, name);
    KeptListed(listed, name);
    forall b: Alias ensures BoundOf(Observed(b)) == Allows(b.contextLength, b.effective) {
      AllowsExact(Observed(b));
    }
    assert Bounds(listed, name, BoundOf(Observed(a)));
  }

  /** The bound a survey reads for a name. */
  function BoundFor(listed: seq<Alias>, name: string): Option<int> {
    match Kept(listed, name)
    case None => None
    case Some(c) => Some(BoundOf(c))
  }

  /** Every bound of a name is known or unknown, none negative; or all of them are one. */
  ghost predicate Plain(listed: seq<Alias>, name: string) {
    || (forall b :: Bounds(listed, name, b) ==> b >= 0)
    || (forall b, c :: Bounds(listed, name, b) && Bounds(listed, name, c) ==> b == c)
  }

  lemma BoundsSame(a: seq<Alias>, b: seq<Alias>, name: string)
    requires multiset(a) == multiset(b)
    ensures forall c :: Bounds(a, name, c) <==> Bounds(b, name, c)
  {
    SameMembers(a, b);
  }

  lemma {:induction false} FirstIsBound(listed: seq<Alias>, name: string)
    ensures FirstOf(listed, name).Some? ==> FirstOf(listed, name).value in listed && FirstOf(listed, name).value.name == name
    ensures FirstOf(listed, name).Some? ==> Bounds(listed, name, BoundOf(Observed(FirstOf(listed, name).value)))
  {
    hide BoundOf;
    if |listed| > 0 && listed[0].name != name {
      FirstIsBound(listed[1..], name);
    }
  }

  lemma LeastKnownUnique(a: seq<Alias>, b: seq<Alias>, name: string, x: int, y: int)
    requires (forall c :: Bounds(a, name, c) <==> Bounds(b, name, c)) && LeastKnown(a, name, x) && LeastKnown(b, name, y)
    ensures x == y
  {
    hide Bounds;
    if x > 0 {
      assert Bounds(b, name, x);
    }
    if y > 0 {
      assert Bounds(a, name, y);
    }
  }

  lemma PlainSame(a: seq<Alias>, b: seq<Alias>, name: string)
    requires multiset(a) == multiset(b) && Plain(a, name)
    ensures BoundFor(a, name) == BoundFor(b, name)
  {
    hide Bounds, BoundOf, Kept, FirstOf, LeastKnown;
    BoundsSame(a, b, name);
    KeptExact(a, name);
    KeptExact(b, name);
    FirstIsBound(a, name);
    FirstIsBound(b, name);
    if FirstOf(a, name).Some? && FirstOf(b, name).Some? {
      var x, y := BoundOf(Observed(FirstOf(a, name).value)), BoundOf(Observed(FirstOf(b, name).value));
      if x >= 0 && y >= 0 {
        LeastKnownUnique(a, b, name, BoundOf(Kept(a, name).value), BoundOf(Kept(b, name).value));
      }
    }
  }

  /** Some rearrangement begins with a given alias. */
  lemma PutFirst(listed: seq<Alias>, a: Alias) returns (rest: seq<Alias>)
    requires a in listed
    ensures multiset([a] + rest) == multiset(listed)
  {
    var i :| 0 <= i < |listed| && listed[i] == a;
    rest := listed[..i] + listed[i + 1..];
    assert listed == listed[..i] + ([a] + listed[i + 1..]);
  }

  lemma FirstDecides(a: Alias, rest: seq<Alias>)
    ensures BoundFor([a] + rest, a.name).Some?
    ensures BoundOf(Observed(a)) < 0 ==> BoundFor([a] + rest, a.name) == Some(BoundOf(Observed(a)))
    ensures BoundOf(Observed(a)) >= 0 ==> BoundFor([a] + rest, a.name).value >= 0
  {
    hide BoundOf, Kept, Bounds;
    assert ([a] + rest)[0] == a;
    KeptExact([a] + rest, a.name);
  }

  /**
   A name's bound is the same for every order of the remote's aliases exactly
   when none of its bounds is negative, or all of them are one.
   */
  lemma BoundOrderExact(listed: seq<Alias>, name: string)
    ensures (forall b :: multiset(b) == multiset(listed) ==> BoundFor(b, name) == BoundFor(listed, name)) <==> Plain(listed, name)
  {
    hide BoundFor, BoundOf;
    if Plain(listed, name) {
      forall b | multiset(b) == multiset(listed) ensures BoundFor(b, name) == BoundFor(listed, name) {
        PlainSame(listed, b, name);
      }
    } else {
      var n :| Bounds(listed, name, n) && n < 0;
      var x, y :| Bounds(listed, name, x) && Bounds(listed, name, y) && x != y;
      var m := if x != n then x else y;
      var a :| a in listed && a.name == name && BoundOf(Observed(a)) == n;
      var b :| b in listed && b.name == name && BoundOf(Observed(b)) == m;
      var r := PutFirst(listed, a);
      var t := PutFirst(listed, b);
      FirstDecides(a, r);
      FirstDecides(b, t);
      assert BoundFor([a] + r, name) != BoundFor([b] + t, name);
    }
  }

  function AliasOfBound(maximum: int): Alias {
    Alias("far", "m", false, true, true, [], [], maximum, 0)
  }

  /** Two aliases of one name, one of them with a negative maximum: the first listed decides. */
  lemma NegativeFirst()
    ensures var low, high := AliasOfBound(-1), AliasOfBound(4096);
            BoundFor([low, high], "m") == Some(-1) && BoundFor([high, low], "m") == Some(4096)
  {
    var low, high := AliasOfBound(-1), AliasOfBound(4096);
    assert [low, high][..1] == [low] && [high, low][..1] == [high] && [low][..0] == [] && [high][..0] == [];
    assert Kept([low], "m") == Some(Observed(low)) && Kept([high], "m") == Some(Observed(high));
  }

  // ---- What a survey reads of it ----

  /** The profiles a remote's name is given: those reported that its host declares, or all the host declares when none are reported. */
  function ProfilesRead(h: Host, profiles: map<string, seq<string>>, name: string): (ps: seq<string>)
    ensures forall p :: p in ps <==> p in h.HostProfiles() && (name in profiles ==> p in profiles[name])
  {
    if name !in profiles then h.HostProfiles() else Among(profiles[name], h.HostProfiles())
  }

  function Among(reported: seq<string>, declared: seq<string>): (ps: seq<string>)
    ensures forall p :: p in ps <==> p in reported && p in declared
  {
    if |reported| == 0 then []
    else Among(reported[..|reported| - 1], declared) + if reported[|reported| - 1] in declared then [reported[|reported| - 1]] else []
  }
}
