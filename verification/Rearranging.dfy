/** Neither the order of a catalogue nor the order of the hosts' listings changes an offer. */
module Rearranging {
  import opened Basics
  import opened Order
  import opened Provenance
  import opened Hosts
  import opened Catalogue
  import opened Composition
  import opened Snapshots
  import opened Routing
  import opened Offers
  import opened Joining

  // ---- Another order of the catalogue ----

  /** Family for family the same names, each list in another order. */
  predicate NamesRearranged(a: seq<Family>, b: seq<Family>) {
    |a| == |b| && forall i :: 0 <= i < |a| ==> a[i].family == b[i].family && multiset(a[i].names) == multiset(b[i].names)
  }

  /** The same families in another order, each with its names in another order. */
  ghost predicate Rearranged(a: seq<Family>, b: seq<Family>) {
    exists mid :: NamesRearranged(a, mid) && multiset(mid) == multiset(b)
  }

  lemma {:induction false} PiecesSame<S, T>(xs: seq<S>, ys: seq<S>, f: S -> seq<T>)
    requires |xs| == |ys| && forall i :: 0 <= i < |xs| ==> multiset(f(xs[i])) == multiset(f(ys[i]))
    ensures multiset(Flat(xs, f)) == multiset(Flat(ys, f))
  {
    if |xs| > 0 {
      var n := |xs| - 1;
      PiecesSame(xs[..n], ys[..n], f);
    }
  }

  /** What a family's names count does not read the other families. */
  lemma SameFamilyParts(q: Query, r: Query, placement: Placement, f: Family)
    requires q.hosts == r.hosts && q.profile == r.profile && q.replies == r.replies && q.s.profiles == r.s.profiles
    ensures q.FromFamily(placement)(f) == r.FromFamily(placement)(f)
  {
    FlatSame(f.names, q.FromName(placement, f.family), r.FromName(placement, f.family));
  }

  lemma RearrangedNames(q: Query, placement: Placement, f: Family, g: Family)
    requires f.family == g.family && multiset(f.names) == multiset(g.names)
    ensures multiset(q.FromFamily(placement)(f)) == multiset(q.FromFamily(placement)(g))
  {
    FlatOrderFree(f.names, g.names, q.FromName(placement, f.family));
  }

  /** The answer does not depend on the order the catalogue lists families in, nor on the order each lists its names in. */
  lemma CatalogueOrderFree(q: Query, r: Query, placement: Placement, reserve: int)
    requires q.hosts == r.hosts && q.profile == r.profile && q.replies == r.replies && q.s.profiles == r.s.profiles
    requires Rearranged(q.s.families, r.s.families)
    ensures OffersFor(q, placement, reserve) == OffersFor(r, placement, reserve)
  {
    hide OffersFor, Query.FromFamily, Query.FromName;
    var a, b := q.s.families, r.s.families;
    var mid :| NamesRearranged(a, mid) && multiset(mid) == multiset(b);
    forall i | 0 <= i < |a| ensures multiset(q.FromFamily(placement)(a[i])) == multiset(q.FromFamily(placement)(mid[i])) {
      RearrangedNames(q, placement, a[i], mid[i]);
    }
    PiecesSame(a, mid, q.FromFamily(placement));
    FlatOrderFree(mid, b, q.FromFamily(placement));
    forall i | 0 <= i < |b| ensures q.FromFamily(placement)(b[i]) == r.FromFamily(placement)(b[i]) {
      SameFamilyParts(q, r, placement, b[i]);
    }
    FlatSame(b, q.FromFamily(placement), r.FromFamily(placement));
    OffersOrderFree(q, r, placement, reserve);
  }

  // ---- Another order of the hosts' listings ----

  /** The same reading, its two listings in another order. */
  ghost predicate SameReading(a: Reading, b: Reading) {
    && b == a.(resident := b.resident, installed := b.installed)
    && (forall name :: name in a.resident <==> name in b.resident)
    && (forall name :: name in a.installed <==> name in b.installed)
  }

  ghost predicate SameReadings(a: seq<Reading>, b: seq<Reading>) {
    |a| == |b| && forall i :: 0 <= i < |a| ==> SameReading(a[i], b[i])
  }

  lemma {:induction false} NotesForMember(names: seq<string>, resident: bool, host: nat, n: Noted)
    ensures n in NotesFor(names, resident, host) <==> n.host == host && n.resident == resident && n.name in names
  {
    if |names| > 0 {
      NotesForMember(names[..|names| - 1], resident, host, n);
      assert names == names[..|names| - 1] + [names[|names| - 1]];
    }
  }

  lemma {:induction false} NotesMember(readings: seq<Reading>, hosts: nat, n: Noted)
    requires hosts <= |readings|
    ensures n in Notes(readings, hosts) <==>
            n.host < hosts && n.name in if n.resident then readings[n.host].resident else readings[n.host].installed
  {
    if hosts > 0 {
      var r := readings[hosts - 1];
      NotesMember(readings, hosts - 1, n);
      NotesForMember(r.resident, true, hosts - 1, n);
      NotesForMember(r.installed, false, hosts - 1, n);
    }
  }

  /** The fold reads which names were noted and how, not when. */
  lemma SameAliases(a: Survey, b: Survey, ns: seq<Noted>, ms: seq<Noted>)
    requires a.Holds(ns) && b.Holds(ms) && (forall n :: n in ns <==> n in ms)
    requires SameReadings(a.inputs.readings, b.inputs.readings) && b.inputs == a.inputs.(readings := b.inputs.readings)
    ensures a.byFamily == b.byFamily && a.aliasFamily == b.aliasFamily
  {
    hide Inputs.FamilyOf, Inputs.Picked, Survey.Holds;
    forall name ensures a.inputs.FamilyOf(name) == b.inputs.FamilyOf(name) {
      SameFamily(a.inputs, b.inputs, name);
    }
    FamiliesInside(a, b, ns, ms);
    FamiliesInside(b, a, ms, ns);
    MapsSame(a.byFamily, b.byFamily);
    NamesInside(a, b, ns, ms);
    NamesInside(b, a, ms, ns);
  }

  lemma MapsSame(m: map<string, map<Served, Alias>>, n: map<string, map<Served, Alias>>)
    requires forall fam :: fam in m <==> fam in n
    requires forall fam, key :: fam in m && key in m[fam] ==> key in n[fam] && n[fam][key] == m[fam][key]
    requires forall fam, key :: fam in n && key in n[fam] ==> key in m[fam]
    ensures m == n
  {
    forall fam | fam in m ensures m[fam] == n[fam] {
      assert forall key :: key in m[fam] <==> key in n[fam];
    }
  }

  lemma SameFamily(a: Inputs, b: Inputs, name: string)
    requires b == a.(readings := b.readings)
    ensures a.FamilyOf(name) == b.FamilyOf(name)
  {
  }

  lemma SameAlias(a: Inputs, b: Inputs, ns: seq<Noted>, ms: seq<Noted>, key: Served)
    requires a.Valid() && b.Valid() && SameReadings(a.readings, b.readings) && b == a.(readings := b.readings)
    requires (forall n :: n in ns <==> n in ms) && key.0 < |a.hosts|
    ensures a.AliasOf(key, a.NotingResident(ns, key)) == b.AliasOf(key, b.NotingResident(ms, key))
  {
    assert SameReading(a.readings[key.0], b.readings[key.0]);
  }

  lemma AliasInside(a: Survey, b: Survey, ns: seq<Noted>, ms: seq<Noted>, fam: string, key: Served)
    requires a.Holds(ns) && b.Holds(ms) && (forall n :: n in ns <==> n in ms)
    requires SameReadings(a.inputs.readings, b.inputs.readings) && b.inputs == a.inputs.(readings := b.inputs.readings)
    requires fam in a.byFamily && key in a.byFamily[fam]
    ensures fam in b.byFamily && key in b.byFamily[fam] && b.byFamily[fam][key] == a.byFamily[fam][key]
  {
    hide Inputs.FamilyOf, Inputs.NotingResident, Inputs.Picked, SameReadings;
    var i := AliasNoted(a, ns, fam, key);
    assert ns[i] in ns && ns[i] in ms;
    var j :| 0 <= j < |ms| && ms[j] == ns[i];
    SameFamily(a.inputs, b.inputs, key.1);
    NoteListed(b, ms, j);
    SameAlias(a.inputs, b.inputs, ns, ms, key);
    assert a.AliasesHold(ns) && b.AliasesHold(ms);
    assert a.byFamily[fam][key] == a.inputs.AliasOf(key, a.inputs.NotingResident(ns, key));
    assert b.byFamily[fam][key] == b.inputs.AliasOf(key, b.inputs.NotingResident(ms, key));
  }

  lemma FamiliesInside(a: Survey, b: Survey, ns: seq<Noted>, ms: seq<Noted>)
    requires a.Holds(ns) && b.Holds(ms) && (forall n :: n in ns <==> n in ms)
    requires SameReadings(a.inputs.readings, b.inputs.readings) && b.inputs == a.inputs.(readings := b.inputs.readings)
    ensures forall fam :: fam in a.byFamily ==> fam in b.byFamily
    ensures forall fam, key :: fam in a.byFamily && key in a.byFamily[fam] ==>
              fam in b.byFamily && key in b.byFamily[fam] && b.byFamily[fam][key] == a.byFamily[fam][key]
  {
    hide Inputs.FamilyOf, Inputs.Picked, Inputs.NotingResident, SameReadings;
    forall fam, key | fam in a.byFamily && key in a.byFamily[fam]
      ensures fam in b.byFamily && key in b.byFamily[fam] && b.byFamily[fam][key] == a.byFamily[fam][key]
    {
      AliasInside(a, b, ns, ms, fam, key);
    }
    forall fam | fam in a.byFamily ensures fam in b.byFamily {
      assert a.AliasesHold(ns);
      var key :| key in a.byFamily[fam];
    }
  }

  lemma NamesInside(a: Survey, b: Survey, ns: seq<Noted>, ms: seq<Noted>)
    requires a.Holds(ns) && b.Holds(ms) && (forall n :: n in ns <==> n in ms)
    requires a.inputs.env == b.inputs.env
    requires forall name :: a.inputs.FamilyOf(name) == b.inputs.FamilyOf(name)
    ensures forall key :: key in a.aliasFamily ==> key in b.aliasFamily && b.aliasFamily[key] == a.aliasFamily[key]
  {
    hide Inputs.FamilyOf, Inputs.Picked, Inputs.AliasOf, Inputs.NotingResident;
    forall key | key in a.aliasFamily ensures key in b.aliasFamily && b.aliasFamily[key] == a.aliasFamily[key] {
      assert a.NamesHold(ns) && b.NamesHold(ms);
      var n :| n in ns && a.inputs.FamilyOf(n.name) != "" && a.inputs.env.lower(n.name) == key;
      assert n in ms;
    }
  }

  lemma {:induction false} SameProfiles(hosts: seq<Host>, a: seq<Reading>, b: seq<Reading>)
    requires |hosts| == |a| && SameReadings(a, b)
    ensures ProfilesOf(hosts, a) == ProfilesOf(hosts, b)
  {
    if |hosts| > 0 {
      var n := |hosts| - 1;
      assert SameReading(a[n], b[n]);
      SameProfiles(hosts[..n], a[..n], b[..n]);
    }
  }

  /** What a survey of rearranged listings leaves differs at most in the names it picks. */
  lemma SurveyOrderFree(inputs: Inputs, others: Inputs, view: View, one: Survey, two: Survey, s: Snapshot, t: Snapshot)
    requires inputs.Valid() && SameReadings(inputs.readings, others.readings) && others == inputs.(readings := others.readings)
    requires Surveyed(inputs, view, one, Notes(inputs.readings, |inputs.hosts|), s) && s.profiles == ProfilesOf(inputs.hosts, inputs.readings)
    requires Surveyed(others, view, two, Notes(others.readings, |others.hosts|), t) && t.profiles == ProfilesOf(others.hosts, others.readings)
    ensures t == s.(pick := t.pick)
  {
    hide Composed, FamiliesListed, Notes, SameReading, Survey.Holds, ProfilesOf;
    var n := |inputs.hosts|;
    forall m ensures m in Notes(inputs.readings, n) <==> m in Notes(others.readings, n) {
      NotesMember(inputs.readings, n, m);
      NotesMember(others.readings, n, m);
      if m.host < n {
        ReadingsAt(inputs.readings, others.readings, m.host);
      }
    }
    SameAliases(one, two, Notes(inputs.readings, n), Notes(others.readings, n));
    SameProfiles(inputs.hosts, inputs.readings, others.readings);
  }

  lemma ReadingsAt(a: seq<Reading>, b: seq<Reading>, i: nat)
    requires SameReadings(a, b) && i < |a|
    ensures forall name :: name in a[i].resident <==> name in b[i].resident
    ensures forall name :: name in a[i].installed <==> name in b[i].installed
  {
  }

  /** The offers are the same for every order of the hosts' listings. */
  lemma ListingOrderFree(inputs: Inputs, others: Inputs, view: View, one: Survey, two: Survey, q: Query, t: Snapshot, placement: Placement, reserve: int)
    requires inputs.Valid() && SameReadings(inputs.readings, others.readings) && others == inputs.(readings := others.readings)
    requires Surveyed(inputs, view, one, Notes(inputs.readings, |inputs.hosts|), q.s) && q.s.profiles == ProfilesOf(inputs.hosts, inputs.readings)
    requires Surveyed(others, view, two, Notes(others.readings, |others.hosts|), t) && t.profiles == ProfilesOf(others.hosts, others.readings)
    ensures OffersFor(q, placement, reserve) == OffersFor(q.(s := t), placement, reserve)
  {
    hide OffersFor, Surveyed, SameReadings, Notes, ProfilesOf;
    SurveyOrderFree(inputs, others, view, one, two, q.s, t);
    assert NamesRearranged(q.s.families, q.s.families);
    CatalogueOrderFree(q, q.(s := t), placement, reserve);
  }
}
