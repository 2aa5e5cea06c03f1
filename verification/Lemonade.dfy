/** The contexts of one Lemonade server's models: its listing and its loaded models read first, the pool's answers merged last. */
module Lemonade {
  import opened Basics
  import opened Order
  import opened Hosts
  import opened Catalogue
  import opened Offers
  import opened Workers

  /** One entry of the server's listing; length is 0 when it is not a positive integer. */
  datatype Entry = Entry(id: string, checkpoint: string, cloud: bool, downloaded: bool, maximum: int, length: int) {
    function AsListing(): Listing {
      Listing(id, checkpoint, cloud)
    }

    function AsModel(): Model {
      Model(id, maximum)
    }

    predicate Loaded(loaded: map<string, int>) {
      id in loaded || (checkpoint != "" && checkpoint in loaded)
    }

    /** The context the listing and the loaded models give without asking. */
    function Value(loaded: map<string, int>): ModelContext {
      if cloud then ModelContext(maximum, ValidEffective(length, maximum))
      else if id in loaded then ModelContext(maximum, ValidEffective(loaded[id], maximum))
      else if checkpoint != "" && checkpoint in loaded then ModelContext(maximum, ValidEffective(loaded[checkpoint], maximum))
      else ModelContext(maximum, 0)
    }

    /** The server's options are to be asked for it. */
    predicate Asks(loaded: map<string, int>, wanted: set<string>) {
      downloaded && !cloud && !Loaded(loaded) && (id in wanted || checkpoint in wanted)
    }
  }

  // ---- The first pass ----

  function Started(models: seq<Entry>, loaded: map<string, int>, wanted: set<string>): map<string, ModelContext> {
    if |models| == 0 then map[]
    else
      var before, m := Started(models[..|models| - 1], loaded, wanted), models[|models| - 1];
      if m.downloaded then Put(before, m.AsListing(), m.Value(loaded), wanted) else before
  }

  predicate AskedFor(asked: seq<Model>, id: string) {
    exists i :: 0 <= i < |asked| && asked[i].id == id
  }

  /** The models to ask for, the first of each id. */
  function ToAsk(models: seq<Entry>, loaded: map<string, int>, wanted: set<string>): (asked: seq<Model>)
    ensures forall i, j :: 0 <= i < j < |asked| ==> asked[i].id != asked[j].id
  {
    if |models| == 0 then []
    else
      var before, m := ToAsk(models[..|models| - 1], loaded, wanted), models[|models| - 1];
      if m.Asks(loaded, wanted) && !AskedFor(before, m.id) then before + [m.AsModel()] else before
  }

  method FirstPass(models: seq<Entry>, loaded: map<string, int>, wanted: set<string>)
    returns (out: map<string, ModelContext>, asked: seq<Model>)
    ensures out == Started(models, loaded, wanted) && asked == ToAsk(models, loaded, wanted)
  {
    out, asked := map[], [];
    var seen: set<string> := {};
    for i := 0 to |models|
      invariant out == Started(models[..i], loaded, wanted) && asked == ToAsk(models[..i], loaded, wanted)
      invariant forall id :: id in seen <==> AskedFor(asked, id)
    {
      hide Put;
      assert models[..i + 1][..i] == models[..i];
      var m := models[i];
      if m.downloaded {
        if !m.cloud && !m.Loaded(loaded) && (m.id in wanted || m.checkpoint in wanted) && m.id !in seen {
          ghost var before := asked;
          seen, asked := seen + {m.id}, asked + [m.AsModel()];
          AskedNext(before, m.AsModel());
        }
        out := Put(out, m.AsListing(), m.Value(loaded), wanted);
      }
    }
    assert models[..|models|] == models;
  }

  lemma AskedNext(asked: seq<Model>, m: Model)
    ensures forall id :: AskedFor(asked + [m], id) <==> AskedFor(asked, id) || id == m.id
  {
    forall id ensures AskedFor(asked + [m], id) <==> AskedFor(asked, id) || id == m.id {
      if i :| 0 <= i < |asked| && asked[i].id == id {
        assert (asked + [m])[i].id == id;
      }
      if id == m.id {
        assert (asked + [m])[|asked|].id == id;
      }
    }
  }

  // ---- Loaded models the listing does not name ----

  function WithLoaded(out: map<string, ModelContext>, loaded: map<string, int>, wanted: set<string>): map<string, ModelContext> {
    map name | name in out.Keys + loaded.Keys * wanted :: if name in out then out[name] else ModelContext(0, loaded[name])
  }

  /** The loaded models in whatever order their map is read. */
  method AddLoaded(started: map<string, ModelContext>, loaded: map<string, int>, wanted: set<string>) returns (out: map<string, ModelContext>)
    ensures out == WithLoaded(started, loaded, wanted)
  {
    hide WithLoaded;
    out := started;
    var rest := loaded.Keys;
    while rest != {}
      invariant rest <= loaded.Keys
      invariant forall name :: name in out <==> name in started || (name in wanted && name in loaded && name !in rest)
      invariant forall name :: name in out ==> out[name] == if name in started then started[name] else ModelContext(0, loaded[name])
      decreases |rest|
    {
      var name :| name in rest;
      if name in wanted && name !in out {
        out := out[name := ModelContext(0, loaded[name])];
      }
      rest := rest - {name};
    }
    WithLoadedIs(out, started, loaded, wanted);
  }

  lemma WithLoadedIs(out: map<string, ModelContext>, started: map<string, ModelContext>, loaded: map<string, int>, wanted: set<string>)
    requires forall name :: name in out <==> name in started || (name in wanted && name in loaded)
    requires forall name :: name in out ==> out[name] == if name in started then started[name] else ModelContext(0, loaded[name])
    ensures out == WithLoaded(started, loaded, wanted)
  {
  }

  // ---- The whole answer ----

  /** lemonadeModelContexts: loaded is None when the server's health could not be read; values is what the pool resolved. */
  function Returned(models: seq<Entry>, loaded: Option<map<string, int>>, wanted: set<string>, values: map<string, ModelContext>): map<string, ModelContext> {
    match loaded
    case None => Started(models, map[], wanted)
    case Some(l) => Merged(WithLoaded(Started(models, l, wanted), l, wanted), Listings(models), values, wanted)
  }

  function Listings(models: seq<Entry>): (r: seq<Listing>)
    ensures |r| == |models| && forall i :: 0 <= i < |models| ==> r[i] == models[i].AsListing()
  {
    seq(|models|, i requires 0 <= i < |models| => models[i].AsListing())
  }

  /**
   Whatever the interleaving of the workers and the order the loaded models are
   read in, the same contexts are returned.
   */
  lemma ContextsAgree(models: seq<Entry>, loaded: map<string, int>, wanted: set<string>, reply: Model -> Option<int>, one: seq<State>, other: seq<State>)
    requires var asked := ToAsk(models, loaded, wanted);
             && Run(reply, asked, one) && Run(reply, asked, other)
             && Finished(one[|one| - 1]) && Finished(other[|other| - 1])
    ensures Returned(models, Some(loaded), wanted, ValuesOf(one[|one| - 1].results)) ==
            Returned(models, Some(loaded), wanted, ValuesOf(other[|other| - 1].results))
  {
    hide ToAsk, Run, Finished, Started, Merged, WithLoaded, ValuesOf;
    RunStarted(reply, ToAsk(models, loaded, wanted), one);
    RunStarted(reply, ToAsk(models, loaded, wanted), other);
    SameContexts(reply, ToAsk(models, loaded, wanted), one, other, WithLoaded(Started(models, loaded, wanted), loaded, wanted), Listings(models), wanted);
  }

  /** With nothing to ask the pool is not started, and merging nothing changes nothing. */
  lemma NothingAsked(models: seq<Entry>, out: map<string, ModelContext>, wanted: set<string>)
    ensures Merged(out, Listings(models), map[], wanted) == out
  {
    var r := Merged(out, Listings(models), map[], wanted);
    forall name ensures (name in r <==> name in out) && (name in out ==> r[name] == out[name]) {
      MergedKeeps(out, Listings(models), map[], wanted, name);
    }
    assert r == out;
  }

  lemma RunStarted(reply: Model -> Option<int>, models: seq<Model>, states: seq<State>)
    requires Run(reply, models, states)
    ensures |states| > 0
  {
  }

  /** A name is asked for exactly when a downloaded local model that is not loaded goes by it as its id, and its id or checkpoint is wanted. */
  lemma {:induction false} AskedExact(models: seq<Entry>, loaded: map<string, int>, wanted: set<string>, id: string)
    ensures AskedFor(ToAsk(models, loaded, wanted), id) <==> exists m :: m in models && m.id == id && m.Asks(loaded, wanted)
  {
    hide Entry.Asks;
    if |models| > 0 {
      var n := |models| - 1;
      AskedExact(models[..n], loaded, wanted, id);
      AskedNext(ToAsk(models[..n], loaded, wanted), models[n].AsModel());
      assert models == models[..n] + [models[n]];
      assert models[n] in models && forall m :: m in models <==> m in models[..n] || m == models[n];
    }
  }

  /** Every context the first pass gives of itself is 0 or at most a positive maximum. */
  lemma ValueBounded(m: Entry, loaded: map<string, int>)
    ensures var v := m.Value(loaded); v.effective >= 0 && (v.maximum > 0 ==> v.effective <= v.maximum)
  {
  }

  // ---- What a name is answered ----

  /** A length counts when it is positive and not above a positive maximum. */
  function Counts(length: int, maximum: int): int {
    if length > 0 && (maximum <= 0 || length <= maximum) then length else 0
  }

  predicate GoesBy(m: Entry, name: string) {
    m.id == name || (m.checkpoint != "" && m.checkpoint == name)
  }

  /** The length the server gives for an entry without being asked: a cloud provider's own, else the loaded model's. */
  function Told(m: Entry, loaded: map<string, int>): int {
    if m.cloud then m.length
    else if m.id in loaded then loaded[m.id]
    else if m.checkpoint != "" && m.checkpoint in loaded then loaded[m.checkpoint]
    else 0
  }

  lemma StartedPush(models: seq<Entry>, loaded: map<string, int>, wanted: set<string>, name: string)
    requires |models| > 0
    ensures var m, before, r := models[|models| - 1], Started(models[..|models| - 1], loaded, wanted), Started(models, loaded, wanted);
            if name in wanted && m.downloaded && GoesBy(m, name) then name in r && r[name] == ModelContext(m.maximum, Counts(Told(m, loaded), m.maximum))
            else (name in r <==> name in before) && (name in r ==> r[name] == before[name])
  {
    hide Put, Started;
    var m := models[|models| - 1];
    StartedNext(models, loaded, wanted);
    PutGives(Started(models[..|models| - 1], loaded, wanted), m.AsListing(), m.Value(loaded), wanted, name);
  }

  lemma StartedNext(models: seq<Entry>, loaded: map<string, int>, wanted: set<string>)
    requires |models| > 0
    ensures var m, before := models[|models| - 1], Started(models[..|models| - 1], loaded, wanted);
            Started(models, loaded, wanted) == if m.downloaded then Put(before, m.AsListing(), m.Value(loaded), wanted) else before
  {
    hide Put;
  }

  /** A wanted name starts with what the last downloaded entry of that id or checkpoint says; other names are not there. */
  lemma {:induction false} StartedExact(models: seq<Entry>, loaded: map<string, int>, wanted: set<string>, name: string)
    ensures name in Started(models, loaded, wanted) <==> name in wanted && exists m :: m in models && m.downloaded && GoesBy(m, name)
    ensures name in Started(models, loaded, wanted) ==>
              exists i :: && 0 <= i < |models| && models[i].downloaded && GoesBy(models[i], name)
                          && (forall j :: i < j < |models| ==> !(models[j].downloaded && GoesBy(models[j], name)))
                          && Started(models, loaded, wanted)[name] == ModelContext(models[i].maximum, Counts(Told(models[i], loaded), models[i].maximum))
  {
    hide GoesBy, Told, Counts, Started;
    if |models| == 0 {
      NothingStarted(loaded, wanted);
    } else {
      var n := |models| - 1;
      var front, m := models[..n], models[n];
      StartedExact(front, loaded, wanted, name);
      StartedPush(models, loaded, wanted, name);
      assert models == front + [m];
      assert m in models && forall x :: x in models <==> x in front || x == m;
      if name in Started(models, loaded, wanted) && !(name in wanted && m.downloaded && GoesBy(m, name)) {
        var i :| && 0 <= i < |front| && front[i].downloaded && GoesBy(front[i], name)
                 && (forall j :: i < j < |front| ==> !(front[j].downloaded && GoesBy(front[j], name)))
                 && Started(front, loaded, wanted)[name] == ModelContext(front[i].maximum, Counts(Told(front[i], loaded), front[i].maximum));
        assert models[i] == front[i] && forall j :: i < j < n ==> models[j] == front[j];
      }
    }
  }

  lemma NothingStarted(loaded: map<string, int>, wanted: set<string>)
    ensures Started([], loaded, wanted) == map[]
  {
  }

  /** What is asked for an id is the first entry of that id that is to be asked. */
  lemma {:induction false} AskedFirst(models: seq<Entry>, loaded: map<string, int>, wanted: set<string>, k: nat)
    requires k < |ToAsk(models, loaded, wanted)|
    ensures exists i :: && 0 <= i < |models| && models[i].AsModel() == ToAsk(models, loaded, wanted)[k] && models[i].Asks(loaded, wanted)
                        && forall j :: 0 <= j < i && models[j].id == models[i].id ==> !models[j].Asks(loaded, wanted)
  {
    hide Entry.Asks;
    var n := |models| - 1;
    var front, asked, m := models[..n], ToAsk(models[..n], loaded, wanted), models[n];
    assert models == front + [m];
    if k < |asked| {
      AskedFirst(front, loaded, wanted, k);
      var i :| && 0 <= i < |front| && front[i].AsModel() == asked[k] && front[i].Asks(loaded, wanted)
               && forall j :: 0 <= j < i && front[j].id == front[i].id ==> !front[j].Asks(loaded, wanted);
      assert models[i] == front[i];
    } else {
      assert ToAsk(models, loaded, wanted)[k] == m.AsModel();
      forall j | 0 <= j < n && models[j].id == m.id ensures !models[j].Asks(loaded, wanted) {
        AskedExact(front, loaded, wanted, m.id);
        assert models[j] == front[j] && front[j] in front;
      }
      assert models[n] == m;
    }
  }

  /** The server told the pool something of this model. */
  predicate Resolves(asked: seq<Model>, reply: Model -> Option<int>, id: string) {
    exists k :: 0 <= k < |asked| && asked[k].id == id && reply(asked[k]).Some?
  }

  /** The values of a finished run are the replies that count. */
  lemma ResolvedExact(asked: seq<Model>, reply: Model -> Option<int>, states: seq<State>, id: string)
    requires Run(reply, asked, states) && Finished(states[|states| - 1])
    requires forall i, j :: 0 <= i < j < |asked| ==> asked[i].id != asked[j].id
    ensures var values := ValuesOf(states[|states| - 1].results);
            && (id in values <==> Resolves(asked, reply, id))
            && forall k :: 0 <= k < |asked| && asked[k].id == id && reply(asked[k]).Some? ==>
                 id in values && values[id] == ModelContext(asked[k].maximum, Counts(reply(asked[k]).value, asked[k].maximum))
  {
    hide Finished, Run, ValuesOf, ValidEffective, Counts;
    RunStarted(reply, asked, states);
    var results := states[|states| - 1].results;
    SameResults(reply, asked, states);
    SameMembers(results, Flat(asked, AnswersFor(reply)));
    forall a, b | a in results && b in results && a.model.id == b.model.id ensures a == b {
      SameResult(reply, asked, states, a, b);
    }
    ValuesExact(results, id);
    if a :| a in results && a.model.id == id {
      AnswerGiven(reply, asked, a);
      var k :| 0 <= k < |asked| && asked[k] == a.model;
    }
    forall k | 0 <= k < |asked| && asked[k].id == id && reply(asked[k]).Some?
      ensures id in ValuesOf(results) && ValuesOf(results)[id] == ModelContext(asked[k].maximum, Counts(reply(asked[k]).value, asked[k].maximum))
    {
      var a := Answer(asked[k], ValidEffective(reply(asked[k]).value, asked[k].maximum));
      FlatMember(asked, AnswersFor(reply), a);
      assert a in AnswersFor(reply)(asked[k]);
      CountsExact(reply(asked[k]).value, asked[k].maximum);
    }
  }

  lemma CountsExact(length: int, maximum: int)
    ensures ValidEffective(length, maximum) == Counts(length, maximum)
  {
  }

  /** The entry gives the name a value the pool resolved. */
  predicate Decides(m: Entry, asked: seq<Model>, reply: Model -> Option<int>, name: string) {
    !m.cloud && GoesBy(m, name) && Resolves(asked, reply, m.id)
  }

  /**
   What a name is answered after any finished run: a name nobody wants, nothing;
   otherwise the reply for the last local entry that goes by it and was resolved;
   failing that what the listing said of it; and failing that what is loaded under
   it.
   */
  lemma AnsweredExact(models: seq<Entry>, loaded: map<string, int>, wanted: set<string>, reply: Model -> Option<int>, states: seq<State>, name: string)
    requires var asked := ToAsk(models, loaded, wanted); Run(reply, asked, states) && Finished(states[|states| - 1])
    ensures |states| > 0
    ensures var asked, r := ToAsk(models, loaded, wanted), Returned(models, Some(loaded), wanted, ValuesOf(states[|states| - 1].results));
            && (name !in wanted ==> name !in r)
            && (forall i, k :: && name in wanted && 0 <= i < |models| && 0 <= k < |asked| && asked[k].id == models[i].id && reply(asked[k]).Some?
                               && Decides(models[i], asked, reply, name) && (forall j :: i < j < |models| ==> !Decides(models[j], asked, reply, name)) ==>
                 name in r && r[name] == ModelContext(asked[k].maximum, Counts(reply(asked[k]).value, asked[k].maximum)))
            && (name in wanted && (forall m :: m in models ==> !Decides(m, asked, reply, name)) ==>
                  if name in Started(models, loaded, wanted) then name in r && r[name] == Started(models, loaded, wanted)[name]
                  else if name in loaded then name in r && r[name] == ModelContext(0, loaded[name])
                  else name !in r)
  {
    hide Run, Finished, Started, ToAsk, ValuesOf, Merged, WithLoaded, Counts, GoesBy, Resolves;
    var asked := ToAsk(models, loaded, wanted);
    RunStarted(reply, asked, states);
    var values, base, listed := ValuesOf(states[|states| - 1].results), WithLoaded(Started(models, loaded, wanted), loaded, wanted), Listings(models);
    LoadedOver(models, loaded, wanted, name);
    forall m: Entry ensures NamedBy(m.AsListing(), name, values) <==> Decides(m, asked, reply, name) {
      ResolvedExact(asked, reply, states, m.id);
      NamedGoes(m, name, values);
    }
    if name !in wanted || forall m :: m in models ==> !Decides(m, asked, reply, name) {
      forall l | l in listed && name in wanted ensures !NamedBy(l, name, values) {
        var i :| 0 <= i < |listed| && listed[i] == l;
        assert l == models[i].AsListing();
      }
      MergedKeeps(base, listed, values, wanted, name);
    }
    forall i, k | && name in wanted && 0 <= i < |models| && 0 <= k < |asked| && asked[k].id == models[i].id && reply(asked[k]).Some?
                  && Decides(models[i], asked, reply, name) && (forall j :: i < j < |models| ==> !Decides(models[j], asked, reply, name))
      ensures var r := Merged(base, listed, values, wanted); name in r && r[name] == ModelContext(asked[k].maximum, Counts(reply(asked[k]).value, asked[k].maximum))
    {
      ResolvedExact(asked, reply, states, models[i].id);
      MergedLast(base, listed, values, wanted, name, i);
    }
  }

  lemma NamedGoes(m: Entry, name: string, values: map<string, ModelContext>)
    ensures NamedBy(m.AsListing(), name, values) <==> !m.cloud && m.id in values && GoesBy(m, name)
  {
  }

  lemma LoadedOver(models: seq<Entry>, loaded: map<string, int>, wanted: set<string>, name: string)
    ensures var started := Started(models, loaded, wanted);
            var r := WithLoaded(started, loaded, wanted);
            && (name in r <==> name in started || (name in wanted && name in loaded))
            && (name in r ==> r[name] == if name in started then started[name] else ModelContext(0, loaded[name]))
            && (name in started ==> name in wanted)
  {
    hide Started;
    StartedExact(models, loaded, wanted, name);
  }
}
