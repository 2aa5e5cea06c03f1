/**
 The worker pool that asks one server for the context of each model at a time:
 every interleaving of the workers, with the server's replies fixed.
 */
module Workers {
  import opened Basics
  import opened Order
  import opened Hosts
  import opened Catalogue
  import opened Offers

  datatype Model = Model(id: string, maximum: int)

  datatype Answer = Answer(model: Model, resolved: int)

  datatype Worker = Idle | Fetching(model: Model) | Sending(answer: Answer) | Exited

  /** The jobs still in their channel, what each worker is doing, and what was sent. */
  datatype State = State(jobs: seq<Model>, workers: seq<Worker>, results: seq<Answer>)

  const CONCURRENCY := 4

  /** One model's answer, when the server gives one. */
  function AnswersFor(reply: Model -> Option<int>): Model -> seq<Answer> {
    (m: Model) => match reply(m) case Some(v) => [Answer(m, ValidEffective(v, m.maximum))] case None => []
  }

  function Start(models: seq<Model>): State {
    State(models, seq(if |models| < CONCURRENCY then |models| else CONCURRENCY, i => Idle), [])
  }

  /** Worker w moves: it takes a job or leaves, its request ends, or its send goes through, which needs room in the channel. */
  predicate Moves(reply: Model -> Option<int>, capacity: nat, s: State, t: State, w: nat) {
    w < |s.workers| &&
    match s.workers[w]
    case Idle =>
      if s.jobs == [] then t == s.(workers := s.workers[w := Exited])
      else t == s.(jobs := s.jobs[1..], workers := s.workers[w := Fetching(s.jobs[0])])
    case Fetching(m) =>
      (match reply(m)
       case Some(v) => t == s.(workers := s.workers[w := Sending(Answer(m, ValidEffective(v, m.maximum)))])
       case None => t == s.(workers := s.workers[w := Idle]))
    case Sending(a) => |s.results| < capacity && t == s.(results := s.results + [a], workers := s.workers[w := Idle])
    case Exited => false
  }

  /** A run: each state follows from the one before by some worker's move. */
  ghost predicate Run(reply: Model -> Option<int>, models: seq<Model>, states: seq<State>) {
    && |states| > 0 && states[0] == Start(models)
    && forall i :: 0 <= i < |states| - 1 ==> Follows(reply, |models|, states[i], states[i + 1])
  }

  ghost predicate Follows(reply: Model -> Option<int>, capacity: nat, s: State, t: State) {
    exists w :: Moves(reply, capacity, s, t, w)
  }

  // ---- What every state keeps ----

  function Fetched(reply: Model -> Option<int>): Worker -> seq<Answer> {
    (w: Worker) => match w case Fetching(m) => AnswersFor(reply)(m) case Sending(a) => [a] case _ => []
  }

  function Busy(w: Worker): seq<Worker> {
    if w.Fetching? || w.Sending? then [w] else []
  }

  /** Every answer is sent, held or still to come, none of them twice; and no more are out than there were jobs. */
  ghost predicate Accounted(reply: Model -> Option<int>, models: seq<Model>, s: State) {
    && multiset(s.results) + multiset(Flat(s.workers, Fetched(reply))) + multiset(Flat(s.jobs, AnswersFor(reply))) == multiset(Flat(models, AnswersFor(reply)))
    && |s.results| + |Flat(s.workers, Busy)| + |s.jobs| <= |models|
    && (Exited in s.workers ==> s.jobs == [])
  }

  lemma {:induction false} FlatUpdate<S, T>(xs: seq<S>, f: S -> seq<T>, i: nat, x: S)
    requires i < |xs|
    ensures multiset(Flat(xs[i := x], f)) + multiset(f(xs[i])) == multiset(Flat(xs, f)) + multiset(f(x))
  {
    hide Flat;
    FlatRemove(xs, f, i);
    FlatRemove(xs[i := x], f, i);
    assert xs[i := x][..i] + xs[i := x][i + 1..] == xs[..i] + xs[i + 1..];
  }

  lemma FlatFirst<S, T>(xs: seq<S>, f: S -> seq<T>)
    requires |xs| > 0
    ensures multiset(Flat(xs, f)) == multiset(f(xs[0])) + multiset(Flat(xs[1..], f))
  {
    hide Flat;
    FlatRemove(xs, f, 0);
    assert xs[..0] + xs[1..] == xs[1..];
  }

  lemma StartAccounted(reply: Model -> Option<int>, models: seq<Model>)
    ensures Accounted(reply, models, Start(models))
  {
    var s := Start(models);
    NoneHold(s.workers, Idle, Fetched(reply));
    NoneHold(s.workers, Idle, Busy);
  }

  lemma {:induction false} NoneHold<T>(workers: seq<Worker>, x: Worker, f: Worker -> seq<T>)
    requires forall i :: 0 <= i < |workers| ==> workers[i] == x
    requires f(x) == []
    ensures Flat(workers, f) == []
  {
    if |workers| > 0 {
      NoneHold(workers[..|workers| - 1], x, f);
    }
  }

  lemma BusyCount(workers: seq<Worker>, w: nat, next: Worker)
    requires w < |workers|
    ensures |Flat(workers[w := next], Busy)| + |Busy(workers[w])| == |Flat(workers, Busy)| + |Busy(next)|
  {
    FlatUpdate(workers, Busy, w, next);
    var before, after := multiset(Flat(workers, Busy)), multiset(Flat(workers[w := next], Busy));
    assert |after + multiset(Busy(workers[w]))| == |after| + |Busy(workers[w])|;
    assert |before + multiset(Busy(next))| == |before| + |Busy(next)|;
  }

  /** What the workers hold after one of them changes. */
  lemma HeldUpdate(workers: seq<Worker>, reply: Model -> Option<int>, w: nat, next: Worker)
    requires w < |workers|
    ensures var before, after := multiset(Flat(workers, Fetched(reply))), multiset(Flat(workers[w := next], Fetched(reply)));
            var was, now := Fetched(reply)(workers[w]), Fetched(reply)(next);
            && (was == now ==> after == before)
            && (was == [] ==> after == before + multiset(now))
            && (now == [] ==> before == after + multiset(was))
  {
    FlatUpdate(workers, Fetched(reply), w, next);
    var before, after := multiset(Flat(workers, Fetched(reply))), multiset(Flat(workers[w := next], Fetched(reply)));
    var was, now := Fetched(reply)(workers[w]), Fetched(reply)(next);
    Cancel(after, multiset(was), before, multiset(now));
  }

  lemma Cancel<T>(a: multiset<T>, x: multiset<T>, b: multiset<T>, y: multiset<T>)
    requires a + x == b + y
    ensures x == y ==> a == b
    ensures x == multiset{} ==> a == b + y
    ensures y == multiset{} ==> b == a + x
  {
    if x == y {
      forall t ensures a[t] == b[t] {
        assert (a + x)[t] == (b + y)[t];
      }
    }
  }

  lemma StillExited(workers: seq<Worker>, w: nat, next: Worker)
    requires w < |workers| && next != Exited && Exited in workers[w := next]
    ensures Exited in workers
  {
  }

  /** Every move keeps the account. */
  lemma MoveAccounted(reply: Model -> Option<int>, models: seq<Model>, s: State, t: State, w: nat)
    requires Accounted(reply, models, s) && Moves(reply, |models|, s, t, w)
    ensures Accounted(reply, models, t)
  {
    hide Accounted, Flat;
    match s.workers[w]
    case Idle =>
      if s.jobs == [] {
        LeaveAccounted(reply, models, s, t, w);
      } else {
        TakeAccounted(reply, models, s, t, w);
      }
    case Fetching(_) => FetchAccounted(reply, models, s, t, w);
    case Sending(_) => SendAccounted(reply, models, s, t, w);
    case _ =>
  }

  lemma LeaveAccounted(reply: Model -> Option<int>, models: seq<Model>, s: State, t: State, w: nat)
    requires Accounted(reply, models, s) && Moves(reply, |models|, s, t, w) && s.workers[w] == Idle && s.jobs == []
    ensures Accounted(reply, models, t)
  {
    hide Flat;
    HeldUpdate(s.workers, reply, w, Exited);
    BusyCount(s.workers, w, Exited);
    assert Fetched(reply)(Idle) == [] && Fetched(reply)(Exited) == [];
  }

  lemma TakeAccounted(reply: Model -> Option<int>, models: seq<Model>, s: State, t: State, w: nat)
    requires Accounted(reply, models, s) && Moves(reply, |models|, s, t, w) && s.workers[w] == Idle && s.jobs != []
    ensures Accounted(reply, models, t)
  {
    hide Flat;
    var m := s.jobs[0];
    HeldUpdate(s.workers, reply, w, Fetching(m));
    BusyCount(s.workers, w, Fetching(m));
    FlatFirst(s.jobs, AnswersFor(reply));
    assert Fetched(reply)(Idle) == [] && Fetched(reply)(Fetching(m)) == AnswersFor(reply)(m);
    if Exited in t.workers {
      StillExited(s.workers, w, Fetching(m));
    }
  }

  lemma FetchAccounted(reply: Model -> Option<int>, models: seq<Model>, s: State, t: State, w: nat)
    requires Accounted(reply, models, s) && Moves(reply, |models|, s, t, w) && s.workers[w].Fetching?
    ensures Accounted(reply, models, t)
  {
    hide Flat;
    var m := s.workers[w].model;
    HeldUpdate(s.workers, reply, w, t.workers[w]);
    BusyCount(s.workers, w, t.workers[w]);
    assert Fetched(reply)(s.workers[w]) == AnswersFor(reply)(m) == Fetched(reply)(t.workers[w]);
    if Exited in t.workers {
      StillExited(s.workers, w, t.workers[w]);
    }
  }

  lemma SendAccounted(reply: Model -> Option<int>, models: seq<Model>, s: State, t: State, w: nat)
    requires Accounted(reply, models, s) && Moves(reply, |models|, s, t, w) && s.workers[w].Sending?
    ensures Accounted(reply, models, t)
  {
    hide Flat;
    var a := s.workers[w].answer;
    HeldUpdate(s.workers, reply, w, Idle);
    BusyCount(s.workers, w, Idle);
    assert Fetched(reply)(s.workers[w]) == [a] && Fetched(reply)(Idle) == [];
    assert multiset(s.results + [a]) == multiset(s.results) + multiset{a};
    if Exited in t.workers {
      StillExited(s.workers, w, Idle);
    }
  }

  lemma {:induction false} RunAccounted(reply: Model -> Option<int>, models: seq<Model>, states: seq<State>)
    requires Run(reply, models, states)
    ensures Accounted(reply, models, states[|states| - 1])
  {
    hide Accounted, Moves, Start;
    var n := |states| - 1;
    if n == 0 {
      StartAccounted(reply, models);
    } else {
      var before := states[..n];
      forall i | 0 <= i < |before| - 1 ensures Follows(reply, |models|, before[i], before[i + 1]) {
        assert Follows(reply, |models|, states[i], states[i + 1]);
      }
      RunAccounted(reply, models, before);
      assert Follows(reply, |models|, states[n - 1], states[n - 1 + 1]);
      var w :| Moves(reply, |models|, states[n - 1], states[n], w);
      MoveAccounted(reply, models, states[n - 1], states[n], w);
    }
  }

  // ---- No send blocks, every run ends, and the results are the same ----

  /** In any state of any run, every worker that has not left can move; a send in particular always has room. */
  lemma NoWorkerBlocks(reply: Model -> Option<int>, models: seq<Model>, states: seq<State>, w: nat)
    requires Run(reply, models, states)
    requires var s := states[|states| - 1]; w < |s.workers| && s.workers[w] != Exited
    ensures var s := states[|states| - 1];
            && (exists t :: Moves(reply, |models|, s, t, w))
            && (s.workers[w].Sending? ==> |s.results| < |models|)
  {
    var s := states[|states| - 1];
    RunAccounted(reply, models, states);
    if s.workers[w].Sending? {
      assert Busy(s.workers[w]) == [s.workers[w]];
      FlatMember(s.workers, Busy, s.workers[w]);
    }
    MoveExists(reply, |models|, s, w);
  }

  lemma MoveExists(reply: Model -> Option<int>, capacity: nat, s: State, w: nat)
    requires w < |s.workers| && s.workers[w] != Exited && (s.workers[w].Sending? ==> |s.results| < capacity)
    ensures exists t :: Moves(reply, capacity, s, t, w)
  {
    match s.workers[w] {
      case Idle =>
        var t := if s.jobs == [] then s.(workers := s.workers[w := Exited]) else s.(jobs := s.jobs[1..], workers := s.workers[w := Fetching(s.jobs[0])]);
        assert Moves(reply, capacity, s, t, w);
      case Fetching(m) =>
        var next := match reply(m) case Some(v) => Sending(Answer(m, ValidEffective(v, m.maximum))) case None => Idle;
        assert Moves(reply, capacity, s, s.(workers := s.workers[w := next]), w);
      case Sending(a) =>
        assert Moves(reply, capacity, s, s.(results := s.results + [a], workers := s.workers[w := Idle]), w);
      case _ =>
    }
  }

  /** What a worker still has ahead of it. */
  function Ahead(w: Worker): nat {
    match w case Idle => 1 case Fetching(_) => 3 case Sending(_) => 2 case Exited => 0
  }

  function AllAhead(workers: seq<Worker>): nat {
    if |workers| == 0 then 0 else AllAhead(workers[..|workers| - 1]) + Ahead(workers[|workers| - 1])
  }

  function Work(s: State): nat {
    3 * |s.jobs| + AllAhead(s.workers)
  }

  lemma {:induction false} AheadUpdate(workers: seq<Worker>, w: nat, next: Worker)
    requires w < |workers|
    ensures AllAhead(workers[w := next]) + Ahead(workers[w]) == AllAhead(workers) + Ahead(next)
  {
    hide Ahead;
    var n := |workers| - 1;
    if w < n {
      AheadUpdate(workers[..n], w, next);
      assert workers[w := next][..n] == workers[..n][w := next];
    } else {
      assert workers[w := next][..n] == workers[..n];
    }
  }

  /** Every move leaves less to do, so every run ends. */
  lemma MovesFinish(reply: Model -> Option<int>, capacity: nat, s: State, t: State, w: nat)
    requires Moves(reply, capacity, s, t, w)
    ensures Work(t) < Work(s)
  {
    AheadUpdate(s.workers, w, t.workers[w]);
  }

  lemma {:induction false} RunsAreShort(reply: Model -> Option<int>, models: seq<Model>, states: seq<State>)
    requires Run(reply, models, states)
    ensures |states| - 1 + Work(states[|states| - 1]) <= Work(Start(models))
  {
    hide Moves, Start, Work;
    var n := |states| - 1;
    if n > 0 {
      var before := states[..n];
      forall i | 0 <= i < |before| - 1 ensures Follows(reply, |models|, before[i], before[i + 1]) {
        assert Follows(reply, |models|, states[i], states[i + 1]);
      }
      RunsAreShort(reply, models, before);
      assert Follows(reply, |models|, states[n - 1], states[n - 1 + 1]);
      var w :| Moves(reply, |models|, states[n - 1], states[n], w);
      MovesFinish(reply, |models|, states[n - 1], states[n], w);
    }
  }

  /** Every worker has left: what the wait waits for. */
  predicate Finished(s: State) {
    forall w :: w in s.workers ==> w == Exited
  }

  /** Once the workers have left, exactly the answers the server gives were sent, each once, whatever the interleaving was. */
  lemma SameResults(reply: Model -> Option<int>, models: seq<Model>, states: seq<State>)
    requires Run(reply, models, states) && Finished(states[|states| - 1])
    ensures multiset(states[|states| - 1].results) == multiset(Flat(models, AnswersFor(reply)))
  {
    hide Start, Moves;
    var s := states[|states| - 1];
    RunAccounted(reply, models, states);
    WorkersKept(reply, models, states);
    forall i | 0 <= i < |s.workers| ensures s.workers[i] == Exited {
      assert s.workers[i] in s.workers;
    }
    NoneHold(s.workers, Exited, Fetched(reply));
    if |models| > 0 {
      StartWorkers(models);
      assert s.workers[0] in s.workers;
    }
    assert s.jobs == [] || models == [];
    NoJobsLeft(reply, models, s);
  }

  lemma NoJobsLeft(reply: Model -> Option<int>, models: seq<Model>, s: State)
    requires Accounted(reply, models, s) && (s.jobs == [] || models == [])
    ensures Flat(s.jobs, AnswersFor(reply)) == []
  {
  }

  lemma StartWorkers(models: seq<Model>)
    requires |models| > 0
    ensures |Start(models).workers| > 0
  {
  }

  lemma {:induction false} WorkersKept(reply: Model -> Option<int>, models: seq<Model>, states: seq<State>)
    requires Run(reply, models, states)
    ensures |states[|states| - 1].workers| == |Start(models).workers|
  {
    hide Start;
    var n := |states| - 1;
    if n > 0 {
      var before := states[..n];
      forall i | 0 <= i < |before| - 1 ensures Follows(reply, |models|, before[i], before[i + 1]) {
        assert Follows(reply, |models|, states[i], states[i + 1]);
      }
      WorkersKept(reply, models, before);
      assert Follows(reply, |models|, states[n - 1], states[n - 1 + 1]);
    }
  }

  /** In every state there is a worker for each model, and no more than four. */
  lemma AtMostFour(reply: Model -> Option<int>, models: seq<Model>, states: seq<State>, i: nat)
    requires Run(reply, models, states) && i < |states|
    ensures |states[i].workers| == if |models| < 4 then |models| else 4
  {
    var before := states[..i + 1];
    forall j | 0 <= j < |before| - 1 ensures Follows(reply, |models|, before[j], before[j + 1]) {
      assert Follows(reply, |models|, states[j], states[j + 1]);
    }
    WorkersKept(reply, models, before);
  }

  function ContextOf(a: Answer): ModelContext {
    ModelContext(a.model.maximum, a.resolved)
  }

  /** The map read off the results: for models of different ids, the same whatever order the answers came in. */
  function ValuesOf(results: seq<Answer>): map<string, ModelContext> {
    if |results| == 0 then map[]
    else ValuesOf(results[..|results| - 1])[results[|results| - 1].model.id := ContextOf(results[|results| - 1])]
  }

  lemma {:induction false} ValuesExact(results: seq<Answer>, id: string)
    requires forall a, b :: a in results && b in results && a.model.id == b.model.id ==> a == b
    ensures id in ValuesOf(results) <==> exists a :: a in results && a.model.id == id
    ensures forall a :: a in results && a.model.id == id ==> id in ValuesOf(results) && ValuesOf(results)[id] == ContextOf(a)
  {
    if |results| > 0 {
      var n := |results| - 1;
      assert results == results[..n] + [results[n]];
      assert forall a :: a in results[..n] ==> a in results;
      ValuesExact(results[..n], id);
    }
  }

  /** Any two finished runs leave the same values, each of them 0 or at most the model's own positive maximum. */
  lemma SameValues(reply: Model -> Option<int>, models: seq<Model>, one: seq<State>, other: seq<State>)
    requires Run(reply, models, one) && Run(reply, models, other) && Finished(one[|one| - 1]) && Finished(other[|other| - 1])
    requires forall i, j :: 0 <= i < j < |models| ==> models[i].id != models[j].id
    ensures ValuesOf(one[|one| - 1].results) == ValuesOf(other[|other| - 1].results)
    ensures forall a :: a in one[|one| - 1].results ==> a.model in models && a.resolved >= 0 && (a.model.maximum > 0 ==> a.resolved <= a.model.maximum)
  {
    hide Finished, ValidEffective, ValuesOf, Start, Follows;
    var x, y := one[|one| - 1].results, other[|other| - 1].results;
    SameResults(reply, models, one);
    SameResults(reply, models, other);
    SameMembers(x, Flat(models, AnswersFor(reply)));
    SameMembers(x, y);
    forall a | a in x ensures IsAnswer(reply, models, a) {
      AnswerGiven(reply, models, a);
    }
    forall a, b | a in x && b in x && a.model.id == b.model.id ensures a == b {
      SameModel(models, a.model, b.model);
    }
    SameMap(x, y);
    forall a | a in x ensures a.resolved >= 0 && (a.model.maximum > 0 ==> a.resolved <= a.model.maximum) {
      Judged(reply(a.model).value, a.model.maximum);
    }
  }

  ghost predicate IsAnswer(reply: Model -> Option<int>, models: seq<Model>, a: Answer) {
    a.model in models && reply(a.model).Some? && a.resolved == ValidEffective(reply(a.model).value, a.model.maximum)
  }

  lemma AnswerGiven(reply: Model -> Option<int>, models: seq<Model>, a: Answer)
    requires a in Flat(models, AnswersFor(reply))
    ensures IsAnswer(reply, models, a)
  {
    FlatMember(models, AnswersFor(reply), a);
    var i :| 0 <= i < |models| && a in AnswersFor(reply)(models[i]);
  }

  lemma SameModel(models: seq<Model>, m: Model, n: Model)
    requires forall i, j :: 0 <= i < j < |models| ==> models[i].id != models[j].id
    requires m in models && n in models && m.id == n.id
    ensures m == n
  {
    var i :| 0 <= i < |models| && models[i] == m;
    var j :| 0 <= j < |models| && models[j] == n;
  }

  lemma SameMap(x: seq<Answer>, y: seq<Answer>)
    requires forall a :: a in x <==> a in y
    requires forall a, b :: a in x && b in x && a.model.id == b.model.id ==> a == b
    ensures ValuesOf(x) == ValuesOf(y)
  {
    forall id ensures id in ValuesOf(x) <==> id in ValuesOf(y) {
      ValuesExact(x, id);
      ValuesExact(y, id);
    }
    forall id | id in ValuesOf(x) ensures ValuesOf(x)[id] == ValuesOf(y)[id] {
      ValuesExact(x, id);
      ValuesExact(y, id);
    }
  }

  /** validEffective: 0, or positive and at most a positive maximum. */
  lemma Judged(effective: int, maximum: int)
    ensures ValidEffective(effective, maximum) >= 0
    ensures maximum > 0 ==> ValidEffective(effective, maximum) <= maximum
  {
  }

  // ---- The values in the map the listing started ----

  /** A model the server lists: a cloud provider's or the server's own, under an id and perhaps a checkpoint. */
  datatype Listing = Listing(id: string, checkpoint: string, cloud: bool)

  /** A model's value is written under this name. */
  predicate NamedBy(m: Listing, name: string, values: map<string, ModelContext>) {
    !m.cloud && m.id in values && (m.id == name || (m.checkpoint != "" && m.checkpoint == name))
  }

  function Put(out: map<string, ModelContext>, m: Listing, v: ModelContext, wanted: set<string>): map<string, ModelContext> {
    var named := if m.id in wanted then out[m.id := v] else out;
    if m.checkpoint != "" && m.checkpoint in wanted then named[m.checkpoint := v] else named
  }

  function Merged(out: map<string, ModelContext>, models: seq<Listing>, values: map<string, ModelContext>, wanted: set<string>): map<string, ModelContext> {
    if |models| == 0 then out
    else
      var before, m := Merged(out, models[..|models| - 1], values, wanted), models[|models| - 1];
      if m.cloud || m.id !in values then before else Put(before, m, values[m.id], wanted)
  }

  method MergeValues(started: map<string, ModelContext>, models: seq<Listing>, values: map<string, ModelContext>, wanted: set<string>)
    returns (out: map<string, ModelContext>)
    ensures out == Merged(started, models, values, wanted)
  {
    out := started;
    for i := 0 to |models|
      invariant out == Merged(started, models[..i], values, wanted)
    {
      assert models[..i + 1][..i] == models[..i];
      var m := models[i];
      if !m.cloud && m.id in values {
        if m.id in wanted {
          out := out[m.id := values[m.id]];
        }
        if m.checkpoint != "" && m.checkpoint in wanted {
          out := out[m.checkpoint := values[m.id]];
        }
      }
    }
    assert models[..|models|] == models;
  }

  lemma PutGives(out: map<string, ModelContext>, m: Listing, v: ModelContext, wanted: set<string>, name: string)
    ensures var r := Put(out, m, v, wanted);
            if name in wanted && (m.id == name || (m.checkpoint != "" && m.checkpoint == name)) then name in r && r[name] == v
            else (name in r <==> name in out) && (name in out ==> r[name] == out[name])
  {
  }

  /** A wanted name holds the value of the last model of that id or checkpoint. */
  lemma {:induction false} MergedLast(out: map<string, ModelContext>, models: seq<Listing>, values: map<string, ModelContext>, wanted: set<string>, name: string, i: nat)
    requires name in wanted && i < |models| && NamedBy(models[i], name, values)
    requires forall j :: i < j < |models| ==> !NamedBy(models[j], name, values)
    ensures name in Merged(out, models, values, wanted) && Merged(out, models, values, wanted)[name] == values[models[i].id]
  {
    hide Put;
    var n := |models| - 1;
    if models[n].id in values {
      PutGives(Merged(out, models[..n], values, wanted), models[n], values[models[n].id], wanted, name);
    }
    if i < n {
      assert !NamedBy(models[n], name, values);
      MergedLast(out, models[..n], values, wanted, name, i);
    }
  }

  /** A name nobody wants, or no model has, keeps what it held. */
  lemma {:induction false} MergedKeeps(out: map<string, ModelContext>, models: seq<Listing>, values: map<string, ModelContext>, wanted: set<string>, name: string)
    requires name !in wanted || forall m :: m in models ==> !NamedBy(m, name, values)
    ensures name in Merged(out, models, values, wanted) <==> name in out
    ensures name in out ==> Merged(out, models, values, wanted)[name] == out[name]
  {
    hide Put;
    if |models| > 0 {
      var n := |models| - 1;
      assert models[n] in models;
      if models[n].id in values {
        PutGives(Merged(out, models[..n], values, wanted), models[n], values[models[n].id], wanted, name);
      }
      MergedKeeps(out, models[..n], values, wanted, name);
    }
  }

  /** Whatever the interleaving was, the same contexts are returned, each resolved one 0 or at most its positive maximum. */
  lemma SameContexts(reply: Model -> Option<int>, models: seq<Model>, one: seq<State>, other: seq<State>,
                     out: map<string, ModelContext>, listed: seq<Listing>, wanted: set<string>)
    requires Run(reply, models, one) && Run(reply, models, other) && Finished(one[|one| - 1]) && Finished(other[|other| - 1])
    requires forall i, j :: 0 <= i < j < |models| ==> models[i].id != models[j].id
    ensures var values := ValuesOf(one[|one| - 1].results);
            && Merged(out, listed, values, wanted) == Merged(out, listed, ValuesOf(other[|other| - 1].results), wanted)
            && forall id :: id in values ==> values[id].effective >= 0 && (values[id].maximum > 0 ==> values[id].effective <= values[id].maximum)
  {
    hide Finished, ValuesOf, Start, Follows, Merged;
    SameValues(reply, models, one, other);
    ResolvedBounded(reply, models, one);
  }

  lemma ResolvedBounded(reply: Model -> Option<int>, models: seq<Model>, states: seq<State>)
    requires Run(reply, models, states) && Finished(states[|states| - 1])
    requires forall i, j :: 0 <= i < j < |models| ==> models[i].id != models[j].id
    ensures var values := ValuesOf(states[|states| - 1].results);
            forall id :: id in values ==> values[id].effective >= 0 && (values[id].maximum > 0 ==> values[id].effective <= values[id].maximum)
  {
    hide Finished, ValuesOf, Start, Follows;
    var results := states[|states| - 1].results;
    SameValues(reply, models, states, states);
    forall a, b | a in results && b in results && a.model.id == b.model.id ensures a == b {
      SameResult(reply, models, states, a, b);
    }
    forall id | id in ValuesOf(results)
      ensures ValuesOf(results)[id].effective >= 0
      ensures ValuesOf(results)[id].maximum > 0 ==> ValuesOf(results)[id].effective <= ValuesOf(results)[id].maximum
    {
      ValuesExact(results, id);
      var a :| a in results && a.model.id == id;
    }
  }

  lemma SameResult(reply: Model -> Option<int>, models: seq<Model>, states: seq<State>, a: Answer, b: Answer)
    requires Run(reply, models, states) && Finished(states[|states| - 1])
    requires forall i, j :: 0 <= i < j < |models| ==> models[i].id != models[j].id
    requires a in states[|states| - 1].results && b in states[|states| - 1].results && a.model.id == b.model.id
    ensures a == b
  {
    hide Finished, ValidEffective, ValuesOf, Start, Follows;
    SameResults(reply, models, states);
    SameMembers(states[|states| - 1].results, Flat(models, AnswersFor(reply)));
    AnswerGiven(reply, models, a);
    AnswerGiven(reply, models, b);
    SameModel(models, a.model, b.model);
  }
}
