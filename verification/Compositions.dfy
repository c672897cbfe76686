/** Lazy, concurrent instantiation of composed services, as interleaved steps of requests. */
module Compositions {
  import opened Prelude

  type Key = string

  datatype CompositionError = NotFound(key: Key) | Recursion(stack: seq<Key>) | Poisoned(key: Key) | Failed(key: Key)

  /** A service instance is identified by the request that built it. */
  datatype Outcome = Service(key: Key, builder: nat) | Failure(error: CompositionError)

  /** A builder resolves `deps` concurrently, and may fail on its own. */
  datatype Config = Config(deps: seq<Key>, works: bool)

  type Configs = map<Key, Config>

  datatype Entry = Unbuilt(config: Config) | InProgress(published: Option<Outcome>) | Done(outcome: Outcome)

  datatype Action = Ready(outcome: Outcome) | Drive(config: Config) | Await

  /** The section under the mutex: looks the entry up and leaves the new entry behind. */
  function Enter(stores: map<Key, Entry>, k: Key): (map<Key, Entry>, Action) {
    if k !in stores then (stores, Ready(Failure(NotFound(k))))
    else match stores[k]
      case Done(o) => (stores, Ready(o))
      case Unbuilt(c) => (stores[k := InProgress(None)], Drive(c))
      case InProgress(Some(o)) => (stores, Ready(o))
      case InProgress(None) => (stores, Await)
  }

  class Composition {
    var stores: map<Key, Entry>

    constructor ()
      ensures stores == map[]
    {
      stores := map[];
    }

    /** Registers configs. On a new composition this is the start of every interleaving. */
    method Extend(configs: Configs)
      modifies this
      ensures forall k :: k in configs ==> k in stores && stores[k] == Unbuilt(configs[k])
      ensures forall k :: k !in configs ==> (k in stores <==> k in old(stores))
      ensures forall k :: k in old(stores) && k !in configs ==> stores[k] == old(stores)[k]
      ensures old(stores) == map[] ==> State(stores, []) == Init(configs) && Inv(configs, State(stores, []))
    {
      stores := stores + map k | k in configs :: Unbuilt(configs[k]);
    }

    /** The placeholder that is in the map while the new entry is worked out never survives. */
    method BuildInternal(k: Key) returns (a: Action)
      modifies this
      ensures (stores, a) == Enter(old(stores), k)
      ensures k !in old(stores) ==> stores == old(stores) && a == Ready(Failure(NotFound(k)))
      ensures k in old(stores) && old(stores)[k].Unbuilt? ==>
        stores == old(stores)[k := InProgress(None)] && a == Drive(old(stores)[k].config)
      ensures k in old(stores) && !old(stores)[k].Unbuilt? ==> stores == old(stores)
      ensures k in old(stores) && old(stores)[k].Done? ==> a == Ready(old(stores)[k].outcome)
      ensures k in old(stores) && old(stores)[k].InProgress? ==>
        a == if old(stores)[k].published.Some? then Ready(old(stores)[k].published.value) else Await
    {
      if k !in stores {
        return Ready(Failure(NotFound(k)));
      }
      var prev := stores[k];
      stores := stores[k := Done(Failure(Poisoned(k)))];
      var next: Entry;
      match prev {
        case Done(o) => next, a := Done(o), Ready(o);
        case Unbuilt(c) => next, a := InProgress(None), Drive(c);
        case InProgress(published) =>
          next := InProgress(published);
          a := if published.Some? then Ready(published.value) else Await;
      }
      stores := stores[k := next];
      assert stores == old(stores)[k := next];
      assert prev == next ==> stores == old(stores);
    }
  }

  // ---------- The interleaved system ----------

  datatype Phase = Start | Building | Waiting | Finished(outcome: Outcome)

  /** Set once a request took the config: its dependencies are requests `first`, `first + 1`, ... */
  datatype Build = Build(first: nat, config: Config)

  datatype Request = Request(key: Key, stack: seq<Key>, parent: Option<nat>, build: Option<Build>, phase: Phase)

  datatype State = State(stores: map<Key, Entry>, requests: seq<Request>)

  function Init(cfg: Configs): State {
    State(map k | k in cfg :: Unbuilt(cfg[k]), [])
  }

  function Ask(s: State, k: Key): State {
    s.(requests := s.requests + [Request(k, [], None, None, Start)])
  }

  function Children(q: Request, r: nat, deps: seq<Key>): seq<Request> {
    seq(|deps|, j requires 0 <= j < |deps| => Request(deps[j], q.stack + [q.key], Some(r), None, Start))
  }

  function Settle(s: State, r: nat, o: Outcome): State
    requires r < |s.requests|
  {
    s.(requests := s.requests[r := s.requests[r].(phase := Finished(o))])
  }

  /** First poll of a request: the recursion check, then the section under the mutex. */
  function Begin(s: State, r: nat): State
    requires r < |s.requests|
  {
    var q := s.requests[r];
    if q.key in q.stack then Settle(s, r, Failure(Recursion(q.stack)))
    else
      var (stores, action) := Enter(s.stores, q.key);
      match action
      case Ready(o) => Settle(s, r, o)
      case Await => s.(requests := s.requests[r := q.(phase := Waiting)])
      case Drive(c) =>
        var building := q.(phase := Building, build := Some(Build(|s.requests|, c)));
        State(stores, s.requests[r := building] + Children(q, r, c.deps))
  }

  /** A builder's outcome: the first failed dependency in order, else its own. */
  function Combine(k: Key, r: nat, works: bool, outs: seq<Outcome>): Outcome {
    if outs == [] then (if works then Service(k, r) else Failure(Failed(k)))
    else if outs[0].Failure? then outs[0]
    else Combine(k, r, works, outs[1..])
  }

  predicate ChildrenDone(s: State, b: Build) {
    b.first + |b.config.deps| <= |s.requests|
    && forall j :: b.first <= j < b.first + |b.config.deps| ==> s.requests[j].phase.Finished?
  }

  function Outcomes(s: State, b: Build): seq<Outcome>
    requires ChildrenDone(s, b)
  {
    seq(|b.config.deps|, j requires 0 <= j < |b.config.deps| => s.requests[b.first + j].phase.outcome)
  }

  /** Publishes the outcome on the channel and returns it. */
  function Complete(s: State, r: nat): State
    requires r < |s.requests| && s.requests[r].build.Some? && ChildrenDone(s, s.requests[r].build.value)
  {
    var q := s.requests[r];
    var o := Combine(q.key, r, q.build.value.config.works, Outcomes(s, q.build.value));
    Settle(s.(stores := s.stores[q.key := InProgress(Some(o))]), r, o)
  }

  /** Request `r` can take its next step. */
  predicate Enabled(s: State, r: nat) {
    && r < |s.requests|
    && var q := s.requests[r];
       match q.phase
       case Start => true
       case Waiting => q.key in s.stores && s.stores[q.key].InProgress? && s.stores[q.key].published.Some?
       case Building => q.build.Some? && ChildrenDone(s, q.build.value)
       case Finished(_) => false
  }

  function Advance(s: State, r: nat): State
    requires Enabled(s, r)
  {
    match s.requests[r].phase
    case Start => Begin(s, r)
    case Waiting => Settle(s, r, s.stores[s.requests[r].key].published.value)
    case Building => Complete(s, r)
  }

  ghost predicate Stuck(s: State) {
    forall r: nat :: !Enabled(s, r)
  }

  ghost predicate AllFinished(s: State) {
    forall r :: 0 <= r < |s.requests| ==> s.requests[r].phase.Finished?
  }

  // ---------- What every interleaving keeps ----------

  ghost predicate EntryOk(cfg: Configs, s: State, k: Key)
    requires k in cfg && k in s.stores
  {
    s.stores[k] == Unbuilt(cfg[k]) || s.stores[k].InProgress?
  }

  ghost predicate IsBuilder(s: State, r: nat, k: Key) {
    r < |s.requests| && s.requests[r].key == k && s.requests[r].build.Some?
  }

  ghost predicate IsChild(c: Request, q: Request, r: nat, dep: Key) {
    c.key == dep && c.stack == q.stack + [q.key] && c.parent == Some(r)
  }

  /** A request that took the config: its dependencies, and what it has published. */
  ghost predicate BuilderOk(cfg: Configs, s: State, r: nat)
    requires r < |s.requests| && s.requests[r].build.Some?
  {
    var q := s.requests[r];
    var b := q.build.value;
    && q.key in cfg && b.config == cfg[q.key] && q.key !in q.stack
    && r < b.first && b.first + |b.config.deps| <= |s.requests|
    && (forall i :: b.first <= i < b.first + |b.config.deps| ==>
          IsChild(s.requests[i], q, r, b.config.deps[i - b.first]))
    && q.key in s.stores
    && (q.phase.Building? || (q.phase.Finished? && ChildrenDone(s, b)))
    && s.stores[q.key] == InProgress(if q.phase.Building? then None else Some(q.phase.outcome))
  }

  /** Request `i` ended in a service. */
  ghost predicate Served(s: State, i: nat) {
    i < |s.requests| && s.requests[i].phase.Finished? && s.requests[i].phase.outcome.Service?
  }

  ghost predicate AllServed(s: State, b: Build) {
    forall i: nat :: b.first <= i < b.first + |b.config.deps| ==> Served(s, i)
  }

  /** Request `j` is the first dependency, in order, that ended in a failure. */
  ghost predicate FirstFailed(s: State, b: Build, j: nat) {
    && b.first <= j < b.first + |b.config.deps| && j < |s.requests|
    && s.requests[j].phase.Finished? && s.requests[j].phase.outcome.Failure?
    && forall i: nat :: b.first <= i < j ==> Served(s, i)
  }

  /** A finished builder has built a service of its own exactly if its config works and all its dependencies are
      services. Otherwise it ended like the first of them that failed, or in a failure of its own. */
  ghost predicate BuiltFrom(s: State, r: nat)
    requires r < |s.requests|
  {
    var q := s.requests[r];
    q.build.Some? && q.phase.Finished? ==>
      var b := q.build.value;
      && (q.phase.outcome == Service(q.key, r) <==> b.config.works && AllServed(s, b))
      && (forall j: nat :: FirstFailed(s, b, j) ==> q.phase.outcome == s.requests[j].phase.outcome)
      && (!b.config.works && AllServed(s, b) ==> q.phase.outcome == Failure(Failed(q.key)))
  }

  ghost predicate AllBuilt(s: State) {
    forall r :: 0 <= r < |s.requests| ==> BuiltFrom(s, r)
  }

  ghost predicate CallerOk(cfg: Configs, s: State, r: nat)
    requires r < |s.requests|
  {
    var q := s.requests[r];
    match q.phase
    case Start => true
    case Building => false
    case Waiting => q.key !in q.stack && q.key in s.stores && s.stores[q.key].InProgress?
    case Finished(o) =>
      if q.key in q.stack then o == Failure(Recursion(q.stack))
      else if q.key !in cfg then o == Failure(NotFound(q.key))
      else q.key in s.stores && s.stores[q.key] == InProgress(Some(o))
  }

  /** A request made by a builder sits in that builder's range, below it on the stack. */
  ghost predicate LinkOk(s: State, r: nat)
    requires r < |s.requests|
  {
    var q := s.requests[r];
    && Distinct(q.stack)
    && (q.parent.None? ==> q.stack == [])
    && (q.parent.Some? ==>
          && q.parent.value < r && s.requests[q.parent.value].build.Some?
          && var b := s.requests[q.parent.value].build.value; b.first <= r < b.first + |b.config.deps|)
  }

  ghost predicate RequestOk(cfg: Configs, s: State, r: nat)
    requires r < |s.requests|
  {
    LinkOk(s, r) && if s.requests[r].build.Some? then BuilderOk(cfg, s, r) else CallerOk(cfg, s, r)
  }

  ghost predicate Inv(cfg: Configs, s: State) {
    && s.stores.Keys == cfg.Keys
    && (forall k :: k in cfg ==> EntryOk(cfg, s, k))
    && (forall r :: 0 <= r < |s.requests| ==> RequestOk(cfg, s, r))
    && (forall k :: k in cfg && s.stores[k].InProgress? ==> exists r :: IsBuilder(s, r, k))
    && (forall k, r1, r2 :: IsBuilder(s, r1, k) && IsBuilder(s, r2, k) ==> r1 == r2)
    && AllBuilt(s)
  }

  /** What is finished stays as it is. */
  ghost predicate KeepsFinished(s: State, s': State) {
    && |s.requests| <= |s'.requests|
    && forall i :: 0 <= i < |s.requests| && s.requests[i].phase.Finished? ==> s'.requests[i] == s.requests[i]
  }

  lemma {:induction false} BuiltFromStays(s: State, s': State, r: nat)
    requires KeepsFinished(s, s') && r < |s.requests| && s.requests[r].phase.Finished? && BuiltFrom(s, r)
    requires s.requests[r].build.Some? ==> ChildrenDone(s, s.requests[r].build.value)
    ensures BuiltFrom(s', r)
  {
    if s.requests[r].build.Some? {
      var b := s.requests[r].build.value;
      assert forall i: nat :: b.first <= i < b.first + |b.config.deps| ==> s'.requests[i] == s.requests[i];
      assert forall i: nat :: b.first <= i < b.first + |b.config.deps| ==> (Served(s', i) <==> Served(s, i));
      assert forall j: nat :: FirstFailed(s', b, j) ==> FirstFailed(s, b, j);
    }
  }

  /** All that was built stays built; only a request that finishes now is left to look at. */
  lemma {:induction false} AllBuiltStays(cfg: Configs, s: State, s': State, r: nat)
    requires Inv(cfg, s) && KeepsFinished(s, s') && r < |s'.requests| && BuiltFrom(s', r)
    requires forall i :: 0 <= i < |s'.requests| && i != r && s'.requests[i].phase.Finished? ==>
      i < |s.requests| && s.requests[i].phase.Finished?
    ensures AllBuilt(s')
  {
    hide BuiltFrom;
    forall i | 0 <= i < |s'.requests| ensures BuiltFrom(s', i) {
      if i != r {
        if s'.requests[i].phase.Finished? {
          assert RequestOk(cfg, s, i);
          BuiltFromStays(s, s', i);
        } else {
          Unfinished(s', i);
        }
      }
    }
  }

  lemma {:induction false} Unfinished(s: State, r: nat)
    requires r < |s.requests| && (s.requests[r].build.None? || !s.requests[r].phase.Finished?)
    ensures BuiltFrom(s, r)
  {
  }

  lemma {:induction false} CombineMeans(k: Key, r: nat, works: bool, outs: seq<Outcome>)
    ensures (forall i :: 0 <= i < |outs| ==> outs[i].Service?) ==>
      Combine(k, r, works, outs) == if works then Service(k, r) else Failure(Failed(k))
    ensures forall j :: 0 <= j < |outs| && outs[j].Failure? && (forall i :: 0 <= i < j ==> outs[i].Service?) ==>
      Combine(k, r, works, outs) == outs[j]
    ensures (exists i :: 0 <= i < |outs| && outs[i].Failure?) ==> Combine(k, r, works, outs).Failure?
  {
    if outs != [] && outs[0].Service? {
      CombineMeans(k, r, works, outs[1..]);
      forall j | 0 <= j < |outs| && outs[j].Failure? && (forall i :: 0 <= i < j ==> outs[i].Service?)
        ensures Combine(k, r, works, outs) == outs[j]
      {
        assert outs[1..][j - 1] == outs[j];
      }
      if i :| 0 <= i < |outs| && outs[i].Failure? {
        assert outs[1..][i - 1] == outs[i];
      }
    }
  }

  /** `outs` are the outcomes of the dependencies. */
  ghost predicate Collected(s: State, b: Build, outs: seq<Outcome>) {
    |outs| == |b.config.deps|
    && forall i: nat :: i < |outs| ==>
         b.first + i < |s.requests| && s.requests[b.first + i].phase == Finished(outs[i])
  }

  lemma {:induction false} CollectedServed(s: State, b: Build, outs: seq<Outcome>)
    requires Collected(s, b, outs)
    ensures AllServed(s, b) <==> forall i :: 0 <= i < |outs| ==> outs[i].Service?
  {
    forall i: nat | i < |outs| ensures Served(s, b.first + i) <==> outs[i].Service? {
    }
    if forall i :: 0 <= i < |outs| ==> outs[i].Service? {
      forall i: nat | b.first <= i < b.first + |b.config.deps| ensures Served(s, i) {
        assert Served(s, b.first + (i - b.first)) <==> outs[i - b.first].Service?;
      }
    }
  }

  lemma {:induction false} CollectedFailed(s: State, b: Build, outs: seq<Outcome>, j: nat)
    requires Collected(s, b, outs) && FirstFailed(s, b, j)
    ensures outs[j - b.first].Failure? && s.requests[j].phase == Finished(outs[j - b.first])
    ensures forall i :: 0 <= i < j - b.first ==> outs[i].Service?
  {
    assert s.requests[b.first + (j - b.first)].phase == Finished(outs[j - b.first]);
    forall i: nat | i < j - b.first ensures outs[i].Service? {
      assert Served(s, b.first + i);
    }
  }

  /** A builder that completes has built from its dependencies. */
  lemma {:induction false} CompleteBuilds(s: State, r: nat)
    requires r < |s.requests| && s.requests[r].build.Some? && ChildrenDone(s, s.requests[r].build.value)
    requires r < s.requests[r].build.value.first
    ensures BuiltFrom(Complete(s, r), r)
  {
    hide Served, AllServed, Combine;
    var q, s' := s.requests[r], Complete(s, r);
    var b := q.build.value;
    var outs := Outcomes(s, b);
    assert Collected(s', b, outs) by {
      forall i: nat | i < |outs| ensures s'.requests[b.first + i].phase == Finished(outs[i]) {
        assert s.requests[b.first + i].phase.Finished?;
      }
    }
    hide Collected;
    CombineMeans(q.key, r, b.config.works, outs);
    CollectedServed(s', b, outs);
    forall j: nat | FirstFailed(s', b, j) ensures s'.requests[r].phase.outcome == s'.requests[j].phase.outcome {
      CollectedFailed(s', b, outs, j);
    }
  }

  /** `s'` differs from `s` in request `r` alone, which only moves on, and in added requests. */
  ghost predicate MovesOn(s: State, s': State, r: nat) {
    && r < |s.requests| <= |s'.requests|
    && (forall i :: 0 <= i < |s.requests| && i != r ==> s'.requests[i] == s.requests[i])
    && var q, q' := s.requests[r], s'.requests[r];
       && q'.key == q.key && q'.stack == q.stack && q'.parent == q.parent
       && (q.build.Some? ==> q'.build == q.build) && !q.phase.Finished?
  }

  /** An entry is untouched, taken, or published by a builder that is not the one asking. */
  ghost predicate EntryMoves(e: Entry, e': Entry, builder: bool) {
    e' == e || (e == InProgress(None) && e'.InProgress? && !builder) || (e.Unbuilt? && e'.InProgress?)
  }

  /** Other requests are not affected, whether their entry is untouched or becomes published. */
  lemma {:induction false} Reframe(cfg: Configs, s: State, s': State, r: nat, i: nat)
    requires MovesOn(s, s', r) && i < |s.requests| && i != r && RequestOk(cfg, s, i)
    requires var k := s.requests[i].key;
      k in s.stores && k in s'.stores ==> EntryMoves(s.stores[k], s'.stores[k], s.requests[i].build.Some?)
    requires s.stores.Keys == s'.stores.Keys
    ensures RequestOk(cfg, s', i)
  {
    var q := s.requests[i];
    if q.build.Some? && q.phase.Finished? {
      DoneStays(s, s', r, q.build.value);
    }
  }

  lemma {:induction false} DoneStays(s: State, s': State, r: nat, b: Build)
    requires MovesOn(s, s', r) && ChildrenDone(s, b)
    ensures ChildrenDone(s', b)
  {
    forall j | b.first <= j < b.first + |b.config.deps| ensures s'.requests[j].phase.Finished? {
      assert s.requests[j].phase.Finished?;
    }
  }

  lemma {:induction false} BuildersKept(s: State, s': State, r: nat)
    requires MovesOn(s, s', r) && (s'.requests[r].build == s.requests[r].build)
    requires forall i :: |s.requests| <= i < |s'.requests| ==> s'.requests[i].build.None?
    ensures forall i, k :: IsBuilder(s', i, k) <==> IsBuilder(s, i, k)
  {
  }

  lemma {:induction false} AskKeeps(cfg: Configs, s: State, k: Key)
    requires Inv(cfg, s)
    ensures Inv(cfg, Ask(s, k))
  {
    var s' := Ask(s, k);
    forall i | 0 <= i < |s'.requests| ensures RequestOk(cfg, s', i) {
      if i < |s.requests| {
        assert RequestOk(cfg, s, i);
        assert s'.requests[..|s.requests|] == s.requests;
      }
    }
    AllBuiltStays(cfg, s, s', |s.requests|);
    assert forall i, k :: IsBuilder(s', i, k) <==> IsBuilder(s, i, k);
  }

  /** A step that only changes the phase of a request that is no builder. */
  lemma {:induction false} CallerStep(cfg: Configs, s: State, r: nat, phase: Phase)
    requires Inv(cfg, s) && r < |s.requests| && s.requests[r].build.None? && !s.requests[r].phase.Finished?
    requires CallerOk(cfg, s.(requests := s.requests[r := s.requests[r].(phase := phase)]), r)
    ensures Inv(cfg, s.(requests := s.requests[r := s.requests[r].(phase := phase)]))
  {
    var s' := s.(requests := s.requests[r := s.requests[r].(phase := phase)]);
    forall i | 0 <= i < |s'.requests| ensures RequestOk(cfg, s', i) {
      assert RequestOk(cfg, s, i);
      if i != r {
        Reframe(cfg, s, s', r, i);
      }
    }
    BuildersKept(s, s', r);
    AllBuiltStays(cfg, s, s', r);
    forall k | k in cfg && s'.stores[k].InProgress? ensures exists i :: IsBuilder(s', i, k) {
      var i :| IsBuilder(s, i, k);
      assert IsBuilder(s', i, k);
    }
  }

  lemma {:induction false} DistinctPush(stack: seq<Key>, k: Key)
    requires Distinct(stack) && k !in stack
    ensures Distinct(stack + [k])
  {
  }

  lemma {:induction false} DriveKeeps(cfg: Configs, s: State, r: nat)
    requires Inv(cfg, s) && r < |s.requests| && s.requests[r].phase.Start?
    requires var q := s.requests[r]; q.key !in q.stack && q.key in cfg && s.stores[q.key].Unbuilt?
    ensures Inv(cfg, Begin(s, r))
  {
    var q, n, s' := s.requests[r], |s.requests|, Begin(s, r);
    var c := s.stores[q.key].config;
    assert RequestOk(cfg, s, r) && EntryOk(cfg, s, q.key);
    DistinctPush(q.stack, q.key);
    assert MovesOn(s, s', r);
    forall i | 0 <= i < |s'.requests| ensures RequestOk(cfg, s', i) {
      if i < n && i != r {
        assert RequestOk(cfg, s, i);
        Reframe(cfg, s, s', r, i);
      } else if i >= n {
        assert s'.requests[i] == Children(q, r, c.deps)[i - n];
      } else {
        assert forall j :: n <= j < n + |c.deps| ==> s'.requests[j] == Children(q, r, c.deps)[j - n];
      }
    }
    AllBuiltStays(cfg, s, s', r);
    assert forall i, k :: IsBuilder(s', i, k) <==> IsBuilder(s, i, k) || (i == r && k == q.key);
    forall i | 0 <= i < n ensures !IsBuilder(s, i, q.key) {
      assert RequestOk(cfg, s, i);
    }
    forall k | k in cfg && s'.stores[k].InProgress? ensures exists i :: IsBuilder(s', i, k) {
      if k == q.key {
        assert IsBuilder(s', r, k);
      } else {
        var i :| IsBuilder(s, i, k);
        assert IsBuilder(s', i, k);
      }
    }
    forall k | k in cfg ensures EntryOk(cfg, s', k) {
      assert EntryOk(cfg, s, k);
    }
  }

  lemma {:induction false} BeginKeeps(cfg: Configs, s: State, r: nat)
    requires Inv(cfg, s) && r < |s.requests| && s.requests[r].phase.Start?
    ensures Inv(cfg, Begin(s, r))
  {
    var q := s.requests[r];
    assert RequestOk(cfg, s, r);
    if q.key !in q.stack && q.key in cfg {
      assert EntryOk(cfg, s, q.key);
      if s.stores[q.key].Unbuilt? {
        DriveKeeps(cfg, s, r);
      } else {
        CallerStep(cfg, s, r, Begin(s, r).requests[r].phase);
      }
    } else {
      CallerStep(cfg, s, r, Begin(s, r).requests[r].phase);
    }
  }

  lemma {:induction false} WakeKeeps(cfg: Configs, s: State, r: nat)
    requires Inv(cfg, s) && Enabled(s, r) && s.requests[r].phase.Waiting?
    ensures Inv(cfg, Advance(s, r))
  {
    assert RequestOk(cfg, s, r);
    CallerStep(cfg, s, r, Finished(s.stores[s.requests[r].key].published.value));
  }

  lemma {:induction false} CompleteKeeps(cfg: Configs, s: State, r: nat)
    requires Inv(cfg, s) && Enabled(s, r) && s.requests[r].phase.Building?
    ensures Inv(cfg, Advance(s, r))
  {
    hide AllBuilt, BuiltFrom, Combine;
    var q, s' := s.requests[r], Advance(s, r);
    assert RequestOk(cfg, s, r);
    assert MovesOn(s, s', r);
    DoneStays(s, s', r, q.build.value);
    CompleteBuilds(s, r);
    AllBuiltStays(cfg, s, s', r);
    forall i | 0 <= i < |s'.requests| ensures RequestOk(cfg, s', i) {
      assert RequestOk(cfg, s, i);
      if i != r {
        assert IsBuilder(s, i, q.key) ==> i == r by { assert IsBuilder(s, r, q.key); }
        Reframe(cfg, s, s', r, i);
      }
    }
    BuildersKept(s, s', r);
    forall k | k in cfg && s'.stores[k].InProgress? ensures exists i :: IsBuilder(s', i, k) {
      assert EntryOk(cfg, s, k);
      var i :| IsBuilder(s, i, k);
      assert IsBuilder(s', i, k);
    }
    forall k | k in cfg ensures EntryOk(cfg, s', k) {
      assert EntryOk(cfg, s, k);
    }
  }

  /** Every step of every interleaving keeps the invariant. */
  lemma {:induction false} AdvanceKeeps(cfg: Configs, s: State, r: nat)
    requires Inv(cfg, s) && Enabled(s, r)
    ensures Inv(cfg, Advance(s, r))
  {
    hide Inv;
    match s.requests[r].phase
    case Start => BeginKeeps(cfg, s, r);
    case Waiting => WakeKeeps(cfg, s, r);
    case Building => CompleteKeeps(cfg, s, r);
  }

  // ---------- Runs ----------

  datatype Event = Asked(key: Key) | Stepped(request: nat)

  ghost predicate Next(s: State, e: Event, s': State) {
    match e
    case Asked(k) => s' == Ask(s, k)
    case Stepped(r) => Enabled(s, r) && s' == Advance(s, r)
  }

  /** An interleaving: requests arrive and take steps in any order. */
  ghost predicate Interleaving(cfg: Configs, ss: seq<State>, es: seq<Event>) {
    && |ss| == |es| + 1 && ss[0] == Init(cfg)
    && forall i :: 0 <= i < |es| ==> Next(ss[i], es[i], ss[i + 1])
  }

  lemma {:induction false} InterleavingKeeps(cfg: Configs, ss: seq<State>, es: seq<Event>, i: nat)
    requires Interleaving(cfg, ss, es) && i <= |es|
    ensures Inv(cfg, ss[i])
  {
    if i > 0 {
      InterleavingKeeps(cfg, ss, es, i - 1);
      assert Next(ss[i - 1], es[i - 1], ss[i]);
      match es[i - 1]
      case Asked(k) => AskKeeps(cfg, ss[i - 1], k);
      case Stepped(r) => AdvanceKeeps(cfg, ss[i - 1], r);
    }
  }

  /** Each registered config is taken by at most one request, over the whole run. */
  lemma {:induction false} BuiltOnce(cfg: Configs, ss: seq<State>, es: seq<Event>, i: nat, j: nat, r1: nat, r2: nat,
        k: Key)
    requires Interleaving(cfg, ss, es) && i <= j <= |es|
    requires IsBuilder(ss[i], r1, k) && IsBuilder(ss[j], r2, k)
    ensures r1 == r2
  {
    BuilderStays(cfg, ss, es, i, j, r1, k);
    InterleavingKeeps(cfg, ss, es, j);
  }

  lemma {:induction false} BuilderStays(cfg: Configs, ss: seq<State>, es: seq<Event>, i: nat, j: nat, r: nat, k: Key)
    requires Interleaving(cfg, ss, es) && i <= j <= |es| && IsBuilder(ss[i], r, k)
    ensures IsBuilder(ss[j], r, k)
    decreases j - i
  {
    if i < j {
      InterleavingKeeps(cfg, ss, es, i);
      assert Next(ss[i], es[i], ss[i + 1]);
      StepKeepsBuilder(cfg, ss[i], es[i], ss[i + 1], r, k);
      BuilderStays(cfg, ss, es, i + 1, j, r, k);
    }
  }

  lemma {:induction false} StepKeepsBuilder(cfg: Configs, s: State, e: Event, s': State, r: nat, k: Key)
    requires Inv(cfg, s) && Next(s, e, s') && IsBuilder(s, r, k)
    ensures IsBuilder(s', r, k)
  {
    assert RequestOk(cfg, s, r);
  }

  lemma {:induction false} FinishedStays(ss: seq<State>, es: seq<Event>, cfg: Configs, i: nat, j: nat, r: nat)
    requires Interleaving(cfg, ss, es) && i <= j <= |es| && r < |ss[i].requests| && ss[i].requests[r].phase.Finished?
    ensures r < |ss[j].requests| && ss[j].requests[r] == ss[i].requests[r]
    decreases j - i
  {
    if i < j {
      assert Next(ss[i], es[i], ss[i + 1]);
      FinishedStays(ss, es, cfg, i + 1, j, r);
    }
  }

  /** All callers of a registered key get the one published result, except inside its own recursion. */
  lemma {:induction false} SameResult(cfg: Configs, ss: seq<State>, es: seq<Event>, i: nat, j: nat, r1: nat, r2: nat)
    requires Interleaving(cfg, ss, es) && i <= j <= |es| && r1 < |ss[i].requests| && r2 < |ss[j].requests|
    requires var q1, q2 := ss[i].requests[r1], ss[j].requests[r2];
      && q1.phase.Finished? && q2.phase.Finished?
      && q1.key == q2.key && q1.key in cfg && q1.key !in q1.stack && q2.key !in q2.stack
    ensures ss[i].requests[r1].phase == ss[j].requests[r2].phase
  {
    FinishedStays(ss, es, cfg, i, j, r1);
    InterleavingKeeps(cfg, ss, es, j);
    assert RequestOk(cfg, ss[j], r1) && RequestOk(cfg, ss[j], r2);
  }

  // ---------- Every run is finite ----------

  function PhaseWeight(p: Phase): nat {
    match p
    case Start => 2
    case Building => 1
    case Waiting => 1
    case Finished(_) => 0
  }

  function Weight(requests: seq<Request>): nat {
    if requests == [] then 0 else Weight(requests[..|requests| - 1]) + PhaseWeight(requests[|requests| - 1].phase)
  }

  ghost function Budget(cfg: Configs, keys: set<Key>): nat
    requires keys <= cfg.Keys
  {
    if keys == {} then 0
    else
      var k :| k in keys;
      2 * |cfg[k].deps| + Budget(cfg, keys - {k})
  }

  ghost function UnbuiltKeys(s: State): set<Key> {
    set k | k in s.stores && s.stores[k].Unbuilt?
  }

  /** Bounds the number of steps left: what is unfinished, and what unbuilt configs can still add. */
  ghost function Potential(cfg: Configs, s: State): nat
    requires s.stores.Keys == cfg.Keys
  {
    Budget(cfg, UnbuiltKeys(s)) + Weight(s.requests)
  }

  lemma {:induction false} BudgetRemove(cfg: Configs, keys: set<Key>, k: Key)
    requires keys <= cfg.Keys && k in keys
    ensures Budget(cfg, keys) == 2 * |cfg[k].deps| + Budget(cfg, keys - {k})
    decreases |keys|
  {
    var c :| c in keys && Budget(cfg, keys) == 2 * |cfg[c].deps| + Budget(cfg, keys - {c});
    if c != k {
      BudgetRemove(cfg, keys - {c}, k);
      BudgetRemove(cfg, keys - {k}, c);
      assert keys - {c} - {k} == keys - {k} - {c};
    }
  }

  lemma {:induction false} WeightAppend(a: seq<Request>, b: seq<Request>)
    ensures Weight(a + b) == Weight(a) + Weight(b)
  {
    if b == [] {
      assert a + b == a;
    } else {
      var n := |b| - 1;
      assert (a + b)[..|a + b| - 1] == a + b[..n];
      WeightAppend(a, b[..n]);
    }
  }

  lemma {:induction false} WeightUpdate(a: seq<Request>, r: nat, q: Request)
    requires r < |a|
    ensures Weight(a[r := q]) == Weight(a) - PhaseWeight(a[r].phase) + PhaseWeight(q.phase)
  {
    assert a == a[..r] + ([a[r]] + a[r + 1..]);
    assert a[r := q] == a[..r] + ([q] + a[r + 1..]);
    WeightAppend(a[..r], [a[r]] + a[r + 1..]);
    WeightAppend([a[r]], a[r + 1..]);
    WeightAppend(a[..r], [q] + a[r + 1..]);
    WeightAppend([q], a[r + 1..]);
  }

  lemma {:induction false} WeightOfStarts(cs: seq<Request>)
    requires forall i :: 0 <= i < |cs| ==> cs[i].phase.Start?
    ensures Weight(cs) == 2 * |cs|
  {
    if cs != [] {
      WeightOfStarts(cs[..|cs| - 1]);
    }
  }

  /** Taking a config trades what it can still add for the requests it adds. */
  lemma {:induction false} DriveUsesUpPotential(cfg: Configs, s: State, r: nat)
    requires Inv(cfg, s) && r < |s.requests| && s.requests[r].phase.Start?
    requires var q := s.requests[r]; q.key !in q.stack && q.key in cfg && s.stores[q.key].Unbuilt?
    ensures var s' := Begin(s, r); s'.stores.Keys == cfg.Keys && Potential(cfg, s') < Potential(cfg, s)
  {
    var q, s' := s.requests[r], Begin(s, r);
    assert EntryOk(cfg, s, q.key);
    assert s.stores.Keys == cfg.Keys;
    hide Inv;
    var cs := Children(q, r, cfg[q.key].deps);
    WeightUpdate(s.requests, r, s'.requests[r]);
    WeightAppend(s.requests[r := s'.requests[r]], cs);
    WeightOfStarts(cs);
    BudgetRemove(cfg, UnbuiltKeys(s), q.key);
    assert UnbuiltKeys(s') == UnbuiltKeys(s) - {q.key};
  }

  lemma {:induction false} StepsUseUpPotential(cfg: Configs, s: State, r: nat)
    requires Inv(cfg, s) && Enabled(s, r)
    ensures Advance(s, r).stores.Keys == cfg.Keys && Potential(cfg, Advance(s, r)) < Potential(cfg, s)
  {
    var q, s' := s.requests[r], Advance(s, r);
    if q.phase.Start? && q.key !in q.stack && q.key in cfg && s.stores[q.key].Unbuilt? {
      hide Inv, Potential;
      DriveUsesUpPotential(cfg, s, r);
    } else {
      assert s.stores.Keys == cfg.Keys && s'.stores.Keys == cfg.Keys && UnbuiltKeys(s') == UnbuiltKeys(s) by {
        assert RequestOk(cfg, s, r);
      }
      hide Inv;
      assert s'.requests == s.requests[r := s'.requests[r]];
      WeightUpdate(s.requests, r, s'.requests[r]);
    }
  }

  /** The state after letting the listed requests step, one after the other. */
  ghost predicate Schedule(s: State, path: seq<nat>, s': State)
    decreases |path|
  {
    if path == [] then s' == s else Enabled(s, path[0]) && Schedule(Advance(s, path[0]), path[1..], s')
  }

  /** No schedule takes more steps than the potential it starts with. */
  lemma {:induction false} SchedulesAreBounded(cfg: Configs, s: State, path: seq<nat>, s': State)
    requires Inv(cfg, s) && Schedule(s, path, s')
    ensures Inv(cfg, s') && |path| + Potential(cfg, s') <= Potential(cfg, s)
    decreases |path|
  {
    if path != [] {
      AdvanceKeeps(cfg, s, path[0]);
      StepsUseUpPotential(cfg, s, path[0]);
      SchedulesAreBounded(cfg, Advance(s, path[0]), path[1..], s');
    }
  }

  // ---------- Deadlock ----------

  /** Registered keys each of which depends on another one of them. */
  ghost predicate Knot(cfg: Configs, keys: set<Key>) {
    keys != {} && keys <= cfg.Keys && forall k :: k in keys ==> DependsOnOther(cfg, keys, k)
  }

  ghost predicate DependsOnOther(cfg: Configs, keys: set<Key>, k: Key)
    requires k in cfg
  {
    exists d :: d in keys && d != k && d in cfg[k].deps
  }

  ghost function UnpublishedKeys(s: State): set<Key> {
    set k | k in s.stores && s.stores[k] == InProgress(None)
  }

  lemma {:induction false} UnfinishedIsUnpublished(cfg: Configs, s: State, r: nat)
    requires Inv(cfg, s) && Stuck(s) && r < |s.requests| && !s.requests[r].phase.Finished?
    ensures s.requests[r].key in UnpublishedKeys(s) && s.requests[r].key !in s.requests[r].stack
  {
    assert RequestOk(cfg, s, r);
    assert !Enabled(s, r);
  }

  /** A state where nothing can step but something is unfinished holds a knot of unpublished keys. */
  lemma {:induction false} StuckIsKnotted(cfg: Configs, s: State)
    requires Inv(cfg, s) && Stuck(s) && !AllFinished(s)
    ensures Knot(cfg, UnpublishedKeys(s))
  {
    var keys := UnpublishedKeys(s);
    var r0 :| 0 <= r0 < |s.requests| && !s.requests[r0].phase.Finished?;
    UnfinishedIsUnpublished(cfg, s, r0);
    forall k | k in keys ensures DependsOnOther(cfg, keys, k) {
      var r: nat :| IsBuilder(s, r, k);
      assert RequestOk(cfg, s, r) && !Enabled(s, r);
      var b := s.requests[r].build.value;
      var i :| b.first <= i < b.first + |b.config.deps| && !s.requests[i].phase.Finished?;
      UnfinishedIsUnpublished(cfg, s, i);
      var d := b.config.deps[i - b.first];
      assert IsChild(s.requests[i], s.requests[r], r, d);
      assert d in keys && d != k && d in cfg[k].deps;
    }
  }

  /** Request `c`, made by the builder of `k` at top level, is not finished and asks for another key of the knot. */
  ghost predicate FrozenAt(s: State, keys: set<Key>, k: Key, r: nat, c: nat) {
    && IsBuilder(s, r, k) && s.requests[r].stack == []
    && (var b := s.requests[r].build.value; b.first <= c < b.first + |b.config.deps| && c < |s.requests|)
    && var q := s.requests[c];
       q.key in keys && q.key != k && q.stack == [k] && q.build.None? && (q.phase.Start? || q.phase.Waiting?)
  }

  ghost predicate IsFrozen(s: State, keys: set<Key>, k: Key) {
    exists r, c :: FrozenAt(s, keys, k, r, c)
  }

  /** Every key of the knot is taken, and its builder waits for another key of the knot. */
  ghost predicate Frozen(cfg: Configs, s: State, keys: set<Key>) {
    && Inv(cfg, s) && keys <= cfg.Keys
    && (forall k :: k in keys ==> s.stores[k] == InProgress(None))
    && (forall k :: k in keys ==> IsFrozen(s, keys, k))
  }

  lemma {:induction false} FrozenBuilder(cfg: Configs, s: State, keys: set<Key>, k: Key, r: nat, c: nat)
    requires Frozen(cfg, s, keys) && k in keys && FrozenAt(s, keys, k, r, c)
    ensures s.requests[r].phase.Building? && !Enabled(s, r)
  {
    hide IsFrozen;
    assert RequestOk(cfg, s, r);
  }

  lemma {:induction false} FrozenWitness(s: State, keys: set<Key>, k: Key) returns (r: nat, c: nat)
    requires IsFrozen(s, keys, k)
    ensures FrozenAt(s, keys, k, r, c)
  {
    r, c :| FrozenAt(s, keys, k, r, c);
  }

  /** A step leaves the entries of a frozen knot unpublished. */
  lemma {:induction false} FrozenEntries(cfg: Configs, s: State, keys: set<Key>, x: nat)
    requires Frozen(cfg, s, keys) && Enabled(s, x)
    ensures forall k :: k in keys ==> k in Advance(s, x).stores && Advance(s, x).stores[k] == InProgress(None)
  {
    hide IsFrozen;
    var q := s.requests[x];
    assert RequestOk(cfg, s, x);
    assert q.phase.Building? ==> IsBuilder(s, x, q.key);
    if q.phase.Building? && q.key in keys {
      var r, c := FrozenWitness(s, keys, q.key);
      FrozenBuilder(cfg, s, keys, q.key, r, c);
    }
  }

  lemma {:induction false} FrozenRequestStays(cfg: Configs, s: State, keys: set<Key>, x: nat, k: Key, r: nat, c: nat)
    requires Frozen(cfg, s, keys) && Enabled(s, x) && k in keys && FrozenAt(s, keys, k, r, c)
    requires s.stores.Keys == cfg.Keys
    ensures FrozenAt(Advance(s, x), keys, k, r, c)
  {
    hide IsFrozen, ChildrenDone, Inv;
    FrozenBuilder(cfg, s, keys, k, r, c);
    var q := s.requests[c];
    assert s.stores[q.key] == InProgress(None);
    assert x != r;
  }

  lemma {:induction false} FrozenStays(cfg: Configs, s: State, keys: set<Key>, x: nat)
    requires Frozen(cfg, s, keys) && Enabled(s, x)
    ensures Frozen(cfg, Advance(s, x), keys)
  {
    var s' := Advance(s, x);
    AdvanceKeeps(cfg, s, x);
    FrozenEntries(cfg, s, keys, x);
    assert s.stores.Keys == cfg.Keys;
    hide Inv, FrozenAt, Advance, Enabled;
    forall k | k in keys ensures IsFrozen(s', keys, k) {
      assert IsFrozen(s, keys, k);
      var r: nat, c: nat :| FrozenAt(s, keys, k, r, c);
      FrozenRequestStays(cfg, s, keys, x, k, r, c);
    }
  }

  /** Some keys were asked for and taken at top level, and nothing else has happened. */
  ghost predicate Launched(cfg: Configs, s: State, keys: set<Key>) {
    && Inv(cfg, s) && keys <= cfg.Keys
    && (forall k :: k in cfg ==> s.stores[k] == if k in keys then InProgress(None) else Unbuilt(cfg[k]))
    && (forall r :: 0 <= r < |s.requests| ==>
          s.requests[r].phase.Start? || (s.requests[r].phase.Building? && s.requests[r].stack == []))
  }

  lemma {:induction false} LaunchOne(cfg: Configs, s: State, keys: set<Key>, k: Key)
    requires Launched(cfg, s, keys) && k in cfg && k !in keys
    ensures var s1 := Ask(s, k); Enabled(s1, |s.requests|) && Launched(cfg, Advance(s1, |s.requests|), keys + {k})
  {
    hide Inv;
    var s1 := Ask(s, k);
    AskKeeps(cfg, s, k);
    AdvanceKeeps(cfg, s1, |s.requests|);
  }

  lemma {:induction false} LaunchedIsFrozen(cfg: Configs, s: State, keys: set<Key>)
    requires Launched(cfg, s, keys) && Knot(cfg, keys)
    ensures Frozen(cfg, s, keys)
  {
    hide IsFrozen, DependsOnOther;
    forall k | k in keys ensures IsFrozen(s, keys, k) {
      LaunchedKeyIsFrozen(cfg, s, keys, k);
    }
  }

  lemma {:induction false} LaunchedKeyIsFrozen(cfg: Configs, s: State, keys: set<Key>, k: Key)
    requires Launched(cfg, s, keys) && k in keys && DependsOnOther(cfg, keys, k)
    ensures IsFrozen(s, keys, k)
  {
    var d :| d in keys && d != k && d in cfg[k].deps;
    var r: nat :| IsBuilder(s, r, k);
    assert RequestOk(cfg, s, r);
    var j :| 0 <= j < |cfg[k].deps| && cfg[k].deps[j] == d;
    var c := s.requests[r].build.value.first + j;
    assert IsChild(s.requests[c], s.requests[r], r, d);
    assert RequestOk(cfg, s, c);
    hide Inv, RequestOk;
    assert FrozenAt(s, keys, k, r, c);
  }

  lemma {:induction false} ExtendInterleaving(cfg: Configs, ss: seq<State>, es: seq<Event>, e: Event, s: State)
    requires Interleaving(cfg, ss, es) && Next(ss[|es|], e, s)
    ensures Interleaving(cfg, ss + [s], es + [e])
  {
  }

  lemma {:induction false} LaunchAll(cfg: Configs, keys: set<Key>) returns (ss: seq<State>, es: seq<Event>)
    requires keys <= cfg.Keys
    ensures Interleaving(cfg, ss, es) && Launched(cfg, ss[|es|], keys)
    decreases |keys|
  {
    if keys == {} {
      ss, es := [Init(cfg)], [];
    } else {
      var k :| k in keys;
      ss, es := LaunchAll(cfg, keys - {k});
      var s := ss[|es|];
      LaunchOne(cfg, s, keys - {k}, k);
      var s1 := Ask(s, k);
      ExtendInterleaving(cfg, ss, es, Asked(k), s1);
      ExtendInterleaving(cfg, ss + [s1], es + [Asked(k)], Stepped(|s.requests|), Advance(s1, |s.requests|));
      ss, es := ss + [s1] + [Advance(s1, |s.requests|)], es + [Asked(k)] + [Stepped(|s.requests|)];
      assert keys - {k} + {k} == keys;
    }
  }

  lemma {:induction false} RunFrozen(cfg: Configs, ss: seq<State>, es: seq<Event>, keys: set<Key>)
      returns (ss': seq<State>, es': seq<Event>)
    requires Interleaving(cfg, ss, es) && Frozen(cfg, ss[|es|], keys)
    ensures Interleaving(cfg, ss', es') && Frozen(cfg, ss'[|es'|], keys) && Stuck(ss'[|es'|])
    decreases Potential(cfg, ss[|es|])
  {
    var s := ss[|es|];
    if x: nat :| Enabled(s, x) {
      FrozenStays(cfg, s, keys, x);
      StepsUseUpPotential(cfg, s, x);
      ExtendInterleaving(cfg, ss, es, Stepped(x), Advance(s, x));
      ss', es' := RunFrozen(cfg, ss + [Advance(s, x)], es + [Stepped(x)], keys);
    } else {
      ss', es' := ss, es;
    }
  }

  ghost predicate Deadlock(cfg: Configs, ss: seq<State>, es: seq<Event>) {
    Interleaving(cfg, ss, es) && Stuck(ss[|es|]) && !AllFinished(ss[|es|])
  }

  lemma {:induction false} FrozenIsUnfinished(s: State, keys: set<Key>, k: Key)
    requires IsFrozen(s, keys, k)
    ensures !AllFinished(s)
  {
    var r: nat, c: nat :| FrozenAt(s, keys, k, r, c);
    assert !s.requests[c].phase.Finished?;
  }

  lemma {:induction false} KnotDeadlocks(cfg: Configs, keys: set<Key>) returns (ss: seq<State>, es: seq<Event>)
    requires Knot(cfg, keys)
    ensures Deadlock(cfg, ss, es)
  {
    hide Launched, Stuck, Inv, IsFrozen, DependsOnOther, Next;
    ss, es := LaunchAll(cfg, keys);
    LaunchedIsFrozen(cfg, ss[|es|], keys);
    ss, es := RunFrozen(cfg, ss, es, keys);
    FrozenIsUnfinished(ss[|es|], keys, KnotMember(cfg, keys));
  }

  /** Some interleaving deadlocks exactly when the configs hold a knot: a dependency cycle through two keys or more. */
  lemma {:induction false} DeadlockIffKnot(cfg: Configs)
    ensures (exists ss, es :: Deadlock(cfg, ss, es)) <==> exists keys :: Knot(cfg, keys)
  {
    hide Inv, Knot;
    if keys :| Knot(cfg, keys) {
      var ss, es := KnotDeadlocks(cfg, keys);
    }
    if ss, es :| Deadlock(cfg, ss, es) {
      InterleavingKeeps(cfg, ss, es, |es|);
      StuckIsKnotted(cfg, ss[|es|]);
    }
  }

  ghost function KnotMember(cfg: Configs, keys: set<Key>): (k: Key)
    requires Knot(cfg, keys)
    ensures k in keys
  {
    var k :| k in keys; k
  }

  /** Dependencies that go down in some rank, self references aside, hold no knot. */
  lemma {:induction false} RankedHasNoKnot(cfg: Configs, rank: Key -> nat, keys: set<Key>)
    requires forall k, d :: k in cfg && d in cfg[k].deps && d in cfg && d != k ==> rank(d) < rank(k)
    ensures !Knot(cfg, keys)
  {
    if Knot(cfg, keys) {
      hide DependsOnOther;
      var k := Lowest(keys, rank);
      LowestDependsOnNone(cfg, keys, k, rank);
    }
  }

  lemma {:induction false} LowestDependsOnNone(cfg: Configs, keys: set<Key>, k: Key, rank: Key -> nat)
    requires forall k, d :: k in cfg && d in cfg[k].deps && d in cfg && d != k ==> rank(d) < rank(k)
    requires k in keys && keys <= cfg.Keys && forall x :: x in keys ==> rank(k) <= rank(x)
    ensures !DependsOnOther(cfg, keys, k)
  {
  }

  lemma {:induction false} Lowest(keys: set<Key>, rank: Key -> nat) returns (k: Key)
    requires keys != {}
    ensures k in keys && forall x :: x in keys ==> rank(k) <= rank(x)
    decreases |keys|
  {
    k :| k in keys;
    if keys != {k} {
      assert keys == (keys - {k}) + {k};
      var l := Lowest(keys - {k}, rank);
      if rank(l) < rank(k) { k := l; }
    }
  }

  /** Without a knot, from every reachable state, every schedule that cannot go on has finished all requests. */
  lemma {:induction false} EveryRequestFinishes(cfg: Configs, ss: seq<State>, es: seq<Event>, path: seq<nat>, s: State)
    requires Interleaving(cfg, ss, es) && Schedule(ss[|es|], path, s) && Stuck(s)
    requires !exists keys :: Knot(cfg, keys)
    ensures AllFinished(s)
    ensures ss[|es|].stores.Keys == cfg.Keys && |path| <= Potential(cfg, ss[|es|])
  {
    InterleavingKeeps(cfg, ss, es, |es|);
    SchedulesAreBounded(cfg, ss[|es|], path, s);
    hide Knot;
    if !AllFinished(s) {
      StuckIsKnotted(cfg, s);
    }
  }

  // ---------- One driver, depth first ----------

  ghost predicate LeftDone(s: State, r: nat)
    requires r < |s.requests|
  {
    forall q :: 0 <= q < r && s.requests[q].parent == s.requests[r].parent ==> s.requests[q].phase.Finished?
  }

  /** The next dependency a depth-first driver would start. */
  ghost predicate NextUp(s: State, r: nat) {
    r < |s.requests| && s.requests[r].phase.Start? && LeftDone(s, r)
  }

  ghost predicate IsBuilding(s: State, b: nat) {
    b < |s.requests| && s.requests[b].phase.Building?
  }

  /** A driver that asks when all is finished, and starts a dependency once the earlier ones are finished. */
  ghost predicate DepthFirstStep(s: State, e: Event, s': State) {
    && Next(s, e, s')
    && (e.Asked? ==> AllFinished(s))
    && (e.Stepped? && s.requests[e.request].phase.Start? ==> LeftDone(s, e.request))
  }

  ghost predicate DepthFirst(cfg: Configs, s: State) {
    && Inv(cfg, s)
    && (forall r :: 0 <= r < |s.requests| ==> !s.requests[r].phase.Waiting?)
    && (forall b: nat, r: nat :: IsBuilding(s, b) && NextUp(s, r) ==> s.requests[b].key in s.requests[r].stack)
    && (forall a: nat, b: nat :: IsBuilding(s, a) && IsBuilding(s, b) && a != b ==>
          s.requests[a].key in s.requests[b].stack || s.requests[b].key in s.requests[a].stack)
    && (forall r1: nat, r2: nat :: NextUp(s, r1) && NextUp(s, r2) ==> r1 == r2)
  }

  lemma {:induction false} SiblingsShareStack(cfg: Configs, s: State, r: nat, n: nat)
    requires Inv(cfg, s) && r < |s.requests| && n < |s.requests| && s.requests[r].parent == s.requests[n].parent
    ensures s.requests[r].stack == s.requests[n].stack
  {
    assert RequestOk(cfg, s, r) && RequestOk(cfg, s, n);
    if s.requests[r].parent.Some? {
      ParentOf(cfg, s, r);
      ParentOf(cfg, s, n);
    }
  }

  lemma {:induction false} ParentOf(cfg: Configs, s: State, r: nat)
    requires Inv(cfg, s) && r < |s.requests| && s.requests[r].parent.Some?
    ensures var p := s.requests[r].parent.value;
      && p < r && s.requests[p].build.Some? && s.requests[r].stack == s.requests[p].stack + [s.requests[p].key]
      && (var b := s.requests[p].build.value; b.first <= r < b.first + |b.config.deps|)
      && (!s.requests[r].phase.Finished? ==> s.requests[p].phase.Building?)
  {
    assert RequestOk(cfg, s, r);
    var p := s.requests[r].parent.value;
    assert RequestOk(cfg, s, p);
    var b := s.requests[p].build.value;
    assert IsChild(s.requests[r], s.requests[p], p, b.config.deps[r - b.first]);
  }

  /** Once the dependencies of a builder are finished, nothing below it is unfinished. */
  lemma {:induction false} NothingBelow(cfg: Configs, s: State, b: nat, r: nat)
    requires Inv(cfg, s) && b < |s.requests| && s.requests[b].build.Some? && ChildrenDone(s, s.requests[b].build.value)
    requires r < |s.requests| && !s.requests[r].phase.Finished?
    ensures s.requests[b].key !in s.requests[r].stack
    decreases r
  {
    assert RequestOk(cfg, s, r);
    if s.requests[r].parent.Some? {
      ParentOf(cfg, s, r);
      var p := s.requests[r].parent.value;
      NothingBelow(cfg, s, b, p);
      if s.requests[p].key == s.requests[b].key {
        assert IsBuilder(s, p, s.requests[b].key) && IsBuilder(s, b, s.requests[b].key);
      }
    }
  }

  /** Request `r` finishes: only a later request of the same parent can be next up. */
  lemma {:induction false} FinishUncovers(cfg: Configs, s: State, s': State, r: nat)
    requires DepthFirst(cfg, s) && Inv(cfg, s') && MovesOn(s, s', r) && |s'.requests| == |s.requests|
    requires s'.requests[r].phase.Finished?
    requires forall n: nat :: NextUp(s, n) ==> n == r
    requires forall b: nat :: IsBuilding(s, b) && b != r ==> s.requests[b].key in s.requests[r].stack
    ensures DepthFirst(cfg, s')
  {
    forall n: nat | NextUp(s', n) ensures s'.requests[n].parent == s.requests[r].parent {
      if s.requests[n].parent != s.requests[r].parent {
        assert NextUp(s, n);
      }
    }
    forall b: nat, n: nat | IsBuilding(s', b) && NextUp(s', n) ensures s'.requests[b].key in s'.requests[n].stack {
      assert IsBuilding(s, b);
      SiblingsShareStack(cfg, s', r, n);
    }
    assert forall b: nat :: IsBuilding(s', b) ==> IsBuilding(s, b) && s'.requests[b] == s.requests[b];
  }

  lemma {:induction false} AskKeepsDepthFirst(cfg: Configs, s: State, k: Key)
    requires DepthFirst(cfg, s) && AllFinished(s)
    ensures DepthFirst(cfg, Ask(s, k))
  {
    AskKeeps(cfg, s, k);
    var s' := Ask(s, k);
    hide Inv;
    assert forall r: nat :: NextUp(s', r) ==> r == |s.requests|;
    assert forall b: nat :: !IsBuilding(s', b);
  }

  lemma {:induction false} DriveKeepsDepthFirst(cfg: Configs, s: State, r: nat)
    requires DepthFirst(cfg, s) && NextUp(s, r)
    requires var q := s.requests[r]; q.key !in q.stack && q.key in s.stores && s.stores[q.key].Unbuilt?
    ensures DepthFirst(cfg, Begin(s, r))
  {
    BeginKeeps(cfg, s, r);
    var s', n, q := Begin(s, r), |s.requests|, s.requests[r];
    var cs := Children(q, r, s.stores[q.key].config.deps);
    assert forall i :: n <= i < |s'.requests| ==> s'.requests[i] == cs[i - n];
    assert MovesOn(s, s', r) by { assert RequestOk(cfg, s, r); }
    hide Inv, MovesOn;
    assert forall i :: n < i < |s'.requests| ==> s'.requests[i].parent == s'.requests[n].parent;
    forall i: nat | NextUp(s', i) ensures i == n {
      if i < n {
        UnmovedNextUp(s, s', r, i);
      }
    }
    assert forall b: nat :: IsBuilding(s', b) ==> b == r || (IsBuilding(s, b) && s'.requests[b] == s.requests[b]);
  }

  lemma {:induction false} UnmovedNextUp(s: State, s': State, r: nat, i: nat)
    requires MovesOn(s, s', r) && !s'.requests[r].phase.Finished? && i < |s.requests| && i != r
    ensures NextUp(s', i) ==> NextUp(s, i)
  {
  }

  lemma {:induction false} BeginKeepsDepthFirst(cfg: Configs, s: State, r: nat)
    requires DepthFirst(cfg, s) && NextUp(s, r)
    ensures DepthFirst(cfg, Begin(s, r))
  {
    var q := s.requests[r];
    if q.key !in q.stack && q.key in s.stores && s.stores[q.key].Unbuilt? {
      DriveKeepsDepthFirst(cfg, s, r);
    } else {
      BeginKeeps(cfg, s, r);
      NeverWaits(cfg, s, r);
      FinishUncovers(cfg, s, Begin(s, r), r);
    }
  }

  /** A depth-first driver finds an unpublished key only on its own stack. */
  lemma {:induction false} NeverWaits(cfg: Configs, s: State, r: nat)
    requires DepthFirst(cfg, s) && NextUp(s, r)
    ensures !Begin(s, r).requests[r].phase.Waiting?
  {
    var q := s.requests[r];
    if q.key in s.stores && s.stores[q.key] == InProgress(None) {
      var b: nat :| IsBuilder(s, b, q.key);
      assert RequestOk(cfg, s, b);
      assert IsBuilding(s, b);
    }
  }

  lemma {:induction false} CompleteKeepsDepthFirst(cfg: Configs, s: State, r: nat)
    requires DepthFirst(cfg, s) && Enabled(s, r) && s.requests[r].phase.Building?
    ensures DepthFirst(cfg, Advance(s, r))
  {
    CompleteKeeps(cfg, s, r);
    assert IsBuilding(s, r);
    forall n: nat | n < |s.requests| && !s.requests[n].phase.Finished? ensures !NextUp(s, n) {
      NothingBelow(cfg, s, r, n);
    }
    forall b: nat | IsBuilding(s, b) && b != r ensures s.requests[b].key in s.requests[r].stack {
      NothingBelow(cfg, s, r, b);
    }
    FinishUncovers(cfg, s, Advance(s, r), r);
  }

  /** A depth-first driver never waits for a result that is not published, cyclic configs included. */
  lemma {:induction false} DepthFirstRuns(cfg: Configs, ss: seq<State>, es: seq<Event>, i: nat)
    requires Interleaving(cfg, ss, es) && i <= |es|
    requires forall j :: 0 <= j < |es| ==> DepthFirstStep(ss[j], es[j], ss[j + 1])
    ensures DepthFirst(cfg, ss[i])
  {
    if i > 0 {
      DepthFirstRuns(cfg, ss, es, i - 1);
      var s := ss[i - 1];
      assert DepthFirstStep(s, es[i - 1], ss[i]);
      hide DepthFirst;
      match es[i - 1] {
        case Asked(k) => AskKeepsDepthFirst(cfg, s, k);
        case Stepped(r) =>
          DepthFirstHasNoWaiting(cfg, s, r);
          if s.requests[r].phase.Start? {
            BeginKeepsDepthFirst(cfg, s, r);
          } else {
            CompleteKeepsDepthFirst(cfg, s, r);
          }
      }
    } else {
      assert Inv(cfg, Init(cfg));
    }
  }

  lemma {:induction false} DepthFirstHasNoWaiting(cfg: Configs, s: State, r: nat)
    requires DepthFirst(cfg, s) && r < |s.requests|
    ensures !s.requests[r].phase.Waiting?
  {
  }

  lemma {:induction false} LastBuilding(s: State, n: nat) returns (b: int)
    requires n <= |s.requests|
    ensures -1 <= b < n && (b >= 0 ==> s.requests[b].phase.Building?)
    ensures forall i :: b < i < n ==> !s.requests[i].phase.Building?
  {
    if n == 0 { b := -1; }
    else if s.requests[n - 1].phase.Building? { b := n - 1; }
    else { b := LastBuilding(s, n - 1); }
  }

  lemma {:induction false} FirstUnfinished(s: State, lo: nat, hi: nat) returns (c: nat)
    requires lo <= hi <= |s.requests| && exists i :: lo <= i < hi && !s.requests[i].phase.Finished?
    ensures lo <= c < hi && !s.requests[c].phase.Finished?
    ensures forall i :: lo <= i < c ==> s.requests[i].phase.Finished?
    decreases hi - lo
  {
    if !s.requests[lo].phase.Finished? { c := lo; } else { c := FirstUnfinished(s, lo + 1, hi); }
  }

  /** Nor is it ever stuck before everything is finished. */
  lemma {:induction false} DepthFirstProgress(cfg: Configs, s: State) returns (r: nat)
    requires DepthFirst(cfg, s) && !AllFinished(s)
    ensures Enabled(s, r) && (s.requests[r].phase.Start? ==> LeftDone(s, r))
  {
    var b := LastBuilding(s, |s.requests|);
    if b >= 0 {
      r := b;
      assert RequestOk(cfg, s, r);
      var build := s.requests[r].build.value;
      if !ChildrenDone(s, build) {
        r := FirstUnfinished(s, build.first, build.first + |build.config.deps|);
        NextOfBuilder(cfg, s, b, r);
      }
    } else {
      r := FirstUnfinished(s, 0, |s.requests|);
      assert RequestOk(cfg, s, r);
    }
  }

  /** The first unfinished dependency of the last builder has not started, and is next. */
  lemma {:induction false} NextOfBuilder(cfg: Configs, s: State, b: nat, r: nat)
    requires Inv(cfg, s) && b < |s.requests| && s.requests[b].build.Some? && r < |s.requests|
    requires var build := s.requests[b].build.value;
      && build.first <= r < build.first + |build.config.deps|
      && forall i :: build.first <= i < r ==> s.requests[i].phase.Finished?
    ensures LeftDone(s, r)
  {
    assert RequestOk(cfg, s, b);
    var build := s.requests[b].build.value;
    assert IsChild(s.requests[r], s.requests[b], b, build.config.deps[r - build.first]);
    forall q | 0 <= q < r && s.requests[q].parent == s.requests[r].parent ensures s.requests[q].phase.Finished? {
      ParentOf(cfg, s, q);
    }
  }

  // ---------- Outcomes do not depend on the interleaving ----------

  ghost predicate Acyclic(cfg: Configs, rank: Key -> nat) {
    forall k, d :: k in cfg && d in cfg[k].deps && d in cfg ==> rank(d) < rank(k)
  }

  /** The error a sequential evaluation of `k` ends in, if any. */
  ghost function Expected(cfg: Configs, rank: Key -> nat, k: Key): Option<CompositionError>
    requires Acyclic(cfg, rank)
    decreases if k in cfg then rank(k) + 1 else 0, 1, 0
  {
    if k !in cfg then Some(NotFound(k)) else ExpectedOf(cfg, rank, k, cfg[k].deps)
  }

  ghost function ExpectedOf(cfg: Configs, rank: Key -> nat, k: Key, deps: seq<Key>): Option<CompositionError>
    requires Acyclic(cfg, rank) && k in cfg && forall d :: d in deps ==> d in cfg[k].deps
    decreases rank(k) + 1, 0, |deps|
  {
    if deps == [] then (if cfg[k].works then None else Some(Failed(k)))
    else
      assert deps[0] in cfg[k].deps;
      var e := Expected(cfg, rank, deps[0]);
      if e.Some? then e else ExpectedOf(cfg, rank, k, deps[1..])
  }

  predicate HasError(o: Outcome, e: Option<CompositionError>) {
    if e.Some? then o == Failure(e.value) else o.Service?
  }

  lemma {:induction false} CombineIsExpected(cfg: Configs, rank: Key -> nat, k: Key, r: nat, deps: seq<Key>,
        outs: seq<Outcome>)
    requires Acyclic(cfg, rank) && k in cfg && (forall d :: d in deps ==> d in cfg[k].deps) && |outs| == |deps|
    requires forall j :: 0 <= j < |deps| ==> HasError(outs[j], Expected(cfg, rank, deps[j]))
    ensures HasError(Combine(k, r, cfg[k].works, outs), ExpectedOf(cfg, rank, k, deps))
  {
    if deps != [] {
      assert HasError(outs[0], Expected(cfg, rank, deps[0]));
      if !outs[0].Failure? {
        CombineIsExpected(cfg, rank, k, r, deps[1..], outs[1..]);
      }
    }
  }

  /** Ranks go down along a stack, and whatever is finished ended as expected. */
  ghost predicate Determined(cfg: Configs, rank: Key -> nat, s: State)
    requires Acyclic(cfg, rank)
  {
    && Inv(cfg, s)
    && (forall r, k :: 0 <= r < |s.requests| && k in s.requests[r].stack ==>
          k in cfg && (s.requests[r].key in cfg ==> rank(s.requests[r].key) < rank(k)))
    && (forall r :: 0 <= r < |s.requests| && s.requests[r].phase.Finished? ==>
          HasError(s.requests[r].phase.outcome, Expected(cfg, rank, s.requests[r].key)))
  }

  lemma {:induction false} DeterminedEntry(cfg: Configs, rank: Key -> nat, s: State, k: Key)
    requires Acyclic(cfg, rank) && Determined(cfg, rank, s) && k in s.stores && s.stores[k].InProgress?
    requires s.stores[k].published.Some?
    ensures HasError(s.stores[k].published.value, Expected(cfg, rank, k))
  {
    var b: nat :| IsBuilder(s, b, k);
    assert RequestOk(cfg, s, b);
  }

  /** A new request ranks below everything on its stack. */
  lemma {:induction false} ChildRanksBelow(cfg: Configs, rank: Key -> nat, s: State, r: nat, i: nat, k: Key)
    requires Acyclic(cfg, rank) && Determined(cfg, rank, s) && Enabled(s, r)
    requires |s.requests| <= i < |Advance(s, r).requests| && k in Advance(s, r).requests[i].stack
    ensures var c := Advance(s, r).requests[i]; k in cfg && (c.key in cfg ==> rank(c.key) < rank(k))
  {
    var q := s.requests[r];
    assert EntryOk(cfg, s, q.key);
    var cs := Children(q, r, cfg[q.key].deps);
    var c := Advance(s, r).requests[i];
    assert c == cs[i - |s.requests|] && c.key in cfg[q.key].deps;
    assert k == q.key || k in q.stack;
  }

  lemma {:induction false} StepStaysDetermined(cfg: Configs, rank: Key -> nat, s: State, r: nat)
    requires Acyclic(cfg, rank) && Determined(cfg, rank, s) && Enabled(s, r)
    ensures Determined(cfg, rank, Advance(s, r))
  {
    AdvanceKeeps(cfg, s, r);
    var s' := Advance(s, r);
    hide Inv, Expected, Acyclic;
    if s'.requests[r].phase.Finished? {
      FinishIsExpected(cfg, rank, s, r);
    }
    forall i, k | 0 <= i < |s'.requests| && k in s'.requests[i].stack
      ensures k in cfg && (s'.requests[i].key in cfg ==> rank(s'.requests[i].key) < rank(k))
    {
      if i >= |s.requests| { ChildRanksBelow(cfg, rank, s, r, i, k); }
    }
    forall i | 0 <= i < |s'.requests| && s'.requests[i].phase.Finished?
      ensures HasError(s'.requests[i].phase.outcome, Expected(cfg, rank, s'.requests[i].key))
    {
      if i != r {
        assert i < |s.requests| && s'.requests[i] == s.requests[i];
      }
    }
  }

  lemma {:induction false} FinishIsExpected(cfg: Configs, rank: Key -> nat, s: State, r: nat)
    requires Acyclic(cfg, rank) && Determined(cfg, rank, s) && Enabled(s, r)
    requires Advance(s, r).requests[r].phase.Finished?
    ensures HasError(Advance(s, r).requests[r].phase.outcome, Expected(cfg, rank, s.requests[r].key))
  {
    var q := s.requests[r];
    assert RequestOk(cfg, s, r);
    if q.phase.Building? {
      var b := q.build.value;
      var outs := Outcomes(s, b);
      forall j | 0 <= j < |b.config.deps| ensures HasError(outs[j], Expected(cfg, rank, b.config.deps[j])) {
        var i := b.first + j;
        assert IsChild(s.requests[i], q, r, b.config.deps[i - b.first]);
        assert s.requests[i].phase.Finished?;
      }
      CombineIsExpected(cfg, rank, q.key, r, b.config.deps, outs);
    } else if q.key in cfg {
      assert EntryOk(cfg, s, q.key);
      if s.stores[q.key].InProgress? && s.stores[q.key].published.Some? {
        DeterminedEntry(cfg, rank, s, q.key);
      }
    }
  }

  /** Over every interleaving of acyclic configs, each request ends in what its key alone determines. */
  lemma {:induction false} OutcomesAreDetermined(cfg: Configs, rank: Key -> nat, ss: seq<State>, es: seq<Event>, i: nat)
    requires Acyclic(cfg, rank) && Interleaving(cfg, ss, es) && i <= |es|
    ensures Determined(cfg, rank, ss[i])
  {
    if i > 0 {
      OutcomesAreDetermined(cfg, rank, ss, es, i - 1);
      assert Next(ss[i - 1], es[i - 1], ss[i]);
      match es[i - 1]
      case Asked(k) => AskKeeps(cfg, ss[i - 1], k);
      case Stepped(r) => StepStaysDetermined(cfg, rank, ss[i - 1], r);
    } else {
      assert Inv(cfg, Init(cfg));
    }
  }
}
