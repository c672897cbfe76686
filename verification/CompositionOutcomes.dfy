/** Over every interleaving, cyclic configs included: which requests end in a service. */
module CompositionOutcomes {
  import opened Prelude
  import opened Compositions

  // ---------- Keys that can be built ----------

  /** The key is registered and works, and so is everything it depends on, within `n` levels. */
  ghost predicate Builds(cfg: Configs, k: Key, n: nat)
    decreases n
  {
    k in cfg && cfg[k].works && forall d :: d in cfg[k].deps ==> n > 0 && Builds(cfg, d, n - 1)
  }

  ghost predicate Buildable(cfg: Configs, k: Key) {
    exists n: nat :: Builds(cfg, k, n)
  }

  /** Each key depends on the next one. */
  ghost predicate Chain(cfg: Configs, path: seq<Key>) {
    path != [] && forall i :: 0 <= i < |path| - 1 ==> path[i] in cfg && path[i + 1] in cfg[path[i]].deps
  }

  /** Directly or not, `k` depends on itself. */
  ghost predicate DependsOnItself(cfg: Configs, k: Key) {
    exists path :: Chain(cfg, path) && |path| > 1 && path[0] == k == path[|path| - 1]
  }

  /** Every key that `k` depends on, directly or not, is registered and works, and none of them depends on itself. */
  ghost predicate SoundBelow(cfg: Configs, k: Key) {
    forall path :: Chain(cfg, path) && path[0] == k ==>
      var last := path[|path| - 1]; last in cfg && cfg[last].works && !DependsOnItself(cfg, last)
  }

  lemma {:induction false} BuildsMore(cfg: Configs, k: Key, n: nat, m: nat)
    requires Builds(cfg, k, n) && n <= m
    ensures Builds(cfg, k, m)
    decreases m
  {
    forall d | d in cfg[k].deps ensures m > 0 && Builds(cfg, d, m - 1) {
      BuildsMore(cfg, d, n - 1, m - 1);
    }
  }

  /** What is at the end of a chain is built with fewer levels. */
  lemma {:induction false} BuildsAlong(cfg: Configs, path: seq<Key>, n: nat)
    requires Chain(cfg, path) && Builds(cfg, path[0], n)
    ensures |path| - 1 <= n && Builds(cfg, path[|path| - 1], n - (|path| - 1))
    decreases |path|
  {
    if |path| > 1 {
      assert path[1] in cfg[path[0]].deps;
      BuildsAlong(cfg, path[1..], n - 1);
    }
  }

  lemma {:induction false} CycleNeverBuilds(cfg: Configs, path: seq<Key>, n: nat)
    requires Chain(cfg, path) && |path| > 1 && path[0] == path[|path| - 1]
    ensures !Builds(cfg, path[0], n)
    decreases n
  {
    if Builds(cfg, path[0], n) {
      BuildsAlong(cfg, path, n);
      CycleNeverBuilds(cfg, path, n - (|path| - 1));
    }
  }

  /** If `n` levels do not do, a chain leads to a key that is missing or does not work, or is longer than that. */
  lemma {:induction false} Obstacle(cfg: Configs, k: Key, n: nat) returns (path: seq<Key>)
    requires !Builds(cfg, k, n)
    ensures Chain(cfg, path) && path[0] == k
    ensures (var last := path[|path| - 1]; last !in cfg || !cfg[last].works) || |path| > n + 1
    decreases n
  {
    path := [k];
    if k in cfg && cfg[k].works {
      var d :| d in cfg[k].deps && !(n > 0 && Builds(cfg, d, n - 1));
      var rest := [d];
      if n > 0 { rest := Obstacle(cfg, d, n - 1); }
      path := [k] + rest;
      forall i | 0 <= i < |path| - 1 ensures path[i] in cfg && path[i + 1] in cfg[path[i]].deps {
        if i > 0 { assert path[i] == rest[i - 1] && path[i + 1] == rest[i]; }
      }
    }
  }

  lemma {:induction false} DistinctFits(path: seq<Key>, keys: set<Key>)
    requires Distinct(path) && forall i :: 0 <= i < |path| ==> path[i] in keys
    ensures |path| <= |keys|
    decreases |path|
  {
    if path != [] {
      var n := |path| - 1;
      DistinctFits(path[..n], keys - {path[n]});
    }
  }

  lemma {:induction false} SubChain(cfg: Configs, path: seq<Key>, i: nat, j: nat)
    requires Chain(cfg, path) && i <= j < |path|
    ensures Chain(cfg, path[i..j + 1]) && path[i..j + 1][0] == path[i] && path[i..j + 1][j - i] == path[j]
  {
    var sub := path[i..j + 1];
    forall x | 0 <= x < |sub| - 1 ensures sub[x] in cfg && sub[x + 1] in cfg[sub[x]].deps {
      assert sub[x] == path[i + x] && sub[x + 1] == path[i + x + 1];
    }
  }

  /** Chains below a sound key stay within the registered keys and never come back. */
  lemma {:induction false} SoundChain(cfg: Configs, k: Key, path: seq<Key>)
    requires SoundBelow(cfg, k) && Chain(cfg, path) && path[0] == k
    ensures Distinct(path) && forall i :: 0 <= i < |path| ==> path[i] in cfg
  {
    forall i | 0 <= i < |path| ensures path[i] in cfg && !DependsOnItself(cfg, path[i]) {
      SubChain(cfg, path, 0, i);
    }
    forall i, j | 0 <= i < j < |path| ensures path[i] != path[j] {
      SubChain(cfg, path, i, j);
      if path[i] == path[j] {
        assert DependsOnItself(cfg, path[i]);
      }
    }
  }

  lemma {:induction false} BuildableMeans(cfg: Configs, k: Key)
    ensures Buildable(cfg, k) <==> SoundBelow(cfg, k)
  {
    if Buildable(cfg, k) {
      var n: nat :| Builds(cfg, k, n);
      forall path | Chain(cfg, path) && path[0] == k
        ensures var last := path[|path| - 1]; last in cfg && cfg[last].works && !DependsOnItself(cfg, last)
      {
        BuildsAlong(cfg, path, n);
        NoCycle(cfg, path[|path| - 1], n - (|path| - 1));
      }
    }
    if SoundBelow(cfg, k) && !Builds(cfg, k, |cfg|) {
      var path := Obstacle(cfg, k, |cfg|);
      SoundChain(cfg, k, path);
      DistinctFits(path, cfg.Keys);
      assert |cfg.Keys| == |cfg|;
    }
  }

  lemma {:induction false} NoCycle(cfg: Configs, k: Key, n: nat)
    requires Builds(cfg, k, n)
    ensures !DependsOnItself(cfg, k)
  {
    forall path | Chain(cfg, path) && |path| > 1 ensures !(path[0] == k == path[|path| - 1]) {
      if path[0] == k == path[|path| - 1] { CycleNeverBuilds(cfg, path, n); }
    }
  }

  // ---------- What the requests end in ----------

  /** The stack of a request is the chain of dependencies that led to it. */
  lemma {:induction false} StackIsChain(cfg: Configs, s: State, r: nat)
    requires Inv(cfg, s) && r < |s.requests|
    ensures Chain(cfg, s.requests[r].stack + [s.requests[r].key])
  {
    var q := s.requests[r];
    var path := q.stack + [q.key];
    assert RequestOk(cfg, s, r);
    if q.parent.Some? {
      var p := q.parent.value;
      ParentOf(cfg, s, r);
      StackIsChain(cfg, s, p);
      assert RequestOk(cfg, s, p);
      var b := s.requests[p].build.value;
      assert IsChild(q, s.requests[p], p, b.config.deps[r - b.first]);
      var front := s.requests[p].stack + [s.requests[p].key];
      forall i | 0 <= i < |path| - 1 ensures path[i] in cfg && path[i + 1] in cfg[path[i]].deps {
        if i < |front| - 1 { assert path[i] == front[i] && path[i + 1] == front[i + 1]; }
      }
    }
  }

  lemma {:induction false} NotRecursive(cfg: Configs, s: State, r: nat, n: nat)
    requires Inv(cfg, s) && r < |s.requests| && Builds(cfg, s.requests[r].key, n)
    ensures s.requests[r].key !in s.requests[r].stack
  {
    hide Inv;
    var q := s.requests[r];
    if q.key in q.stack {
      var i :| 0 <= i < |q.stack| && q.stack[i] == q.key;
      StackIsChain(cfg, s, r);
      var path := q.stack + [q.key];
      SubChain(cfg, path, i, |q.stack|);
      CycleNeverBuilds(cfg, path[i..|q.stack| + 1], n);
    }
  }

  /** The builder of a key, and a request that got its result. */
  ghost predicate ServedBy(s: State, r: nat, b: nat) {
    r < |s.requests| && IsBuilder(s, b, s.requests[r].key) && s.requests[b].phase == s.requests[r].phase
  }

  /** A finished request for a registered key, outside its own recursion, has the result of its builder. */
  lemma {:induction false} ResultOfBuilder(cfg: Configs, s: State, r: nat) returns (b: nat)
    requires Inv(cfg, s) && r < |s.requests| && s.requests[r].phase.Finished?
    requires s.requests[r].key !in s.requests[r].stack && s.requests[r].key in cfg
    ensures ServedBy(s, r, b) && RequestOk(cfg, s, b) && BuiltFrom(s, b)
  {
    hide BuiltFrom;
    assert RequestOk(cfg, s, r);
    b :| IsBuilder(s, b, s.requests[r].key);
    assert RequestOk(cfg, s, b);
    assert AllBuilt(s);
  }

  lemma {:induction false} FirstFailure(s: State, b: Build, hi: nat) returns (j: nat)
    requires ChildrenDone(s, b) && b.first <= hi <= b.first + |b.config.deps|
    requires exists i: nat :: b.first <= i < hi && !Served(s, i)
    ensures FirstFailed(s, b, j)
    decreases hi
  {
    if i: nat :| b.first <= i < hi - 1 && !Served(s, i) {
      j := FirstFailure(s, b, hi - 1);
    } else {
      j := hi - 1;
      assert s.requests[j].phase.Finished?;
    }
  }

  /** What can be built is built, whatever the interleaving. */
  lemma {:induction false} BuildableIsServed(cfg: Configs, s: State, r: nat, n: nat)
    requires Inv(cfg, s) && r < |s.requests| && s.requests[r].phase.Finished? && Builds(cfg, s.requests[r].key, n)
    ensures s.requests[r].phase.outcome.Service?
    decreases n
  {
    hide Inv, BuiltFrom;
    NotRecursive(cfg, s, r, n);
    var o := ResultOfBuilder(cfg, s, r);
    var b := s.requests[o].build.value;
    if !AllServed(s, b) {
      var j := FirstFailure(s, b, b.first + |b.config.deps|);
      var d := b.config.deps[j - b.first];
      assert IsChild(s.requests[j], s.requests[o], o, d);
      assert d in b.config.deps;
      BuildableIsServed(cfg, s, j, n - 1);
    }
    assert BuiltFrom(s, o) ==> s.requests[o].phase.outcome.Service? by { BuildsService(s, o); }
  }

  lemma {:induction false} BuildsService(s: State, r: nat)
    requires r < |s.requests| && s.requests[r].build.Some? && s.requests[r].phase.Finished? && BuiltFrom(s, r)
    requires s.requests[r].build.value.config.works && AllServed(s, s.requests[r].build.value)
    ensures s.requests[r].phase.outcome == Service(s.requests[r].key, r)
  {
  }

  ghost predicate OnlyBuildable(cfg: Configs, s: State) {
    forall r: nat :: Served(s, r) ==> Buildable(cfg, s.requests[r].key)
  }

  /** A builder that ended in a service works, and so do its dependencies. */
  lemma {:induction false} ServedBuilder(cfg: Configs, s: State, r: nat)
    requires r < |s.requests| && s.requests[r].build.Some? && Served(s, r) && RequestOk(cfg, s, r) && BuiltFrom(s, r)
    ensures s.requests[r].build.value.config.works && AllServed(s, s.requests[r].build.value)
    ensures s.requests[r].phase.outcome == Service(s.requests[r].key, r)
  {
    var b := s.requests[r].build.value;
    if !AllServed(s, b) {
      var j := FirstFailure(s, b, b.first + |b.config.deps|);
    }
  }

  lemma {:induction false} CommonBound(cfg: Configs, deps: seq<Key>) returns (n: nat)
    requires forall d :: d in deps ==> Buildable(cfg, d)
    ensures forall d :: d in deps ==> Builds(cfg, d, n)
  {
    n := 0;
    if deps != [] {
      assert Buildable(cfg, deps[0]);
      var m: nat :| Builds(cfg, deps[0], m);
      var rest := CommonBound(cfg, deps[1..]);
      n := if m < rest then rest else m;
      forall d | d in deps ensures Builds(cfg, d, n) {
        if d in deps[1..] { BuildsMore(cfg, d, rest, n); } else { BuildsMore(cfg, d, m, n); }
      }
    }
  }

  /** A service whose dependencies could be built could be built itself. */
  lemma {:induction false} BuilderIsBuildable(cfg: Configs, s: State, r: nat)
    requires r < |s.requests| && s.requests[r].build.Some? && Served(s, r) && RequestOk(cfg, s, r) && BuiltFrom(s, r)
    requires forall i: nat :: r < i && Served(s, i) ==> Buildable(cfg, s.requests[i].key)
    ensures Buildable(cfg, s.requests[r].key)
  {
    hide BuiltFrom, Buildable;
    ServedBuilder(cfg, s, r);
    var q := s.requests[r];
    var b := q.build.value;
    forall d | d in b.config.deps ensures Buildable(cfg, d) {
      var x :| 0 <= x < |b.config.deps| && b.config.deps[x] == d;
      assert IsChild(s.requests[b.first + x], q, r, b.config.deps[b.first + x - b.first]);
      assert Served(s, b.first + x);
    }
    var n := CommonBound(cfg, b.config.deps);
    assert Builds(cfg, q.key, n + 1);
    assert Buildable(cfg, q.key) by { Introduce(cfg, q.key, n + 1); }
  }

  lemma {:induction false} Introduce(cfg: Configs, k: Key, n: nat)
    requires Builds(cfg, k, n)
    ensures Buildable(cfg, k)
  {
  }

  lemma {:induction false} StepServesBuildable(cfg: Configs, s: State, r: nat)
    requires Inv(cfg, s) && Enabled(s, r) && OnlyBuildable(cfg, s)
    ensures OnlyBuildable(cfg, Advance(s, r))
  {
    hide Inv, Buildable, BuiltFrom;
    var s' := Advance(s, r);
    AdvanceKeeps(cfg, s, r);
    OthersUnchanged(cfg, s, r);
    if Served(s', r) {
      ServedKey(cfg, s', r);
      var b := ResultOfBuilder(cfg, s', r);
      assert Served(s', b);
      if b != r {
        assert Served(s, b);
      } else {
        BuilderIsBuildable(cfg, s', r);
      }
    }
  }

  /** Only request `r` can finish in its own step. */
  lemma {:induction false} OthersUnchanged(cfg: Configs, s: State, r: nat)
    requires Inv(cfg, s) && Enabled(s, r)
    ensures var s' := Advance(s, r);
      forall i: nat :: i != r && Served(s', i) ==> Served(s, i) && s'.requests[i] == s.requests[i]
  {
  }

  lemma {:induction false} ServedKey(cfg: Configs, s: State, r: nat)
    requires Inv(cfg, s) && Served(s, r)
    ensures s.requests[r].key !in s.requests[r].stack && s.requests[r].key in cfg
  {
    assert RequestOk(cfg, s, r);
  }

  lemma {:induction false} ServicesAreBuildable(cfg: Configs, ss: seq<State>, es: seq<Event>, i: nat)
    requires Interleaving(cfg, ss, es) && i <= |es|
    ensures OnlyBuildable(cfg, ss[i])
    decreases i
  {
    hide Buildable;
    if i > 0 {
      InterleavingKeeps(cfg, ss, es, i - 1);
      ServicesAreBuildable(cfg, ss, es, i - 1);
      assert Next(ss[i - 1], es[i - 1], ss[i]);
      match es[i - 1] {
        case Asked(k) =>
          assert forall r: nat :: Served(ss[i], r) ==>
            Served(ss[i - 1], r) && ss[i].requests[r] == ss[i - 1].requests[r];
        case Stepped(r) => StepServesBuildable(cfg, ss[i - 1], r);
      }
    }
  }

  /** Over every interleaving, a finished request ended in a service exactly if every key it depends on, directly or
      not, is registered and works and none of them depends on itself. It is then the instance of the one builder. */
  lemma {:induction false} ServiceIffSound(cfg: Configs, ss: seq<State>, es: seq<Event>, i: nat, r: nat)
    requires Interleaving(cfg, ss, es) && i <= |es| && r < |ss[i].requests| && ss[i].requests[r].phase.Finished?
    ensures var q := ss[i].requests[r];
      && (q.phase.outcome.Service? <==> SoundBelow(cfg, q.key))
      && (q.phase.outcome.Service? ==>
            exists b: nat :: IsBuilder(ss[i], b, q.key) && q.phase.outcome == Service(q.key, b))
  {
    hide Inv, BuiltFrom, SoundBelow, Next;
    var s := ss[i];
    var k := s.requests[r].key;
    InterleavingKeeps(cfg, ss, es, i);
    ServicesAreBuildable(cfg, ss, es, i);
    BuildableMeans(cfg, k);
    if Buildable(cfg, k) {
      var n: nat :| Builds(cfg, k, n);
      BuildableIsServed(cfg, s, r, n);
    }
    if Served(s, r) {
      ServedKey(cfg, s, r);
      var b := ResultOfBuilder(cfg, s, r);
      ServedBuilder(cfg, s, b);
    }
  }

  /** A key that depends on itself, directly or not, always ends in a failure. */
  lemma {:induction false} SelfDependentFails(cfg: Configs, ss: seq<State>, es: seq<Event>, i: nat, r: nat)
    requires Interleaving(cfg, ss, es) && i <= |es| && r < |ss[i].requests| && ss[i].requests[r].phase.Finished?
    requires DependsOnItself(cfg, ss[i].requests[r].key)
    ensures ss[i].requests[r].phase.outcome.Failure?
  {
    hide DependsOnItself;
    ServiceIffSound(cfg, ss, es, i, r);
    var k := ss[i].requests[r].key;
    assert Chain(cfg, [k]) && [k][0] == k && [k][|[k]| - 1] == k;
  }

  // ---------- Two keys that need each other ----------

  const CYCLE: Configs := map[
    "default" := Config(["other", "other"], true),
    "other" := Config(["default", "default"], true)]

  const RECURSION := Failure(Recursion(["default", "other"]))

  const TOP := Request("default", [], None, None, Start)

  const MIDDLE := Request("other", ["default"], Some(0), None, Start)

  const BOTTOM := Request("default", ["default", "other"], Some(1), None, Start)

  function Driving(q: Request, first: nat): Request {
    q.(phase := Building, build := if q.key in CYCLE then Some(Build(first, CYCLE[q.key])) else None)
  }

  function Ended(q: Request): Request {
    q.(phase := Finished(RECURSION))
  }

  function Entries(top: Entry, middle: Entry): map<Key, Entry> {
    map["default" := top, "other" := middle]
  }

  const RUNNING := InProgress(None)

  const PUBLISHED := InProgress(Some(RECURSION))

  /** The state after the first `i` events of the run. */
  function After(i: nat): State {
    var top, middle, low := Driving(TOP, 1), Driving(MIDDLE, 3), Ended(BOTTOM);
    var both, other := Entries(RUNNING, RUNNING), Entries(RUNNING, PUBLISHED);
    if i == 0 then Init(CYCLE)
    else if i == 1 then State(Init(CYCLE).stores, [TOP])
    else if i == 2 then State(Entries(RUNNING, Unbuilt(CYCLE["other"])), [top, MIDDLE, MIDDLE])
    else if i == 3 then State(both, [top, middle, MIDDLE, BOTTOM, BOTTOM])
    else if i == 4 then State(both, [top, middle, MIDDLE, low, BOTTOM])
    else if i == 5 then State(both, [top, middle, MIDDLE, low, low])
    else if i == 6 then State(other, [top, Ended(middle), MIDDLE, low, low])
    else if i == 7 then State(other, [top, Ended(middle), Ended(MIDDLE), low, low])
    else State(Entries(PUBLISHED, PUBLISHED), [Ended(top), Ended(middle), Ended(MIDDLE), low, low])
  }

  function Happening(i: nat): Event {
    if i == 0 then Asked("default")
    else Stepped(if i == 2 || i == 5 then 1 else if i == 3 then 3 else if i == 4 then 4 else if i == 6 then 2 else 0)
  }

  lemma {:induction false} Starting(i: nat)
    requires i < 2
    ensures DepthFirstStep(After(i), Happening(i), After(i + 1))
  {
    assert Ask(Init(CYCLE), "default").requests == [TOP];
    assert TOP.stack + [TOP.key] == MIDDLE.stack;
    assert Children(TOP, 0, ["other", "other"]) == [MIDDLE, MIDDLE];
    assert After(1).stores["default" := RUNNING] == After(2).stores;
  }

  lemma {:induction false} DrivingOther()
    ensures DepthFirstStep(After(2), Happening(2), After(3))
  {
    assert MIDDLE.stack + [MIDDLE.key] == BOTTOM.stack;
    assert Children(MIDDLE, 1, ["default", "default"]) == [BOTTOM, BOTTOM];
    assert After(2).stores["other" := RUNNING] == After(3).stores;
  }

  lemma {:induction false} Detecting(i: nat)
    requires 3 <= i < 5
    ensures DepthFirstStep(After(i), Happening(i), After(i + 1))
  {
  }

  lemma {:induction false} CompletingOther(i: nat)
    requires 5 <= i < 7
    ensures DepthFirstStep(After(i), Happening(i), After(i + 1))
  {
    assert Outcomes(After(5), Build(3, CYCLE["other"])) == [RECURSION, RECURSION];
    assert After(5).stores["other" := PUBLISHED] == After(6).stores;
  }

  lemma {:induction false} CompletingDefault()
    ensures DepthFirstStep(After(7), Happening(7), After(8)) && AllFinished(After(8))
    ensures After(8).requests != []
    ensures After(8).requests[0].phase == Finished(Failure(Recursion(["default", "other"])))
  {
    assert Outcomes(After(7), Build(1, CYCLE["default"])) == [RECURSION, RECURSION];
    assert After(7).stores["default" := PUBLISHED] == After(8).stores;
  }

  lemma {:induction false} EachStep(i: nat)
    requires i < 8
    ensures DepthFirstStep(After(i), Happening(i), After(i + 1))
  {
    hide DepthFirstStep, After, Happening;
    if i < 2 { Starting(i); }
    else if i == 2 { DrivingOther(); }
    else if i < 5 { Detecting(i); }
    else if i < 7 { CompletingOther(i); }
    else { CompletingDefault(); }
  }

  lemma {:induction false} DepthFirstInterleaves(cfg: Configs, ss: seq<State>, es: seq<Event>)
    requires |ss| == |es| + 1 && ss[0] == Init(cfg)
    requires forall j :: 0 <= j < |es| ==> DepthFirstStep(ss[j], es[j], ss[j + 1])
    ensures Interleaving(cfg, ss, es)
  {
    hide Next, LeftDone, Init;
  }

  lemma {:induction false} RunStarts()
    ensures After(0) == Init(CYCLE) && Happening(0) == Asked("default")
  {
  }

  /** Driven depth first, the request for one of them ends in the recursion error with both on the stack. */
  lemma {:induction false} CycleIsRejected() returns (ss: seq<State>, es: seq<Event>)
    ensures Interleaving(CYCLE, ss, es)
    ensures forall j :: 0 <= j < |es| ==> DepthFirstStep(ss[j], es[j], ss[j + 1])
    ensures es != [] && es[0] == Asked("default") && AllFinished(ss[|es|])
    ensures ss[|es|].requests != []
      && ss[|es|].requests[0].phase == Finished(Failure(Recursion(["default", "other"])))
  {
    hide DepthFirstStep, After, Happening, AllFinished, Init;
    ss, es := seq(9, i requires 0 <= i => After(i)), seq(8, i requires 0 <= i => Happening(i));
    forall j | 0 <= j < |es| ensures DepthFirstStep(ss[j], es[j], ss[j + 1]) {
      EachStep(j);
    }
    RunStarts();
    CompletingDefault();
    DepthFirstInterleaves(CYCLE, ss, es);
  }
}
