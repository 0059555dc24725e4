/** What a write cancelled between its commit and its invalidate leaves in the caches of
    services/installation.py. */
module AbandonedWrites {
  import opened Options
  import opened InstallationCache
  import opened InstallationStaleness

  function WriteAbandoned(): System {
    SnapshotCached().(history := [Commit("old", 0.0), Commit("new", 0.0)], tasks := [Loaded(0, OLD), Cancelled])
  }

  /** Coherence does need every committed write to reach its invalidate: one cancelled in
      between leaves the old snapshot cached although no writer is active any more. */
  lemma AbandonedWriteLeavesStale()
    ensures var s := Exec(Init("old"), [StartLoad, Fetch(0), FinishLoad(0)]
                                       + [StartWrite("new"), TakeWriter(1), CommitWrite(1)]
                                       + [AbandonWrite(1)]);
            NoWriteBetween(s) && CachedSnapshot(s.cache, s.now) == Some(OLD) && !IsCurrent(s, OLD)
  {
    var a, b := [StartLoad, Fetch(0), FinishLoad(0)], [StartWrite("new"), TakeWriter(1), CommitWrite(1)];
    var c := [AbandonWrite(1)];
    ExecThree(Init("old"), StartLoad, Fetch(0), FinishLoad(0));
    assert Exec(Init("old"), a) == SnapshotCached();
    CommitRun();
    AbandonRun();
    ExecAppend(Init("old"), a, b);
    ExecAppend(Init("old"), a + b, c);
  }

  function WriteCommitted(): System {
    WriteAbandoned().(writer := Some(1), tasks := [Loaded(0, OLD), Written(1)])
  }

  lemma CommitRun()
    ensures Exec(SnapshotCached(), [StartWrite("new"), TakeWriter(1), CommitWrite(1)]) == WriteCommitted()
  {
    ExecThree(SnapshotCached(), StartWrite("new"), TakeWriter(1), CommitWrite(1));
  }

  lemma AbandonRun()
    ensures Exec(WriteCommitted(), [AbandonWrite(1)]) == WriteAbandoned()
  {
    assert [AbandonWrite(1)][..0] == [];
    assert Exec(WriteCommitted(), []) == WriteCommitted();
  }

  // ---- exactly when an abandoned write leaves the old row behind --------------------------

  predicate Live(s: System, start: real) {
    s.now - start < CACHE_TTL_S
  }

  /** A read that will put what it has already fetched into the cache, to be served. */
  predicate LiveRead(s: System, r: Read) {
    r.Fetched? && r.gen == s.cache.gen && Live(s, r.start)
  }

  predicate ExposedTask(s: System, x: Task) {
    match x
    case Loading(_, read) => LiveRead(s, read)
    case Building(_, start, gen, parts, inner) =>
      (inner.Some? && LiveRead(s, inner.value)) || (gen == s.cache.gen && parts != [] && Live(s, start))
    case _ => false
  }

  /** At the commit: something is served from a cache, or a coroutine has fetched something
      that will be. */
  ghost predicate Exposed(s: System) {
    || CachedSnapshot(s.cache, s.now).Some?
    || CachedView(s.cache, s.now).Some?
    || exists t: nat :: t < |s.tasks| && ExposedTask(s, s.tasks[t])
  }

  /** A cache serves a row older than commit v. */
  ghost predicate ServesOld(s: System, v: nat) {
    || (var hit := CachedSnapshot(s.cache, s.now); hit.Some? && hit.value.version < v)
    || (var view := CachedView(s.cache, s.now); view.Some? && exists p :: p in view.value && p.version < v)
  }

  // ---- nothing old gets served -----------------------------------------------------------

  /** What is older than commit v is not served and never will be. */
  predicate NewOrDead(s: System, p: Snapshot, start: real, v: nat) {
    p.version >= v || !Live(s, start)
  }

  predicate CleanRead(s: System, r: Read, v: nat) {
    r.Fetched? && r.gen == s.cache.gen ==> NewOrDead(s, r.snap, r.start, v)
  }

  predicate CleanParts(s: System, parts: seq<Snapshot>, start: real, v: nat) {
    forall p :: p in parts ==> NewOrDead(s, p, start, v)
  }

  predicate CleanTask(s: System, x: Task, v: nat) {
    match x
    case Loading(_, read) => CleanRead(s, read, v)
    case Building(_, start, gen, parts, inner) =>
      (inner.Some? ==> CleanRead(s, inner.value, v)) && (gen == s.cache.gen ==> CleanParts(s, parts, start, v))
    case _ => true
  }

  ghost predicate Clean(s: System, v: nat) {
    && v < |s.history|
    && (s.cache.snapshot.Some? ==> NewOrDead(s, s.cache.snapshot.value.1, s.cache.snapshot.value.0, v))
    && (s.cache.report.Some? ==> CleanParts(s, s.cache.report.value.1, s.cache.report.value.0, v))
    && forall t: nat :: t < |s.tasks| ==> CleanTask(s, s.tasks[t], v)
  }

  lemma CleanTaskStays(s: System, s': System, x: Task, v: nat)
    requires Later(s, s') && TaskInv(s, x) && CleanTask(s, x, v)
    ensures CleanTask(s', x, v)
  {
    hide Genuine, IncludesBefore, IncludesUpTo;
  }

  /** The coroutine a step starts or moves stays clean. */
  lemma CleanMoved(s: System, l: Label, t: nat, v: nat)
    requires Inv(s) && Clean(s, v) && Enabled(s, l) && t < |Do(s, l).tasks|
    requires t >= |s.tasks| || Do(s, l).tasks[t] != s.tasks[t]
    ensures CleanTask(Do(s, l), Do(s, l).tasks[t], v)
  {
    hide Genuine, IncludesBefore, IncludesUpTo, CachedView, StoreReport, Invalidated;
    if t < |s.tasks| {
      assert TaskInv(s, s.tasks[t]) && CleanTask(s, s.tasks[t], v);
    }
  }

  lemma CleanCache(s: System, l: Label, v: nat)
    requires Inv(s) && Clean(s, v) && Enabled(s, l)
    ensures var c := Do(s, l).cache;
            && (c.snapshot.Some? ==> NewOrDead(Do(s, l), c.snapshot.value.1, c.snapshot.value.0, v))
            && (c.report.Some? ==> CleanParts(Do(s, l), c.report.value.1, c.report.value.0, v))
  {
    hide Genuine, IncludesBefore, IncludesUpTo, CachedView, CachedSnapshot, FetchNow;
    StepIsLater(s, l);
    if l.FinishLoad? || l.FinishBuildLoad? || l.FinishView? {
      assert TaskInv(s, s.tasks[l.t]) && CleanTask(s, s.tasks[l.t], v);
    }
  }

  lemma CleanStep(s: System, l: Label, v: nat)
    requires Inv(s) && Clean(s, v)
    ensures Clean(Do(s, l), v)
  {
    hide NewOrDead, CleanTask, CleanParts;
    if Enabled(s, l) {
      var s' := Do(s, l);
      StepIsLater(s, l);
      CleanCache(s, l, v);
      forall t: nat | t < |s'.tasks| ensures CleanTask(s', s'.tasks[t], v) {
        if t < |s.tasks| && s'.tasks[t] == s.tasks[t] {
          CleanTaskStays(s, s', s.tasks[t], v);
        } else {
          CleanMoved(s, l, t, v);
        }
      }
    }
  }

  lemma {:induction false} CleanRun(s: System, labels: seq<Label>, v: nat)
    requires Inv(s) && Clean(s, v)
    ensures Clean(Exec(s, labels), v)
  {
    hide Clean, Do;
    if labels != [] {
      CleanRun(s, labels[..|labels| - 1], v);
      RunKeepsInv(s, labels[..|labels| - 1]);
      CleanStep(Exec(s, labels[..|labels| - 1]), labels[|labels| - 1], v);
    }
  }

  lemma CleanServesNew(s: System, v: nat)
    requires Clean(s, v)
    ensures !ServesOld(s, v)
  {
  }

  // ---- whatever is exposed gets served ------------------------------------------------------

  /** Everything cached or fetched before commit v is older than it. */
  lemma AllOld(s: System, t: nat)
    requires Inv(s)
    ensures s.cache.snapshot.Some? ==> s.cache.snapshot.value.1.version < |s.history|
    ensures s.cache.report.Some? ==> s.cache.report.value.1 != []
    ensures s.cache.report.Some? ==> forall p :: p in s.cache.report.value.1 ==> p.version < |s.history|
    ensures t < |s.tasks| && s.tasks[t].Loading? && s.tasks[t].read.Fetched? ==> s.tasks[t].read.snap.version < |s.history|
    ensures t < |s.tasks| && s.tasks[t].Building? ==>
              && (forall p :: p in s.tasks[t].parts ==> p.version < |s.history|)
              && (s.tasks[t].inner.Some? && s.tasks[t].inner.value.Fetched? ==>
                    s.tasks[t].inner.value.snap.version < |s.history|)
  {
    hide IncludesBefore, IncludesUpTo;
    if t < |s.tasks| {
      assert TaskInv(s, s.tasks[t]);
    }
  }

  /** The state after a write has committed and been cancelled. */
  function Abandoned(s: System, t: nat): (r: System)
    requires s.history != []
    ensures r.history != []
  {
    Do(Do(s, CommitWrite(t)), AbandonWrite(t))
  }

  lemma AbandonedIs(s: System, t: nat)
    requires s.history != [] && Enabled(s, CommitWrite(t))
    ensures Abandoned(s, t)
            == s.(history := s.history + [Commit(s.tasks[t].config, s.now)], writer := None, tasks := s.tasks[t := Cancelled])
  {
    assert s.tasks[t := Written(|s.history|)][t := Cancelled] == s.tasks[t := Cancelled];
  }

  /** A live fetched read is put into the cache by its own next step. */
  lemma ReadServes(s: System, x: nat, v: nat)
    requires s.history != [] && x < |s.tasks|
    requires s.tasks[x].Loading? || (s.tasks[x].Building? && s.tasks[x].inner.Some?)
    requires var read := if s.tasks[x].Loading? then s.tasks[x].read else s.tasks[x].inner.value;
             LiveRead(s, read) && read.snap.version < v
    ensures exists after :: ServesOld(Exec(s, after), v)
  {
    var l := if s.tasks[x].Loading? then FinishLoad(x) else FinishBuildLoad(x);
    OneStep(s, l);
    assert ServesOld(Do(s, l), v);
  }

  /** A report that may still be cached is, once its pending read is done. */
  lemma ReportServes(s: System, x: nat, v: nat)
    requires s.history != [] && x < |s.tasks| && s.tasks[x].Building?
    requires var b := s.tasks[x]; b.gen == s.cache.gen && Live(s, b.start) && exists p :: p in b.parts && p.version < v
    ensures exists after :: ServesOld(Exec(s, after), v)
  {
    hide StoreSnapshot, ServesOld;
    var b := s.tasks[x];
    if b.inner.None? {
      NothingPending(s, x, v);
      OneStep(s, FinishView(x));
    } else if b.inner.value.Fetched? {
      var s1 := Do(s, FinishBuildLoad(x));
      FinishedPart(s, x, v);
      NothingPending(s1, x, v);
      ExecSnoc(s, [FinishBuildLoad(x)], FinishView(x));
      OneStep(s, FinishBuildLoad(x));
    } else {
      var s1 := Do(s, Fetch(x));
      var s2 := Do(s1, FinishBuildLoad(x));
      FinishedPart(s1, x, v);
      NothingPending(s2, x, v);
      ExecThree(s, Fetch(x), FinishBuildLoad(x), FinishView(x));
    }
  }

  lemma FinishedPart(s: System, x: nat, v: nat)
    requires s.history != [] && x < |s.tasks| && s.tasks[x].Building? && s.tasks[x].inner.Some? && s.tasks[x].inner.value.Fetched?
    requires exists p :: p in s.tasks[x].parts && p.version < v
    ensures var s', b := Do(s, FinishBuildLoad(x)), s.tasks[x];
            && s'.now == s.now && s'.cache.gen == s.cache.gen && x < |s'.tasks|
            && s'.tasks[x] == Building(b.floor, b.start, b.gen, b.parts + [b.inner.value.snap], None)
            && exists p :: p in s'.tasks[x].parts && p.version < v
  {
    var b := s.tasks[x];
    var p :| p in b.parts && p.version < v;
    assert p in b.parts + [b.inner.value.snap];
  }

  lemma NothingPending(s: System, x: nat, v: nat)
    requires s.history != [] && x < |s.tasks| && s.tasks[x].Building? && s.tasks[x].inner.None?
    requires var b := s.tasks[x]; b.gen == s.cache.gen && Live(s, b.start) && exists p :: p in b.parts && p.version < v
    ensures ServesOld(Do(s, FinishView(x)), v)
  {
  }

  /** A write cancelled between its commit and its invalidate can be followed by an older row
      served from a cache exactly when, at the commit, something live was cached or fetched. */
  lemma AbandonedWriteServesOldExactlyWhen(config: Config, before: seq<Label>, t: nat)
    requires Enabled(Exec(Init(config), before), CommitWrite(t))
    ensures var s := Exec(Init(config), before);
            (exists after :: ServesOld(Exec(Abandoned(s, t), after), |s.history|)) <==> Exposed(s)
  {
    hide Exec, Do, ServesOld, Exposed, Enabled;
    InitInv(config);
    RunKeepsInv(Init(config), before);
    var s := Exec(Init(config), before);
    if Exposed(s) {
      ExposedServes(s, t);
    } else {
      AbandonedClean(s, t);
      forall after ensures !ServesOld(Exec(Abandoned(s, t), after), |s.history|) {
        CleanRun(Abandoned(s, t), after, |s.history|);
        CleanServesNew(Exec(Abandoned(s, t), after), |s.history|);
      }
    }
  }

  lemma AbandonedClean(s: System, t: nat)
    requires Inv(s) && Enabled(s, CommitWrite(t)) && !Exposed(s)
    ensures Inv(Abandoned(s, t)) && Clean(Abandoned(s, t), |s.history|)
  {
    hide Inv, Enabled, Do, LiveRead;
    CommitEnabled(s, t);
    StepKeepsInv(s, CommitWrite(t));
    StepKeepsInv(Do(s, CommitWrite(t)), AbandonWrite(t));
    AbandonedIs(s, t);
    var s' := Abandoned(s, t);
    forall x: nat | x < |s'.tasks| ensures CleanTask(s', s'.tasks[x], |s.history|) {
      assert !ExposedTask(s, s.tasks[x]);
      NotExposedIsClean(s, s', s.tasks[x], |s.history|);
    }
  }

  lemma CommitEnabled(s: System, t: nat)
    requires Inv(s) && Enabled(s, CommitWrite(t))
    ensures s.history != [] && t < |s.tasks| && s.tasks[t].Writing?
  {
  }

  lemma NotExposedIsClean(s: System, s': System, x: Task, v: nat)
    requires s'.now == s.now && s'.cache == s.cache && !ExposedTask(s, x)
    ensures CleanTask(s', x, v)
  {
  }

  lemma ExposedServes(s: System, t: nat)
    requires Inv(s) && Enabled(s, CommitWrite(t)) && Exposed(s)
    ensures exists after :: ServesOld(Exec(Abandoned(s, t), after), |s.history|)
  {
    hide Inv, Do, Enabled, Exec;
    CommitEnabled(s, t);
    AbandonedIs(s, t);
    AllOld(s, 0);
    var s', v := Abandoned(s, t), |s.history|;
    if CachedSnapshot(s.cache, s.now).Some? || CachedView(s.cache, s.now).Some? {
      NoStep(s');
      CachedServes(s, s', v);
      assert ServesOld(Exec(s', []), v);
    } else {
      var x: nat :| x < |s.tasks| && ExposedTask(s, s.tasks[x]);
      assert s'.tasks[x] == s.tasks[x];
      AllOld(s, x);
      TaskServes(s, s', x, v);
    }
  }

  lemma NoStep(s: System)
    requires s.history != []
    ensures Exec(s, []) == s
  {
  }

  lemma CachedServes(s: System, s': System, v: nat)
    requires s'.now == s.now && s'.cache == s.cache
    requires CachedSnapshot(s.cache, s.now).Some? || CachedView(s.cache, s.now).Some?
    requires s.cache.snapshot.Some? ==> s.cache.snapshot.value.1.version < v
    requires s.cache.report.Some? ==> s.cache.report.value.1 != []
    requires s.cache.report.Some? ==> forall p :: p in s.cache.report.value.1 ==> p.version < v
    ensures ServesOld(s', v)
  {
    if CachedView(s.cache, s.now).Some? {
      assert s.cache.report.value.1[0] in s.cache.report.value.1;
    }
  }

  lemma TaskServes(s: System, s': System, x: nat, v: nat)
    requires s'.history != [] && s'.now == s.now && s'.cache == s.cache
    requires x < |s.tasks| && x < |s'.tasks| && s'.tasks[x] == s.tasks[x] && ExposedTask(s, s.tasks[x])
    requires s.tasks[x].Loading? && s.tasks[x].read.Fetched? ==> s.tasks[x].read.snap.version < v
    requires s.tasks[x].Building? ==>
               && (forall p :: p in s.tasks[x].parts ==> p.version < v)
               && (s.tasks[x].inner.Some? && s.tasks[x].inner.value.Fetched? ==> s.tasks[x].inner.value.snap.version < v)
    ensures exists after :: ServesOld(Exec(s', after), v)
  {
    hide Exec, ServesOld;
    var b := s.tasks[x];
    if b.Loading? || (b.inner.Some? && LiveRead(s, b.inner.value)) {
      ReadServes(s', x, v);
    } else {
      assert b.parts[0] in b.parts;
      ReportServes(s', x, v);
    }
  }
}
